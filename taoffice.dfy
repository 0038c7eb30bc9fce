/** The sleeping-TA office, run one critical section at a time.

    Every change to shared state in the threaded program happens inside a
    short critical section: under the mutex, in a semaphore operation or in
    an atomic decrement. Each such section is one method of `Office`, and
    any interleaving of the threads is a sequence of these calls. A method's
    `requires` says which thread may take its step: the state of that
    thread's own program counter and, for a semaphore wait, a positive
    count. */
module TaOffice {

  /** Where a student thread is in its loop. */
  datatype Phase =
    | Programming  // between seat attempts (or past the last one)
    | Seated       // took a chair and blocks on `ta_ready`
    | Done         // decremented `students_active` and returned

  /** A student thread: its phase, the seat attempts it has made (the loop
      counter `k` less one) and the `requests_to_make` it was given. */
  datatype Student = Student(phase: Phase, made: nat, quota: nat)

  /** Where the TA thread is in its loop. */
  datatype TaPhase =
    | Napping           // in `sem_wait_ms(&customers, TA_POLL_MS)`
    | Acquired          // the wait succeeded; about to take the mutex
    | Released          // gave up the chair; about to post `ta_ready`
    | Checking(w: int)  // the wait timed out and `waiting` read as `w`
    | Closed            // left the loop

  /** The per-student quantities the office keeps totals of. */
  datatype Tally =
    | Seats     // 1 for a seated student
    | Actives   // 1 for a student thread still running
    | Attempts  // the seat attempts made
    | Work      // the weighted steps still to take

  /** The contribution of one student to a total. The work left is five for
      each seat attempt left and one for the final decrement. */
  function Of(t: Tally, s: Student): nat
  {
    match t
    case Seats => if s.phase == Seated then 1 else 0
    case Actives => if s.phase == Done then 0 else 1
    case Attempts => s.made
    case Work =>
      if s.phase == Done then 0
      else if s.made < s.quota then 5 * (s.quota - s.made) + 1
      else 1
  }

  /** Tally `f` summed over the students. */
  function SumOf(ss: seq<Student>, f: Tally): nat
  {
    if ss == [] then 0 else SumOf(ss[..|ss| - 1], f) + Of(f, ss[|ss| - 1])
  }

  /** Changing one student changes the sum by the difference. */
  lemma {:induction false} SumOfUpdate(ss: seq<Student>, i: nat, s: Student, f: Tally)
    requires i < |ss|
    ensures SumOf(ss[i := s], f) == SumOf(ss, f) - Of(f, ss[i]) + Of(f, s)
    decreases |ss|
  {
    var ss' := ss[i := s];
    var n := |ss| - 1;
    assert ss'[..n] == if i < n then ss[..n][i := s] else ss[..n];
    if i < n {
      SumOfUpdate(ss[..n], i, s, f);
    }
  }

  /** A sum is zero only when every term is. */
  lemma {:induction false} SumOfZero(ss: seq<Student>, f: Tally)
    requires SumOf(ss, f) == 0
    ensures forall i :: 0 <= i < |ss| ==> Of(f, ss[i]) == 0
    decreases |ss|
  {
    if ss != [] {
      var n := |ss| - 1;
      SumOfZero(ss[..n], f);
      assert forall i :: 0 <= i < n ==> ss[i] == ss[..n][i];
    }
  }

  /** A positive sum has a positive term. */
  lemma {:induction false} SumOfPositive(ss: seq<Student>, f: Tally) returns (i: nat)
    requires SumOf(ss, f) > 0
    ensures i < |ss| && Of(f, ss[i]) > 0
    decreases |ss|
  {
    var n := |ss| - 1;
    if Of(f, ss[n]) > 0 {
      i := n;
    } else {
      i := SumOfPositive(ss[..n], f);
      assert ss[..n][i] == ss[i];
    }
  }

  /** One more student adds one more `c`. */
  lemma MulSucc(n: nat, c: nat)
    ensures (n + 1) * c == n * c + c
  {
  }

  /** When every term is `c`, the sum is `c` times the number of students. */
  lemma {:induction false} SumOfConst(ss: seq<Student>, f: Tally, c: nat)
    requires forall i :: 0 <= i < |ss| ==> Of(f, ss[i]) == c
    ensures SumOf(ss, f) == |ss| * c
    decreases |ss|
  {
    if ss != [] {
      var n := |ss| - 1;
      var front := ss[..n];
      forall i | 0 <= i < n
        ensures Of(f, front[i]) == c
      {
        assert front[i] == ss[i];
      }
      SumOfConst(front, f, c);
      assert SumOf(ss, f) == n * c + c;
      MulSucc(n, c);
    }
  }

  /** The weight of the TA's position in its loop: the steps it still owes
      to the student it has woken. */
  function TaLeft(ta: TaPhase): nat
  {
    match ta
    case Acquired => 3
    case Released => 2
    case _ => 0
  }

  /** Whether the TA holds a student between its successful wait and its
      `ta_ready` post. */
  function Serving(ta: TaPhase): nat
  {
    if ta == Acquired || ta == Released then 1 else 0
  }

  /** The ghost book-keeping of the semaphores: how often each was posted
      and successfully waited on, and how many seat attempts found no
      chair. */
  datatype Books = Books(customersPosts: nat, customersWaits: nat,
                         taReadyPosts: nat, taReadyWaits: nat, refusals: nat)

  /** The office's invariant, on the values of the shared state. */
  ghost predicate Inv(chairs: int, requests: int, waiting: int, active: int, customers: int,
                      taReady: int, ss: seq<Student>, ta: TaPhase, b: Books)
  {
    && chairs >= 0 && requests >= 1
    && (forall i :: 0 <= i < |ss| ==>
          ss[i].quota == requests && ss[i].made <= requests &&
          (ss[i].phase == Done ==> ss[i].made == requests))
    // the chairs bound the queue
    && 0 <= waiting <= chairs
    && customers >= 0 && taReady >= 0
    // a chair is taken from the post of `customers` until the TA takes the
    // student out of it
    && waiting == customers + (if ta == Acquired then 1 else 0)
    // a seated student is counted once: in `customers`, held by the TA, or
    // in `ta_ready`
    && SumOf(ss, Seats) == customers + Serving(ta) + taReady
    && active == SumOf(ss, Actives)
    // semaphore book-keeping
    && b.customersPosts == customers + b.customersWaits
    && b.taReadyPosts == taReady + b.taReadyWaits
    // each successful wait on `customers` is answered by one post of `ta_ready`
    && b.customersWaits == b.taReadyPosts + Serving(ta)
    // each seat attempt either posts `customers` or is turned away
    && SumOf(ss, Attempts) == b.customersPosts + b.refusals
    && (chairs == 0 ==> b.customersPosts == 0)
    && (ta.Checking? ==> 0 <= ta.w <= chairs)
    && (ta == Closed ==> active == 0)
  }

  /** The work the system still owes: the students' remaining steps, four
      for each post of `customers` not yet taken, the TA's remaining steps
      for the student it holds, and one for each post of `ta_ready` not yet
      taken. The TA's polling leaves it unchanged; every other step lowers
      it. */
  function Pending(ss: seq<Student>, customers: int, taReady: int, ta: TaPhase): nat
  {
    SumOf(ss, Work) + 4 * (if customers >= 0 then customers else 0) + TaLeft(ta) +
    (if taReady >= 0 then taReady else 0)
  }

  /** How every total over the students changes when student `i` becomes
      `s`. */
  lemma UpdateSums(ss: seq<Student>, i: nat, s: Student)
    requires i < |ss|
    ensures forall f :: SumOf(ss[i := s], f) == SumOf(ss, f) - Of(f, ss[i]) + Of(f, s)
  {
    forall f {
      SumOfUpdate(ss, i, s, f);
    }
  }

  /** One seat attempt keeps the invariant: with a free chair the student
      sits down and `waiting` and `customers` grow by one; with every chair
      taken only the refusal is counted. Either way the attempt counts. */
  lemma SeatKeeps(chairs: int, requests: int, waiting: int, active: int, customers: int,
                  taReady: int, ss: seq<Student>, ta: TaPhase, b: Books, i: nat)
    requires Inv(chairs, requests, waiting, active, customers, taReady, ss, ta, b)
    requires i < |ss| && ss[i].phase == Programming && ss[i].made < ss[i].quota
    ensures var seated := waiting < chairs;
            var up := if seated then 1 else 0;
            var ss' := ss[i := Student(if seated then Seated else Programming, ss[i].made + 1, ss[i].quota)];
            var b' := b.(customersPosts := b.customersPosts + up, refusals := b.refusals + 1 - up);
            && Inv(chairs, requests, waiting + up, active, customers + up, taReady, ss', ta, b')
            && Pending(ss', customers + up, taReady, ta) < Pending(ss, customers, taReady, ta)
  {
    UpdateSums(ss, i, Student(if waiting < chairs then Seated else Programming, ss[i].made + 1, ss[i].quota));
  }

  /** A seated student whose wait on `ta_ready` succeeds goes back to
      programming; the invariant holds. */
  lemma HelpedKeeps(chairs: int, requests: int, waiting: int, active: int, customers: int,
                    taReady: int, ss: seq<Student>, ta: TaPhase, b: Books, i: nat)
    requires Inv(chairs, requests, waiting, active, customers, taReady, ss, ta, b)
    requires i < |ss| && ss[i].phase == Seated && taReady > 0
    ensures var ss' := ss[i := ss[i].(phase := Programming)];
            && Inv(chairs, requests, waiting, active, customers, taReady - 1, ss', ta,
                   b.(taReadyWaits := b.taReadyWaits + 1))
            && Pending(ss', customers, taReady - 1, ta) < Pending(ss, customers, taReady, ta)
  {
    UpdateSums(ss, i, ss[i].(phase := Programming));
  }

  /** A student that made all its attempts decrements `students_active`
      and is done; the invariant holds. */
  lemma FinishKeeps(chairs: int, requests: int, waiting: int, active: int, customers: int,
                    taReady: int, ss: seq<Student>, ta: TaPhase, b: Books, i: nat)
    requires Inv(chairs, requests, waiting, active, customers, taReady, ss, ta, b)
    requires i < |ss| && ss[i].phase == Programming && ss[i].made == ss[i].quota
    ensures var ss' := ss[i := ss[i].(phase := Done)];
            && Inv(chairs, requests, waiting, active - 1, customers, taReady, ss', ta, b)
            && Pending(ss', customers, taReady, ta) < Pending(ss, customers, taReady, ta)
  {
    UpdateSums(ss, i, ss[i].(phase := Done));
  }

  /** The TA's successful wait on `customers` keeps the invariant. */
  lemma WakeKeeps(chairs: int, requests: int, waiting: int, active: int, customers: int,
                  taReady: int, ss: seq<Student>, ta: TaPhase, b: Books)
    requires Inv(chairs, requests, waiting, active, customers, taReady, ss, ta, b)
    requires ta == Napping && customers > 0
    ensures Inv(chairs, requests, waiting, active, customers - 1, taReady, ss, Acquired,
                b.(customersWaits := b.customersWaits + 1))
    ensures Pending(ss, customers - 1, taReady, Acquired) < Pending(ss, customers, taReady, ta)
  {
  }

  /** After a successful wait the TA finds `waiting` positive, and taking
      one student out of the chairs keeps the invariant. */
  lemma ReleaseKeeps(chairs: int, requests: int, waiting: int, active: int, customers: int,
                     taReady: int, ss: seq<Student>, ta: TaPhase, b: Books)
    requires Inv(chairs, requests, waiting, active, customers, taReady, ss, ta, b)
    requires ta == Acquired
    ensures waiting > 0
    ensures Inv(chairs, requests, waiting - 1, active, customers, taReady, ss, Released, b)
    ensures Pending(ss, customers, taReady, Released) < Pending(ss, customers, taReady, ta)
  {
  }

  /** The TA's post of `ta_ready` keeps the invariant. */
  lemma SignalKeeps(chairs: int, requests: int, waiting: int, active: int, customers: int,
                    taReady: int, ss: seq<Student>, ta: TaPhase, b: Books)
    requires Inv(chairs, requests, waiting, active, customers, taReady, ss, ta, b)
    requires ta == Released
    ensures Inv(chairs, requests, waiting, active, customers, taReady + 1, ss, Napping,
                b.(taReadyPosts := b.taReadyPosts + 1))
    ensures Pending(ss, customers, taReady + 1, Napping) < Pending(ss, customers, taReady, ta)
  {
  }

  /** The TA's shutdown test keeps the invariant, whichever way it goes. */
  lemma CheckKeeps(chairs: int, requests: int, waiting: int, active: int, customers: int,
                   taReady: int, ss: seq<Student>, ta: TaPhase, b: Books)
    requires Inv(chairs, requests, waiting, active, customers, taReady, ss, ta, b)
    requires ta.Checking?
    ensures Inv(chairs, requests, waiting, active, customers, taReady, ss,
                if active == 0 && ta.w == 0 then Closed else Napping, b)
  {
  }

  /** Some step other than the TA's polling can be taken. */
  ghost predicate CanAdvance(customers: int, taReady: int, ss: seq<Student>, ta: TaPhase)
  {
    || ta == Acquired || ta == Released || (ta == Napping && customers > 0)
    || (exists i :: 0 <= i < |ss| && ss[i].phase == Programming)
    || (exists i :: 0 <= i < |ss| && ss[i].phase == Seated && taReady > 0)
  }

  /** No deadlock: while work is left and the office is open, some step
      that does it is enabled, unless the TA is between a timed-out wait
      and its shutdown test. */
  lemma Progress(chairs: int, requests: int, waiting: int, active: int, customers: int,
                 taReady: int, ss: seq<Student>, ta: TaPhase, b: Books)
    requires Inv(chairs, requests, waiting, active, customers, taReady, ss, ta, b)
    requires Pending(ss, customers, taReady, ta) > 0 && ta != Closed
    ensures ta.Checking? || CanAdvance(customers, taReady, ss, ta)
  {
    if ta == Napping && customers == 0 {
      if taReady > 0 {
        var i := SumOfPositive(ss, Seats);
        assert ss[i].phase == Seated;
      } else {
        SumOfZero(ss, Seats);
        var i := SumOfPositive(ss, Work);
        assert ss[i].phase == Programming;
      }
    }
  }

  /** Once all work is done, every student has finished and no one is
      waiting, so the TA's next timed-out wait closes the office. */
  lemma CanClose(chairs: int, requests: int, waiting: int, active: int, customers: int,
                 taReady: int, ss: seq<Student>, ta: TaPhase, b: Books)
    requires Inv(chairs, requests, waiting, active, customers, taReady, ss, ta, b)
    requires Pending(ss, customers, taReady, ta) == 0
    ensures forall i :: 0 <= i < |ss| ==> ss[i].phase == Done
    ensures active == 0 && waiting == 0 && customers == 0 && taReady == 0
    ensures ta == Napping || ta.Checking? || ta == Closed
  {
    SumOfZero(ss, Work);
    forall j | 0 <= j < |ss|
      ensures Of(Actives, ss[j]) == 0 && Of(Seats, ss[j]) == 0
    {
      assert Of(Work, ss[j]) == 0;
    }
    SumOfConst(ss, Actives, 0);
    SumOfConst(ss, Seats, 0);
  }

  /** When the office has closed, every student made exactly its
      `requests_to_make` attempts and finished, the chairs are empty, each
      post of `customers` was taken by the TA and answered by one post of
      `ta_ready`, which a student took, and the attempts add up to seats
      plus refusals. */
  lemma Closing(chairs: int, requests: int, waiting: int, active: int, customers: int,
                taReady: int, ss: seq<Student>, ta: TaPhase, b: Books)
    requires Inv(chairs, requests, waiting, active, customers, taReady, ss, ta, b)
    requires ta == Closed
    ensures forall i :: 0 <= i < |ss| ==> ss[i].phase == Done && ss[i].made == requests
    ensures waiting == 0 && customers == 0 && taReady == 0
    ensures b.customersPosts == b.customersWaits == b.taReadyPosts == b.taReadyWaits
    ensures b.customersPosts + b.refusals == |ss| * requests
    ensures Pending(ss, customers, taReady, ta) == 0
  {
    SumOfZero(ss, Actives);
    forall j | 0 <= j < |ss|
      ensures Of(Seats, ss[j]) == 0 && Of(Attempts, ss[j]) == requests && Of(Work, ss[j]) == 0
    {
      assert Of(Actives, ss[j]) == 0;
    }
    SumOfConst(ss, Seats, 0);
    SumOfConst(ss, Attempts, requests);
    SumOfConst(ss, Work, 0);
  }

  class Office {
    /** `NUM_STUDENTS`, `NUM_CHAIRS`, `REQS_PER_STUDENT` after clamping. */
    const numStudents: int
    const chairs: int
    const requests: int

    /** `waiting`: students sitting in the hallway chairs. */
    var waiting: int
    /** `students_active`: student threads still running. */
    var studentsActive: int
    /** The counts of the semaphores `customers` and `ta_ready`. */
    var customers: int
    var taReady: int
    /** The student threads, in creation order (student `i + 1`). */
    var students: seq<Student>
    /** The TA thread. */
    var ta: TaPhase
    ghost var books: Books

    ghost predicate Valid()
      reads this
    {
      && numStudents >= 1 && |students| == numStudents
      && Inv(chairs, requests, waiting, studentsActive, customers, taReady, students, ta, books)
    }

    ghost function Measure(): nat
      reads this
    {
      Pending(students, customers, taReady, ta)
    }

    /** `main`: the semaphores start at zero, every student is programming,
        `students_active` is the number of students and the TA naps. */
    constructor (numStudents: int, chairs: int, requests: int)
      requires numStudents >= 1 && chairs >= 0 && requests >= 1
      ensures Valid()
      ensures this.numStudents == numStudents && this.chairs == chairs && this.requests == requests
      ensures students == seq(numStudents, _ => Student(Programming, 0, requests))
      ensures waiting == 0 && studentsActive == numStudents && customers == 0 && taReady == 0
      ensures ta == Napping && books == Books(0, 0, 0, 0, 0)
    {
      this.numStudents := numStudents;
      this.chairs := chairs;
      this.requests := requests;
      var ss := seq(numStudents, _ => Student(Programming, 0, requests));
      students := ss;
      waiting := 0;
      studentsActive := numStudents;
      customers := 0;
      taReady := 0;
      ta := Napping;
      books := Books(0, 0, 0, 0, 0);
      SumOfConst(ss, Seats, 0);
      SumOfConst(ss, Actives, 1);
      SumOfConst(ss, Attempts, 0);
    }

    /** One seat attempt of student `i`, all under the mutex: a free chair is
        taken, `waiting` grows by one and `customers` is posted once;
        otherwise no shared state changes. Either way the attempt counts. */
    method TrySeat(i: nat) returns (seated: bool)
      requires Valid() && i < |students|
      requires students[i].phase == Programming && students[i].made < students[i].quota
      modifies this
      ensures Valid() && Measure() < old(Measure())
      ensures seated <==> old(waiting) < chairs
      ensures students == old(students)[i := Student(if seated then Seated else Programming,
                                                     old(students[i]).made + 1, old(students[i]).quota)]
      ensures var up := if seated then 1 else 0;
              && waiting == old(waiting) + up && customers == old(customers) + up
              && books == old(books).(customersPosts := old(books).customersPosts + up,
                                      refusals := old(books).refusals + 1 - up)
      ensures taReady == old(taReady) && studentsActive == old(studentsActive) && ta == old(ta)
    {
      SeatKeeps(chairs, requests, waiting, studentsActive, customers, taReady, students, ta, books, i);
      seated := waiting < chairs;
      var up := if seated then 1 else 0;
      var s := Student(if seated then Seated else Programming, students[i].made + 1, students[i].quota);
      students, waiting, customers, books :=
        students[i := s], waiting + up, customers + up,
        books.(customersPosts := books.customersPosts + up, refusals := books.refusals + 1 - up);
    }

    /** Student `i`'s `sem_wait(&ta_ready)` returns: it leaves to get help
        and goes back to programming. */
    method StudentHelped(i: nat)
      requires Valid() && i < |students|
      requires students[i].phase == Seated && taReady > 0
      modifies this
      ensures Valid() && Measure() < old(Measure())
      ensures students == old(students)[i := old(students[i]).(phase := Programming)]
      ensures taReady == old(taReady) - 1
      ensures books == old(books).(taReadyWaits := old(books).taReadyWaits + 1)
      ensures waiting == old(waiting) && customers == old(customers)
      ensures studentsActive == old(studentsActive) && ta == old(ta)
    {
      HelpedKeeps(chairs, requests, waiting, studentsActive, customers, taReady, students, ta, books, i);
      students := students[i := students[i].(phase := Programming)];
      taReady := taReady - 1;
      books := books.(taReadyWaits := books.taReadyWaits + 1);
    }

    /** Student `i` has made all its attempts: the atomic decrement of
        `students_active`, once, and the thread returns. */
    method StudentFinish(i: nat)
      requires Valid() && i < |students|
      requires students[i].phase == Programming && students[i].made == students[i].quota
      modifies this
      ensures Valid() && Measure() < old(Measure())
      ensures students == old(students)[i := old(students[i]).(phase := Done)]
      ensures studentsActive == old(studentsActive) - 1
      ensures waiting == old(waiting) && customers == old(customers) && taReady == old(taReady)
      ensures ta == old(ta) && books == old(books)
    {
      FinishKeeps(chairs, requests, waiting, studentsActive, customers, taReady, students, ta, books, i);
      students := students[i := students[i].(phase := Done)];
      studentsActive := studentsActive - 1;
    }

    /** The TA's timed wait on `customers` succeeds. */
    method TaWake()
      requires Valid() && ta == Napping && customers > 0
      modifies this
      ensures Valid() && Measure() < old(Measure())
      ensures ta == Acquired && customers == old(customers) - 1
      ensures books == old(books).(customersWaits := old(books).customersWaits + 1)
      ensures waiting == old(waiting) && taReady == old(taReady) && students == old(students)
      ensures studentsActive == old(studentsActive)
    {
      WakeKeeps(chairs, requests, waiting, studentsActive, customers, taReady, students, ta, books);
      customers := customers - 1;
      books := books.(customersWaits := books.customersWaits + 1);
      ta := Acquired;
    }

    /** The TA's critical section after a successful wait: one student
        leaves a chair, `if (waiting > 0) waiting--`. The guard always holds:
        the woken student's chair is still counted in `waiting`. */
    method TaRelease() returns (guard: bool)
      requires Valid() && ta == Acquired
      modifies this
      ensures Valid() && Measure() < old(Measure())
      ensures guard == (old(waiting) > 0) && guard
      ensures waiting == old(waiting) - 1 && ta == Released
      ensures customers == old(customers) && taReady == old(taReady) && students == old(students)
      ensures studentsActive == old(studentsActive) && books == old(books)
    {
      ReleaseKeeps(chairs, requests, waiting, studentsActive, customers, taReady, students, ta, books);
      guard := waiting > 0;
      if guard {
        waiting := waiting - 1;
      }
      ta := Released;
    }

    /** The TA posts `ta_ready` once for the student it took out of the
        chair, then helps and naps again. */
    method TaSignal()
      requires Valid() && ta == Released
      modifies this
      ensures Valid() && Measure() < old(Measure())
      ensures ta == Napping && taReady == old(taReady) + 1
      ensures books == old(books).(taReadyPosts := old(books).taReadyPosts + 1)
      ensures waiting == old(waiting) && customers == old(customers) && students == old(students)
      ensures studentsActive == old(studentsActive)
    {
      SignalKeeps(chairs, requests, waiting, studentsActive, customers, taReady, students, ta, books);
      taReady := taReady + 1;
      books := books.(taReadyPosts := books.taReadyPosts + 1);
      ta := Napping;
    }

    /** The TA's timed wait runs out: under the mutex it reads `waiting`. */
    method TaTimeout()
      requires Valid() && ta == Napping
      modifies this
      ensures Valid() && Measure() == old(Measure())
      ensures ta == Checking(old(waiting))
      ensures waiting == old(waiting) && customers == old(customers) && taReady == old(taReady)
      ensures students == old(students) && studentsActive == old(studentsActive)
      ensures books == old(books)
    {
      ta := Checking(waiting);
    }

    /** The TA's shutdown test: it closes exactly when `students_active`
        reads zero and the `waiting` it read was zero, and otherwise naps
        again. */
    method TaCheck() returns (closing: bool)
      requires Valid() && ta.Checking?
      modifies this
      ensures Valid() && Measure() == old(Measure())
      ensures closing <==> old(studentsActive) == 0 && old(ta).w == 0
      ensures ta == if closing then Closed else Napping
      ensures waiting == old(waiting) && customers == old(customers) && taReady == old(taReady)
      ensures students == old(students) && studentsActive == old(studentsActive)
      ensures books == old(books)
    {
      CheckKeeps(chairs, requests, waiting, studentsActive, customers, taReady, students, ta, books);
      closing := studentsActive == 0 && ta.w == 0;
      if closing {
        ta := Closed;
      } else {
        ta := Napping;
      }
    }
  }
}
