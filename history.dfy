/** The shell's command history: a circular buffer of the last
    `HISTORY_SIZE` commands with a running total, so that each command keeps
    the number it was given when it was entered. */
module ShellHistory {

  import opened Wrappers
  import opened CStrings

  /** Number of commands the history keeps. */
  const HISTORY_SIZE: nat := 5

  /** The slot that holds the `k`-th most recent command when the next write
      goes to slot `next`: the index expression of `history_most_recent` and
      `history_print`. */
  function Slot(next: int, k: int): int
  {
    (next - 1 - k + HISTORY_SIZE) % HISTORY_SIZE
  }

  /** For a write position and an age in range, the slot is in range; the
      five most recent commands occupy five different slots, the oldest of
      them the one written next. */
  lemma SlotProps(next: int, k: int, k': int)
    requires 0 <= next < HISTORY_SIZE && 0 <= k < HISTORY_SIZE && 0 <= k' < HISTORY_SIZE
    ensures 0 <= Slot(next, k) < HISTORY_SIZE
    ensures Slot(next, k) == Slot(next, k') ==> k == k'
    ensures Slot(next, HISTORY_SIZE - 1) == next
  {
  }

  /** After a write at `next`, the command that was `k`-th most recent is
      `k + 1`-th, and the new one, in slot `next`, is the most recent. */
  lemma SlotAfterWrite(next: int, k: int)
    requires 0 <= next < HISTORY_SIZE && 0 <= k < HISTORY_SIZE - 1
    ensures Slot((next + 1) % HISTORY_SIZE, 0) == next
    ensures Slot((next + 1) % HISTORY_SIZE, k + 1) == Slot(next, k)
  {
  }

  /** What the history shows of a log of commands: the most recent ones,
      newest first, at most `HISTORY_SIZE` of them. */
  function Window(log: seq<string>): (w: seq<string>)
  {
    seq(Min(|log|, HISTORY_SIZE), k requires 0 <= k < Min(|log|, HISTORY_SIZE) => log[|log| - 1 - k])
  }

  /** Entering a command pushes it on the front of the window, and the oldest
      command drops off the end once the window is full. */
  lemma WindowAdd(log: seq<string>, c: string)
    ensures Window(log + [c]) == [c] + Window(log)[..Min(|log|, HISTORY_SIZE - 1)]
  {
    var l := log + [c];
    var w := Window(log);
    var w' := Window(l);
    var rhs := [c] + w[..Min(|log|, HISTORY_SIZE - 1)];
    assert |w'| == |rhs|;
    forall k | 0 <= k < |w'|
      ensures w'[k] == rhs[k]
    {
      if k > 0 {
        assert w'[k] == l[|l| - 1 - k] == log[|log| - 1 - (k - 1)];
      }
    }
  }

  /** The history's representation invariant, on the values of its fields:
      `total` counts the commands stored, `count` is how many of them the
      slots still hold, `next` follows `total` round the slots; the `k`-th
      most recent command sits in `Slot(next, k)`, unused slots are NULL,
      and no stored command is empty. */
  ghost predicate Holds(slots: seq<Option<string>>, count: int, total: int, next: int, log: seq<string>)
  {
    && |slots| == HISTORY_SIZE
    && total == |log|
    && count == Min(total, HISTORY_SIZE)
    && 0 <= next < HISTORY_SIZE && next == total % HISTORY_SIZE
    && (forall k :: 0 <= k < count ==> slots[Slot(next, k)] == Some(log[|log| - 1 - k]))
    && (forall k :: count <= k < HISTORY_SIZE ==> slots[Slot(next, k)] == None)
    && (forall k :: 0 <= k < |log| ==> log[k] != [])
  }

  /** After a write of `c` at `next`, giving `slots'` and `next'`, the new
      command is the most recent and every stored command ages by one slot. */
  lemma StoredAfterAdd(slots: seq<Option<string>>, count: int, next: int, log: seq<string>, c: string,
                       slots': seq<Option<string>>, next': int)
    requires |slots| == HISTORY_SIZE && 0 <= next < HISTORY_SIZE && 0 <= count <= |log|
    requires count <= HISTORY_SIZE
    requires forall k :: 0 <= k < count ==> slots[Slot(next, k)] == Some(log[|log| - 1 - k])
    requires slots' == slots[next := Some(c)] && next' == (next + 1) % HISTORY_SIZE
    ensures forall k :: 0 <= k < Min(count + 1, HISTORY_SIZE) ==>
              slots'[Slot(next', k)] == Some((log + [c])[|log| - k])
  {
    forall k | 0 <= k < Min(count + 1, HISTORY_SIZE)
      ensures slots'[Slot(next', k)] == Some((log + [c])[|log| - k])
    {
      if k == 0 {
        SlotAfterWrite(next, 0);
      } else {
        SlotAfterWrite(next, k - 1);
        SlotProps(next, k - 1, HISTORY_SIZE - 1);
        assert slots[Slot(next, k - 1)] == Some(log[|log| - 1 - (k - 1)]);
      }
    }
  }

  /** After a write at `next`, giving `slots'` and `next'`, the slots beyond
      the ones in use are still NULL. */
  lemma UnusedAfterAdd(slots: seq<Option<string>>, count: int, next: int, c: string,
                       slots': seq<Option<string>>, next': int)
    requires |slots| == HISTORY_SIZE && 0 <= next < HISTORY_SIZE && 0 <= count <= HISTORY_SIZE
    requires forall k :: count <= k < HISTORY_SIZE ==> slots[Slot(next, k)] == None
    requires slots' == slots[next := Some(c)] && next' == (next + 1) % HISTORY_SIZE
    ensures forall k :: Min(count + 1, HISTORY_SIZE) <= k < HISTORY_SIZE ==> slots'[Slot(next', k)] == None
  {
    forall k | Min(count + 1, HISTORY_SIZE) <= k < HISTORY_SIZE
      ensures slots'[Slot(next', k)] == None
    {
      SlotAfterWrite(next, k - 1);
      SlotProps(next, k - 1, HISTORY_SIZE - 1);
    }
  }

  /** Storing a non-empty command as `history_add` does keeps the invariant:
      the new command is the most recent, every other one ages by one, and
      when all slots were in use the oldest is the one overwritten. */
  lemma HoldsAfterAdd(slots: seq<Option<string>>, count: int, total: int, next: int, log: seq<string>, c: string)
    requires Holds(slots, count, total, next, log) && c != []
    ensures Holds(slots[next := Some(c)], Min(count + 1, HISTORY_SIZE), total + 1, (next + 1) % HISTORY_SIZE, log + [c])
    ensures count == HISTORY_SIZE ==> slots[next] == Some(log[|log| - HISTORY_SIZE])
  {
    SlotProps(next, HISTORY_SIZE - 1, HISTORY_SIZE - 1);
    var slots' := slots[next := Some(c)];
    var next' := (next + 1) % HISTORY_SIZE;
    StoredAfterAdd(slots, count, next, log, c, slots', next');
    UnusedAfterAdd(slots, count, next, c, slots', next');
  }

  /** One line of `history_print`: a command and its number. */
  datatype Entry = Entry(number: int, command: string)

  class History {
    /** The slots; `None` is a NULL pointer, a slot never written. */
    const items: array<Option<string>>
    /** The number of slots in use, at most `HISTORY_SIZE`. */
    var count: int
    /** The number of commands ever stored; it numbers the entries. */
    var total: int
    /** The slot the next command goes to. */
    var next: int
    /** Every command stored since the history was last emptied, oldest
        first. */
    ghost var log: seq<string>

    /** The slots hold the newest commands of `log`; see `Holds`. */
    ghost predicate Valid()
      reads this, items
    {
      items.Length == HISTORY_SIZE && Holds(items[..], count, total, next, log)
    }

    /** `history_init`: all fields zero, every slot NULL. */
    constructor ()
      ensures Valid() && fresh(items)
      ensures count == 0 && total == 0 && next == 0 && log == []
      ensures forall i :: 0 <= i < items.Length ==> items[i] == None
    {
      items := new Option<string>[HISTORY_SIZE](_ => None);
      count := 0;
      total := 0;
      next := 0;
      log := [];
    }

    /** `history_free`: release every slot and reset the counters, which
        leaves the history as `history_init` does. */
    method Free()
      requires items.Length == HISTORY_SIZE
      modifies this, items
      ensures Valid()
      ensures count == 0 && total == 0 && next == 0 && log == []
      ensures forall i :: 0 <= i < items.Length ==> items[i] == None
    {
      var i := 0;
      while i < HISTORY_SIZE
        invariant 0 <= i <= HISTORY_SIZE
        invariant forall j :: 0 <= j < i ==> items[j] == None
      {
        items[i] := None;
        i := i + 1;
      }
      count := 0;
      total := 0;
      next := 0;
      log := [];
      forall k | 0 <= k < HISTORY_SIZE
        ensures 0 <= Slot(next, k) < HISTORY_SIZE
      {
        SlotProps(next, k, k);
      }
    }

    /** `history_add`: a NULL or empty command is ignored. Any other command
        goes into slot `next`, evicting the oldest command once all slots are
        in use; `next` moves on by one slot, `count` grows up to
        `HISTORY_SIZE` and `total` grows by one. */
    method Add(cmd: Option<string>)
      requires Valid()
      requires cmd.Some? ==> NUL !in cmd.value
      modifies this, items
      ensures Valid()
      ensures cmd.None? || cmd.value == [] ==>
                && count == old(count) && total == old(total) && next == old(next)
                && log == old(log) && items[..] == old(items[..])
      ensures cmd.Some? && cmd.value != [] ==>
                && log == old(log) + [cmd.value]
                && next == (old(next) + 1) % HISTORY_SIZE
                && count == Min(old(count) + 1, HISTORY_SIZE)
                && total == old(total) + 1
                && items[old(next)] == cmd
                && (forall i :: 0 <= i < HISTORY_SIZE && i != old(next) ==> items[i] == old(items[i]))
                && (old(count) == HISTORY_SIZE ==>
                      old(items[next]) == Some(old(log)[|old(log)| - HISTORY_SIZE]))
    {
      if cmd.None? || cmd.value == [] {
        return;
      }
      SlotProps(next, HISTORY_SIZE - 1, HISTORY_SIZE - 1);
      HoldsAfterAdd(items[..], count, total, next, log, cmd.value);
      items[next] := cmd;
      next := (next + 1) % HISTORY_SIZE;
      if count < HISTORY_SIZE {
        count := count + 1;
      }
      total := total + 1;
      log := log + [cmd.value];
    }

    /** `history_most_recent`: NULL while the history is empty, otherwise the
        command stored last. */
    function MostRecent(): (r: Option<string>)
      requires Valid()
      reads this, items
      ensures r.None? <==> log == []
      ensures r.Some? ==> r.value == log[|log| - 1]
    {
      SlotProps(next, 0, 0);
      if count == 0 then None else items[(next - 1 + HISTORY_SIZE) % HISTORY_SIZE]
    }

    /** `history_print`: the lines printed, newest first, each the command in
        slot `Slot(next, k)` numbered `total - k`. */
    method Print() returns (lines: seq<Entry>)
      requires Valid()
      ensures |lines| == count <= HISTORY_SIZE
      ensures forall k :: 0 <= k < |lines| ==>
                lines[k] == Entry(total - k, log[|log| - 1 - k]) &&
                items[Slot(next, k)] == Some(lines[k].command)
      ensures forall k :: 0 <= k < |lines| ==> lines[k].command == Window(log)[k]
      ensures forall i, j :: 0 <= i < j < |lines| ==> lines[i].number > lines[j].number
    {
      lines := [];
      if count == 0 {
        return;
      }
      var k := 0;
      while k < count
        invariant 0 <= k <= count
        invariant |lines| == k
        invariant forall j :: 0 <= j < k ==> lines[j] == Entry(total - j, log[|log| - 1 - j])
      {
        var idx := (next - 1 - k + HISTORY_SIZE) % HISTORY_SIZE;
        assert idx == Slot(next, k);
        var number := total - k;
        lines := lines + [Entry(number, items[idx].value)];
        k := k + 1;
      }
    }
  }
}
