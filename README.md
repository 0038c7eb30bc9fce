# Shell helpers and the sleeping-TA office, in Dafny

This project models two programs from an operating-systems course repository
and proves properties of the models.

**The command shell (`Assignment2/shell.c`).**
- The command history is a circular buffer of five slots, modelled as the
  class `ShellHistory.History`. It keeps `count`, `total` and `next` fields
  and an array of optional strings, where `None` is a NULL slot. A ghost log
  of every stored command states what the buffer means: the slots hold the
  newest five commands, and `total` numbers them.
- `str_trim` and `strip_background_amp` are modelled in `ShellStrings`.
  They work in place on NUL-terminated `array<char>` buffers (`CStrings`).
  Each is proved against a value-level specification (`Trimmed`,
  `StripAmp`) whose own properties are proved as lemmas.
- `parse_args` and `join_args` are modelled in `ShellArgs`, with `strtok`
  as `StrTok` and `strncat` as `StrNCat`. The specification is `Words`,
  the space/tab-separated words of a line, and `Join`, tokens joined by
  single spaces. When every argument is a token (non-empty, no space or
  tab), parsing what `join_args` wrote gives back the tokens it took,
  capped at `MAX_ARGS - 1` (`WordsOfJoin`, `ParseOfJoin`).

**The sleeping teaching assistant (`Assignment3/A3.c`).**
- The program's threads change shared state only inside short critical
  sections: under the mutex, in a semaphore operation, or in an atomic
  decrement. `TaOffice.Office` makes each such section one method.
- The fields are `waiting`, `students_active`, the two semaphore counts,
  each student's phase and attempt count, and the TA's position in its
  loop. Ghost `Books` count the semaphore posts and waits.
- Any interleaving of the threads is a sequence of these method calls. A
  method's `requires` says which thread may move: its program counter and,
  for a wait, a positive semaphore count.
- The invariant `Inv` holds across every step. It bounds `waiting` by the
  chairs, pairs each successful `customers` wait with one `ta_ready` post,
  and counts every seat attempt as a post or a refusal.
- Every non-polling step lowers `Pending`, a measure of the work left, so
  only finitely many can occur. `Progress` shows that some step is always
  enabled. `Closing` states what holds once the office has closed.
- `TaHelpers` models the option clamping, `rand_range` (with `rand_r`'s
  value as a parameter) and the deadline arithmetic of `sem_wait_ms`.

The clock, random numbers and all output are parameters or results. Nothing
is read or printed.

One Dafny `char` stands for one byte of a C buffer, so lengths such as
`strlen` and `join_args`'s `out_cap` count characters here exactly as they
count bytes there. A C string cannot contain NUL, so the strings handed to
`History.Add` and `ParseArgs` are required to be NUL-free; the buffers of
`str_trim`, `strip_background_amp` and `join_args` hold a NUL that ends
their C string.

## Model

| member | source | states |
|---|---|---|
| CStrings.IsSpaceChars | Assignment2/shell.c:97 | `IsSpace`, the test of every whitespace loop, is `isspace` in the "C" locale: space, tab, newline, vertical tab, form feed and carriage return |
| CStrings.StrLen | Assignment2/shell.c:125 | `strlen`: the index of the first NUL; every character before it is not NUL |
| ShellHistory.SlotProps | Assignment2/shell.c:69-82 | the index `(next - 1 - k + 5) % 5` is a slot; the five most recent commands occupy five different slots; the oldest one is in slot `next` |
| ShellHistory.SlotAfterWrite | Assignment2/shell.c:54 | after a write at `next`, the new command is the most recent, and the `k`-th most recent becomes the `k + 1`-th in the same slot |
| ShellHistory.WindowAdd | Assignment2/shell.c:40-61 | adding a command puts it at the front of the five shown, dropping the oldest once five are shown |
| ShellHistory.HoldsAfterAdd | Assignment2/shell.c:45-60 | a non-empty add keeps the buffer invariant with `next + 1 mod 5`, `min(count + 1, 5)` and `total + 1`; when the buffer is full the slot overwritten holds the oldest command |
| ShellHistory.StoredAfterAdd | Assignment2/shell.c:46-54 | after a write, the new command is the most recent and each stored command ages by one slot |
| ShellHistory.UnusedAfterAdd | Assignment2/shell.c:46-58 | after a write, slots that are not in use stay NULL |
| ShellHistory.History.constructor | Assignment2/shell.c:23-25 | `history_init`: all counters zero, every slot NULL, the log empty |
| ShellHistory.History.Free | Assignment2/shell.c:27-36 | `history_free`: every slot NULL, counters zero, which is the initial state again |
| ShellHistory.History.Add | Assignment2/shell.c:40-61 | a NULL or empty command changes nothing; any other command is stored in slot `old next` and no other slot changes; `next` becomes `(next + 1) % 5`, `count` becomes `min(count + 1, 5)`, `total` grows by one; a full buffer overwrites its oldest command |
| ShellHistory.History.MostRecent | Assignment2/shell.c:64-71 | `history_most_recent` is NULL exactly when no command was stored, and otherwise the command stored last |
| ShellHistory.History.Print | Assignment2/shell.c:74-86 | `history_print` lists exactly `count` ≤ 5 entries; the `k`-th is slot `(next - 1 - k) mod 5`, numbered `total - k` and holding the `k`-th newest command; the numbers strictly decrease |
| ShellStrings.DropLeadingProps | Assignment2/shell.c:96-99 | skipping leading whitespace removes a whitespace prefix and stops at a non-whitespace character |
| ShellStrings.DropTrailingProps | Assignment2/shell.c:105-111 | cutting trailing whitespace keeps a prefix, removes only whitespace and stops at a non-whitespace character |
| ShellStrings.TrimmedProps | Assignment2/shell.c:90-114 | the trimmed string is a contiguous substring, with no leading or trailing whitespace, that leaves only whitespace on either side; it is empty exactly when the input is all whitespace |
| ShellStrings.Trim | Assignment2/shell.c:91-114 | `str_trim`: NULL gives NULL; otherwise the result is the offset of the trimmed string, the C string there is `Trimmed(input)`, and exactly the trailing whitespace is overwritten with NUL |
| ShellStrings.TrimBuffer | Assignment2/shell.c:96-113 | as `Trim`, for a non-NULL buffer |
| ShellStrings.SkipSpaces | Assignment2/shell.c:96-103 | the leading loop stops at the first non-whitespace character, which is the NUL exactly when the string is all whitespace |
| ShellStrings.WipeTrailingSpaces | Assignment2/shell.c:108-111 | the backward loop overwrites exactly the maximal whitespace run before `e` (not going below `lo`) with NUL |
| ShellStrings.TrimmedIs | Assignment2/shell.c:96-111 | where the two loops of `str_trim` stop determines the trimmed string |
| ShellStrings.DropLeadingIs | Assignment2/shell.c:97-99 | the whitespace prefix the loop skips is the one `DropLeading` removes |
| ShellStrings.DropTrailingIs | Assignment2/shell.c:108-111 | the whitespace suffix the loop wipes is the one `DropTrailing` removes |
| ShellStrings.ContentOfCut | Assignment2/shell.c:109 | a NUL written at `e` ends the C string there |
| ShellStrings.StripAmpProps | Assignment2/shell.c:116-143 | the result is a prefix of the line with no trailing whitespace; background is set exactly when the last non-whitespace character is `&`; only that one `&` and whitespace are removed |
| ShellStrings.StripAmpPropsBackground | Assignment2/shell.c:134-142 | in the background case, only the `&` and the whitespace around it are cut |
| ShellStrings.StripAmpIs | Assignment2/shell.c:129-142 | where the backward passes stop determines `StripAmp` |
| ShellStrings.StripBackgroundAmp | Assignment2/shell.c:118-143 | `strip_background_amp`: NULL leaves `is_bg` cleared; otherwise the flag and the remaining C string are `StripAmp(input)`, and exactly the removed characters are overwritten with NUL |
| ShellArgs.SkipDelims | Assignment2/shell.c:148 | the first index from `i` on that is not a space or tab; only delimiters are skipped |
| ShellArgs.TokenEnd | Assignment2/shell.c:148 | the first index from `i` on that is a space or tab; the run before it has no delimiter |
| ShellArgs.WordsAreTokens | Assignment2/shell.c:146-157 | every word of a line is non-empty and has no space or tab |
| ShellArgs.StrTok | Assignment2/shell.c:148-152 | `strtok(·, " \t")` returns NULL exactly when no word is left; otherwise it returns the next word and resumes past it |
| ShellArgs.ParseArgs | Assignment2/shell.c:145-157 | `parse_args`: `argc` is the number of words, capped at `MAX_ARGS - 1`; `argv[0..argc)` are the first words in order; `argv[argc]` is NULL; later entries are not touched |
| ShellArgs.StoreArg | Assignment2/shell.c:151 | `argv[argc++] = tok` extends the stored prefix of words by one |
| ShellArgs.NextWord | Assignment2/shell.c:150-152 | the words not yet stored start with the token `strtok` just returned |
| ShellArgs.JoinStep | Assignment2/shell.c:171-176 | joining one more token appends a space (except for the first token) and the token |
| ShellArgs.ArgsAt | Assignment2/shell.c:164 | the loop over `argv` stops at its first NULL |
| ShellArgs.JoinCountFrom | Assignment2/shell.c:164-169 | `join_args` takes tokens up to the first one that, with the NUL, would not fit in `out_cap` |
| ShellArgs.JoinCountFits | Assignment2/shell.c:159-179 | the output of `join_args` always fits in `out_cap` with its NUL; the next token would not have fitted |
| ShellArgs.StrNCat | Assignment2/shell.c:176 | `strncat`: at most `n` characters appended after the C string, then a NUL; nothing else changes |
| ShellArgs.AppendWord | Assignment2/shell.c:171-177 | one round of the loop: a space unless first, then the token; `used` is the new length |
| ShellArgs.JoinArgs | Assignment2/shell.c:159-179 | `join_args`: the buffer holds the first tokens of `argv` joined by single spaces, stopping at the first that would not fit; its length is below `out_cap`; nothing past its NUL changes |
| ShellArgs.WordsOfJoin | Assignment2/shell.c:145-179 | the words of non-empty, space- and tab-free tokens joined by single spaces are those tokens |
| ShellArgs.ParseOfJoin | Assignment2/shell.c:145-179 | when every entry of `argv` is a token, the words of `join_args`'s output are exactly the tokens it took (the prefix before the first one that did not fit), and `parse_args` returns the first `MAX_ARGS - 1` of them |
| ShellArgs.WordsOfToken | Assignment2/shell.c:148 | a single token is one word |
| ShellArgs.WordsSnoc | Assignment2/shell.c:148-152 | appending a space and a token to a line appends that token to its words |
| ShellArgs.SkipDelimsSnoc | Assignment2/shell.c:148 | the delimiters skipped are unchanged by the append |
| ShellArgs.TokenEndSnoc | Assignment2/shell.c:148 | tokens end where they did before the append |
| ShellArgs.TokenEndSnocLast | Assignment2/shell.c:152 | the appended token runs to the end of the line |
| ShellArgs.TokenEndAll | Assignment2/shell.c:152 | with no delimiter left, the token runs to the end |
| TaHelpers.ClampOptions | Assignment3/A3.c:199-201 | after clamping there is at least one student, no negative chair count and at least one request; a value already valid is unchanged; any other becomes its bound |
| TaHelpers.RandRange | Assignment3/A3.c:61-64 | `rand_range` is `lo` when `hi <= lo`, and otherwise in `[lo, hi]`; an `int` either way |
| TaHelpers.RandRangeCovers | Assignment3/A3.c:61-64 | every value of `[lo, hi]` is returned for some `rand_r` value |
| TaHelpers.Deadline | Assignment3/A3.c:72-79 | for a non-negative timeout, the deadline's nanoseconds are below one second and the time moves on by exactly the timeout |
| TaHelpers.NormalisedUnique | Assignment3/A3.c:76-79 | a time has one normalised form, so `Deadline`'s result is determined |
| TaOffice.SumOfUpdate | Assignment3/A3.c:147-178 | changing one student changes a total over the students by the difference |
| TaOffice.SumOfZero | Assignment3/A3.c:116 | a zero total has only zero terms |
| TaOffice.SumOfPositive | Assignment3/A3.c:111-121 | a positive total has a positive term |
| TaOffice.SumOfConst | Assignment3/A3.c:218 | a total of equal terms is their number times the term |
| TaOffice.UpdateSums | Assignment3/A3.c:147-178 | a step of student `i` changes each total by its own difference |
| TaOffice.SeatKeeps | Assignment3/A3.c:155-175 | a seat attempt keeps the invariant and lowers the work left: with `waiting < NUM_CHAIRS` the student sits, `waiting` and `customers` grow by one; otherwise only a refusal is counted |
| TaOffice.HelpedKeeps | Assignment3/A3.c:165-169 | a student's wait on `ta_ready` keeps the invariant and returns it to programming |
| TaOffice.FinishKeeps | Assignment3/A3.c:147-178 | after its last attempt a student decrements `students_active` once; the invariant holds |
| TaOffice.WakeKeeps | Assignment3/A3.c:111 | the TA's successful wait on `customers` keeps the invariant |
| TaOffice.ReleaseKeeps | Assignment3/A3.c:125-127 | when the TA releases a chair `waiting` is positive, so the guarded decrement always happens; the bound `0 <= waiting <= NUM_CHAIRS` holds |
| TaOffice.SignalKeeps | Assignment3/A3.c:129-130 | the TA's single `ta_ready` post keeps the pairing of `customers` waits and `ta_ready` posts |
| TaOffice.CheckKeeps | Assignment3/A3.c:116-121 | the shutdown test keeps the invariant whichever way it goes |
| TaOffice.Progress | Assignment3/A3.c:105-182 | while work is left and the office is open, some step is enabled unless the TA is between a timed-out wait and its test: no deadlock |
| TaOffice.CanClose | Assignment3/A3.c:111-121 | once no work is left, every student is done, `students_active` and `waiting` are zero and the TA is napping or testing, so the next timeout closes the office |
| TaOffice.Closing | Assignment3/A3.c:116-118 | once closed, every student made exactly `requests_to_make` attempts and finished; the chairs are empty; `customers` posts, TA waits, `ta_ready` posts and student waits are all equal; attempts add up to posts plus refusals |
| TaOffice.Office.constructor | Assignment3/A3.c:211-218 | `main`'s set-up: semaphores at zero, all students programming with no attempts, `students_active` equal to the number of students, TA napping |
| TaOffice.Office.TrySeat | Assignment3/A3.c:155-175 | the seat attempt succeeds exactly when `waiting < NUM_CHAIRS`; on success `waiting` grows by one with one `customers` post; on failure no shared state changes; the attempt counts either way |
| TaOffice.Office.StudentHelped | Assignment3/A3.c:165-169 | the student's wait on `ta_ready` takes one count and sends it back to programming |
| TaOffice.Office.StudentFinish | Assignment3/A3.c:178 | a student that made all its attempts decrements `students_active` once and is done |
| TaOffice.Office.TaWake | Assignment3/A3.c:111 | the TA's successful wait takes one `customers` count |
| TaOffice.Office.TaRelease | Assignment3/A3.c:125-127 | `if (waiting > 0) waiting--`: the guard always holds and `waiting` drops by one |
| TaOffice.Office.TaSignal | Assignment3/A3.c:129-135 | the TA posts `ta_ready` exactly once and naps again |
| TaOffice.Office.TaTimeout | Assignment3/A3.c:111-115 | a timed-out wait reads `waiting` under the mutex and changes nothing |
| TaOffice.Office.TaCheck | Assignment3/A3.c:116-121 | the TA closes exactly when `students_active` is zero and the `waiting` it read was zero; otherwise it naps again |

## Left out

- Threads, semaphores, the mutex and atomics in `Assignment3/A3.c` are replaced by atomic steps. Wake order and fairness are not modelled.
- The TA's liveness: the model does not claim that the TA eventually closes. That depends on timeouts being scheduled. `Pending` bounds the non-polling steps and `Progress` rules out deadlock.
- The help and programming sleeps (`sleep_ms`, `nanosleep`), `clock_gettime`, `rand_r`, `time(NULL)` seeding and all `printf` logging are left out. The clock reading and `rand_r`'s value are parameters.
- `sem_wait_ms`'s retry on `EINTR` is left out. The blocking branch for a negative timeout is left out, because the program always passes `TA_POLL_MS`. An unexpected `errno` is treated as a timeout: `TaTimeout` may happen in any napping state.
- `getopt`/`atoi` option parsing and the usage message are left out; only the clamping after them is modelled.
- In `Assignment2/shell.c`, `execute_command` (`fork`, `execvp`, `waitpid`) and the interactive `main` loop are left out as process and terminal I/O.
- `strdup`/`free` ownership and the `perror`/`exit` path when `strdup` fails are left out. Each slot holds an optional string.
- Lab1, Lab2 and Pritha are not part of this model. They are fork, thread and kernel-module demonstrations.
- ShellHistory.History.Print: returns the lines as `Entry` values instead of printing them.
- ShellHistory.History.Add: `total` is an unbounded integer; the overflow of `long long` after 2^63 additions, which is undefined behaviour in C, is not modelled.
- ShellArgs.ParseArgs: `argv` receives copies of the words instead of pointers into the line. The NULs `strtok` writes into the line are not modelled.
- ShellArgs.StrTok: `strtok`'s hidden static position is the explicit index `from`.
- ShellArgs.JoinArgs: requires `out_cap >= 1`, as the C code writes `out[0]` unconditionally.
- ShellStrings.Trim: returns the offset of the trimmed string in the buffer rather than a pointer.
- TaHelpers.RandRange: requires the width `hi - lo + 1` to fit in an `int`, since signed overflow is undefined in C. The program only uses constant ranges.
- TaHelpers.Deadline: seconds and nanoseconds are unbounded integers; `time_t` and `long` overflow is not modelled.
- TaOffice.Office.constructor: requires the configuration already clamped, as `main` clamps it first.
- TaOffice.Office.TaTimeout: the TA reads `waiting` under the mutex and `students_active` in a separate step (`TaCheck`). That matches the code but leaves the gap between the two reads open to other steps.
