# Single-worker alarm scheduler, modelled in Dafny

`alarm_mutex2.c` is an alarm clock with two threads. The input loop reads
lines of the form `<seconds> <message>`. It turns each line into an alarm that
expires at `now + seconds` and inserts it into a linked list that is kept
ordered by expiry time. One worker thread repeatedly takes the head of that
list. It sleeps until the alarm is due (as intended; see Findings), or yields
if it is already due, and then emits the message. When the list is empty it
polls every second. A single mutex protects the list.

This project models the logic that the mutex protects. Each locked region
becomes one atomic, pure step on an immutable `seq<Alarm>`:

- `wrappers.dfy`, module `Wrappers`: `Option`, which stands in for a
  possibly-NULL alarm pointer.
- `alarm_list.dfy`, module `AlarmList`:
  - the `Alarm` record (delay, absolute expiry, message);
  - the list invariant `Sorted`;
  - the insertion walk, once as a recursive function (`Insert`) and once as an
    index loop (`InsertWalk`);
  - head removal (`RemoveEarliest`);
  - the laws relating insertion and removal.
- `worker.dfy`, module `Worker`: one iteration of the worker loop at clock
  value `now`. It covers the sleep time, the sleep-or-yield decision and the
  emitted message.
- `command.dfy`, module `Command`: what the input loop does with one line. The
  line is skipped, rejected, or queued.
- `scheduler.dfy`, module `Scheduler`: any interleaving of the two loops, as a
  sequence of events. Its lemmas cover:
  - sortedness across a whole run;
  - conservation of alarms (nothing is lost or duplicated, and every alarm
    fires at most once);
  - firing in list order;
  - two concrete runs.

Replacements for things the model does not run:

- The clock becomes a parameter `now`.
- `sleep`/`sched_yield` become a returned `Wait` value.
- The emitted text becomes a returned `Option<string>`.
- `sscanf(line, "%d %64[^\n]", ...)` becomes a parameter
  `parse: string -> Option<(int, string)>`. It gives `None` exactly when
  fewer than two fields are read.

Divergences from the source text:

- Line 54 assigns the undeclared `sleet_time`, and line 82 calls `printf()`
  with no arguments. Neither line compiles. The model assigns the poll interval
  to the sleep time and emits the taken alarm's message, which is evidently
  what the code means.
- Line 62 subtracts in the wrong order. The comment at lines 50-51 says to wait
  the remaining number of seconds. The model uses that corrected value, and the
  as-written expression is kept for comparison (see Findings).

## Model

| member | source | states |
|---|---|---|
| AlarmList.MakeAlarm | alarm_mutex2.c:129 | The expiry is the clock value plus the typed delay, and the delay and message are kept. A delay of zero or less gives an alarm that is already due when it is queued. |
| AlarmList.FirstAtOrAfter | alarm_mutex2.c:132-144 | The walk stops at a position that is within the list. Every entry before that position expires strictly earlier than the target. The entry at the position, if any, expires at or after it. |
| AlarmList.Insert | alarm_mutex2.c:131-151 | The result is the old list with the new alarm spliced in at the walk's stopping point, and its length is one more. |
| AlarmList.InsertAddsExactlyOne | alarm_mutex2.c:136-151 | Insertion adds exactly the new alarm and loses no queued alarm (multiset equation). |
| AlarmList.InsertWalk | alarm_mutex2.c:132-151 | The index loop mirrors the `last`/`next` pointer walk, with its splice on finding a later-or-equal entry and its tail append otherwise. It produces the same list as `Insert`. |
| AlarmList.InsertKeepsSorted | alarm_mutex2.c:131-151 | Inserting into a list that is non-decreasing by expiry gives a list that is still non-decreasing. |
| AlarmList.InsertAtSplit | alarm_mutex2.c:134-141 | Suppose the list splits into strictly earlier entries followed by entries starting at or after the new expiry. Then the new alarm lands exactly at that split, so it precedes every equal-time entry. |
| AlarmList.InsertAppendsWhenAllEarlier | alarm_mutex2.c:146-151 | If every queued alarm expires strictly earlier, the empty list included, the new alarm becomes the tail. |
| AlarmList.TieGoesToNewcomer | alarm_mutex2.c:136-140 | After inserting `a` and then `b` with the same expiry, `b` sits immediately ahead of `a` (last in, first out on ties). |
| AlarmList.InsertCommutes | alarm_mutex2.c:134-151 | For two alarms with different expiry times, inserting either one first gives the same list, so arrival order matters only between equal times. |
| AlarmList.RemoveEarliest | alarm_mutex2.c:46-57 | An alarm is taken exactly when the list is non-empty. Putting the taken alarm back in front of the rest restores the list. An empty list is left unchanged. |
| AlarmList.RemoveEarliestTakesMinimum | alarm_mutex2.c:46-57 | On a sorted list the taken alarm expires no later than any remaining one, and the remainder is still sorted. |
| AlarmList.RemoveAfterInsertAtHead | alarm_mutex2.c:132-140 | An alarm inserted with an expiry no later than any queued one is the next one removed, and the removal leaves exactly the list it was inserted into. |
| Worker.SleepTime | alarm_mutex2.c:48-63 | The sleep time is never negative, and it is the 1-second poll when nothing was taken. For a taken alarm, sleeping that long reaches its expiry, a positive sleep ends exactly at the expiry, and the sleep time is 0 exactly when the alarm is already due. |
| Worker.SleepTimeAsWritten | alarm_mutex2.c:53-62 | The sleep time as the code computes it. It is the 1-second poll when nothing was taken and 0 for an alarm that is already due. For an alarm still in the future it is negative: exactly the negation of the remaining seconds. |
| Worker.AsWrittenFiresEarly | alarm_mutex2.c:59-62 | Take an alarm that is not yet due. The as-written `now - time` is negative, so the worker yields and emits before the expiry. The corrected value waits exactly until the expiry. |
| Worker.AsWrittenCounterexample | alarm_mutex2.c:62 | "5 hello" typed at time 0 is emitted after 0 seconds as written, and after 5 seconds once corrected. |
| Worker.WaitFor | alarm_mutex2.c:74-77 | The worker sleeps exactly when the sleep time is positive. Otherwise it yields, which adds no delay. |
| Worker.DueAlarmFiresWithoutWaiting | alarm_mutex2.c:58-60 | An alarm typed with a delay of zero or less makes the worker yield, not sleep, once the alarm reaches the head, and its message is emitted. |
| Worker.WorkerStep | alarm_mutex2.c:46-84 | An alarm is taken exactly when the list is non-empty, and a message is emitted exactly when an alarm was taken; it is the head's message. The rest is the old tail. An empty list takes nothing, sets the 1-second poll as the sleep time and stays unchanged. The wait performed is the sleep-or-yield choice for the computed sleep time. The worker yields exactly when the head is due, and it never emits before the head's expiry. |
| Command.Submit | alarm_mutex2.c:107-151 | A line of at most one byte (`strlen <= 1`) is skipped, and a line without both fields is rejected. In both cases the list is unchanged. Otherwise an alarm due at `now` plus the delay is inserted with its message, the multiset of alarms gains exactly it, and sortedness is kept. |
| Scheduler.Apply | alarm_mutex2.c:41-154 | One locked step of either thread. It conserves alarms (old list plus queued equals new list plus fired), keeps sortedness, and queues or fires at most one alarm. An input step fires nothing. It queues an alarm exactly when the line is longer than one byte and parses to a delay and a message, and the alarm it queues is the one built from that delay and message at the step's clock value, inserted at the insertion point. Any other line leaves the list unchanged. A worker step queues nothing and fires only the head. |
| Scheduler.Run | alarm_mutex2.c:41-156 | The two `while (1)` loops interleaved as a sequence of locked steps, run in order from a starting list. Each step queues or fires at most one alarm, so a run of n events queues and fires at most n alarms in all. |
| Scheduler.RunKeepsSorted | alarm_mutex2.c:129-151 | Under any interleaving of input lines and worker iterations, the list stays non-decreasing by expiry. |
| Scheduler.RunConservesAlarms | alarm_mutex2.c:46-84 | Over a whole run, the initial list plus the queued alarms equals the final list plus the fired alarms, as multisets. So no alarm fires more often than it was present. |
| Scheduler.WakesFireInQueueOrder | alarm_mutex2.c:41-86 | Worker iterations alone queue nothing and fire one alarm per iteration while any remain. The fired alarms followed by the remaining list form the original list. |
| Scheduler.WakesFireInExpiryOrder | alarm_mutex2.c:5-8 | Draining a sorted list fires alarms in non-decreasing expiry order. |
| Scheduler.EarlierExpiryFiresFirst | alarm_mutex2.c:129-151 | Suppose "5 hello" and then "2 world" are typed at the same instant. The run fires "world" and then "hello", and the list ends empty. |
| Scheduler.EqualExpiryLaterFiresFirst | alarm_mutex2.c:136-140 | Suppose two lines with the same delay are typed at the same instant. The second one fires first. |

## Left out

- Threads, the mutex and lock-failure aborts (lines 43-45, 70-72, 97-99,
  125-127, 153). Each locked region is one atomic step, and `Scheduler.Run`
  takes any interleaving of such steps.
- The clock, `sleep` and `sched_yield`. `now` is a parameter and the wait is a
  returned value. The model does not bound how far a real sleep overshoots.
- `fgets`, the prompt, `fprintf(stderr, ...)`, `printf`, `exit` on end of
  input, `malloc`/`free` and `errno_abort`. These are I/O and memory
  management. The outcome `Rejected` stands for the diagnostic, and `emitted`
  stands for the output.
- The exact `sscanf` grammar: whitespace, sign, digits, `%d` overflow, and the
  64-character message limit. These are abstracted as the `parse` parameter.
  `%64[^\n]` can store 64 characters plus a terminator into the 64-byte
  `message` field (lines 28, 118), a one-byte overflow that the model does not
  represent.
- Command.Submit: `line` is the bytes of one `fgets` read, not characters
  of text. With that reading `|line|` is `strlen(line)` (line 107), and a
  multi-byte character counts once per byte. A typed line longer than the
  127-byte buffer (lines 93, 104) reaches the program as several reads. The
  model treats each read as its own `Typed` event, so a later piece that starts
  with a number is queued as another alarm. Splitting typed input into `fgets`
  reads is not modelled.
- Lines 54 and 82 as written: `sleet_time = 1` assigns an undeclared
  variable, and `printf()` has no arguments, so neither compiles. The model
  takes the evident meaning: the empty-list branch sets the sleep time to the
  1-second poll, and the taken alarm's message is emitted. No model is given
  of what the code as written would do, since it does not build.
- Integer widths. `time_t` arithmetic in `now + seconds` and the `int`
  `sleep_time` are unbounded `int`s here, so overflow and truncation are not
  modelled.
- The second, fragmentary `main` and its `DEBUG` list dump (lines 159-189).
  They do not compile and add no behaviour.

## Findings

| source | as written | input that shows it | evidently intended | confidence | as-written member | corrected member |
|---|---|---|---|---|---|---|
| alarm_mutex2.c:62 | `sleep_time = now - alarm->time` when the alarm is not yet due | "5 hello" typed at time 0 and taken at time 0: `sleep_time` is -5, so the worker yields and emits "hello" at once | `sleep_time = alarm->time - now`, the remaining seconds (comment at lines 50-51) | high; not executed | Worker.SleepTimeAsWritten, Worker.AsWrittenFiresEarly | Worker.SleepTime |
