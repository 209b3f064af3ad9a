/**
  One iteration of the alarm worker: take the head of the list under the
  lock, decide how long to wait, wait or yield, then emit the message of the
  alarm it took, if any. The clock reading is the parameter `now`; sleeping
  and yielding are returned as a `Wait` value instead of being performed.
 */
module Worker {
  import opened Wrappers
  import opened AlarmList

  /** Seconds the worker polls for when the list is empty. */
  const PollSeconds := 1

  /** What the worker does after releasing the lock: a timed sleep, or a
      yield that lets the input loop take the lock without adding delay. */
  datatype Wait = Sleep(seconds: int) | Yield

  /** How long a wait lasts on the worker's clock. */
  function Duration(w: Wait): int {
    match w
    case Sleep(n) => n
    case Yield => 0
  }

  /** Seconds to wait for the alarm just taken (the corrected computation:
      remaining time until expiry, never negative; the poll interval when
      nothing was taken). Waiting this long reaches the alarm's expiry and
      goes no further past it. */
  function SleepTime(taken: Option<Alarm>, now: int): (t: int)
    ensures t >= 0
    ensures taken.None? ==> t == PollSeconds
    ensures taken.Some? ==> now + t >= taken.value.time
    ensures taken.Some? && t > 0 ==> now + t == taken.value.time
    ensures taken.Some? ==> (t == 0 <==> taken.value.time <= now)
  {
    match taken
    case None => PollSeconds
    case Some(a) => if a.time <= now then 0 else a.time - now
  }

  /** The same computation with the subtraction in the order the C code
      writes it, `now - time` for an alarm that is still in the future: for
      such an alarm it is the negated remaining time, so never positive. */
  function SleepTimeAsWritten(taken: Option<Alarm>, now: int): (t: int)
    ensures taken.None? ==> t == PollSeconds
    ensures taken.Some? && taken.value.time <= now ==> t == 0
    ensures taken.Some? && taken.value.time > now ==> t < 0 && t == -SleepTime(taken, now)
  {
    match taken
    case None => PollSeconds
    case Some(a) => if a.time <= now then 0 else now - a.time
  }

  /** Sleep for a positive time, otherwise yield. */
  function WaitFor(t: int): (w: Wait)
    ensures w.Sleep? <==> t > 0
    ensures Duration(w) == if t > 0 then t else 0
  {
    if t > 0 then Sleep(t) else Yield
  }

  /** The as-written subtraction is negative for every alarm that is not yet
      due, so the worker never sleeps for it: it yields and emits the message
      before the alarm's expiry. The corrected computation waits exactly
      until the expiry instead. */
  lemma AsWrittenFiresEarly(a: Alarm, now: int)
    requires a.time > now
    ensures SleepTimeAsWritten(Some(a), now) < 0
    ensures WaitFor(SleepTimeAsWritten(Some(a), now)) == Yield
    ensures now + Duration(WaitFor(SleepTimeAsWritten(Some(a), now))) < a.time
    ensures now + Duration(WaitFor(SleepTime(Some(a), now))) == a.time
  {
  }

  /** A concrete instance: "5 hello" typed at time 0 is emitted at time 0
      as written, and at time 5 once corrected. */
  lemma AsWrittenCounterexample()
    ensures var a := MakeAlarm(0, 5, "hello");
            && Duration(WaitFor(SleepTimeAsWritten(Some(a), 0))) == 0
            && Duration(WaitFor(SleepTime(Some(a), 0))) == 5
  {
  }

  /** An alarm typed with a delay of zero or less is due as soon as it is
      queued: when it reaches the head, the worker yields instead of sleeping
      and emits it at once. */
  lemma DueAlarmFiresWithoutWaiting(q: seq<Alarm>, typedAt: int, seconds: int, message: string, now: int)
    requires seconds <= 0 && typedAt <= now
    ensures var s := WorkerStep([MakeAlarm(typedAt, seconds, message)] + q, now);
            s.wait == Yield && s.emitted == Some(message)
  {
  }

  /** Everything one worker iteration produces: the alarm taken, the
      computed sleep time, the wait performed, the message emitted and the
      list left behind. */
  datatype Step = Step(taken: Option<Alarm>, sleepTime: int, wait: Wait,
                       emitted: Option<string>, rest: seq<Alarm>)

  /** One iteration of the worker loop at clock value `now`. */
  function WorkerStep(q: seq<Alarm>, now: int): (s: Step)
    ensures s.emitted.Some? <==> |q| > 0
    ensures s.taken.Some? <==> s.emitted.Some?
    ensures |q| == 0 ==> s.taken == None && s.sleepTime == PollSeconds
    ensures s.wait == WaitFor(s.sleepTime)
    ensures |q| == 0 ==> s.rest == q && s.wait == Sleep(PollSeconds)
    ensures |q| > 0 ==> s.taken == Some(q[0]) && s.emitted == Some(q[0].message)
    ensures |q| > 0 ==> [q[0]] + s.rest == q
    ensures |q| > 0 ==> (s.wait == Yield <==> q[0].time <= now)
    ensures |q| > 0 ==> now + Duration(s.wait) >= q[0].time
    ensures |q| > 0 && s.wait.Sleep? ==> now + Duration(s.wait) == q[0].time
  {
    var r := RemoveEarliest(q);
    var t := SleepTime(r.taken, now);
    var emitted := match r.taken
      case None => None
      case Some(a) => Some(a.message);
    Step(r.taken, t, WaitFor(t), emitted, r.rest)
  }
}
