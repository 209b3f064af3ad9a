/**
  The two loops of the program interleaved as a sequence of atomic steps on
  the shared list: each `Typed` event is one pass of the input loop, each
  `Wake` one iteration of the worker. Since every access to the list happens
  under the one mutex, any run of the two threads is such a sequence.
 */
module Scheduler {
  import opened Wrappers
  import opened AlarmList
  import opened Worker
  import opened Command

  /** A line typed at clock value `now`, or the worker taking the lock at
      clock value `now`. */
  datatype Event = Typed(line: string, now: int) | Wake(now: int)

  /** The list after a run, the alarms the run queued and the alarms it
      fired, each in the order it happened. */
  datatype Trace = Trace(queue: seq<Alarm>, queued: seq<Alarm>, fired: seq<Alarm>)

  /** One atomic step. No alarm appears or disappears other than by being
      queued or fired, and a sorted list stays sorted. The input loop never
      fires: it queues exactly the alarm built from an accepted line, and
      otherwise leaves the list as it was.
      The worker never queues, and it fires only the head of the list. */
  function Apply(q: seq<Alarm>, parse: string -> Option<(int, string)>, e: Event): (t: Trace)
    ensures multiset(q) + multiset(t.queued) == multiset(t.queue) + multiset(t.fired)
    ensures Sorted(q) ==> Sorted(t.queue)
    ensures |t.queued| + |t.fired| <= 1
    ensures |t.fired| == 1 ==> q == t.fired + t.queue
    ensures e.Wake? ==> t.queued == [] && t.fired == q[..if |q| == 0 then 0 else 1]
    ensures e.Typed? ==>
              && t.fired == []
              && (t.queued == [] ==> t.queue == q)
              && (|t.queued| == 1 ==> t.queue == Insert(q, t.queued[0]))
    ensures e.Typed? ==> (t.queued != [] <==> |e.line| > 1 && parse(e.line).Some?)
    ensures e.Typed? && t.queued != [] ==>
              t.queued[0] == MakeAlarm(e.now, parse(e.line).value.0, parse(e.line).value.1)
  {
    match e
    case Typed(line, now) =>
      var s := Submit(q, line, parse, now);
      Trace(s.queue, if s.outcome.Queued? then [s.outcome.alarm] else [], [])
    case Wake(now) =>
      var w := WorkerStep(q, now);
      assert Sorted(q) ==> Sorted(w.rest) by {
        if Sorted(q) { RemoveEarliestTakesMinimum(q); }
      }
      match w.taken
      case None => Trace(w.rest, [], [])
      case Some(a) =>
        assert multiset(q) == multiset([a] + w.rest);
        Trace(w.rest, [], [a])
  }

  /** Runs the events in order from list `q`. Each event queues or fires at
      most one alarm. */
  function Run(q: seq<Alarm>, parse: string -> Option<(int, string)>, events: seq<Event>): (t: Trace)
    ensures |t.queued| + |t.fired| <= |events|
    decreases |events|
  {
    if |events| == 0 then Trace(q, [], [])
    else
      var first := Apply(q, parse, events[0]);
      var later := Run(first.queue, parse, events[1..]);
      Trace(later.queue, first.queued + later.queued, first.fired + later.fired)
  }

  /** Sortedness invariant: however the two loops interleave, the list stays
      non-decreasing by expiry. */
  lemma {:induction false} RunKeepsSorted(q: seq<Alarm>, parse: string -> Option<(int, string)>, events: seq<Event>)
    requires Sorted(q)
    ensures Sorted(Run(q, parse, events).queue)
    decreases |events|
  {
    if |events| > 0 {
      RunKeepsSorted(Apply(q, parse, events[0]).queue, parse, events[1..]);
    }
  }

  /** Conservation, and with it at-most-once delivery: every alarm fired was
      on the list or queued during the run, none fired more often than it
      was present, and everything not fired is still on the list. */
  lemma {:induction false} RunConservesAlarms(q: seq<Alarm>, parse: string -> Option<(int, string)>, events: seq<Event>)
    ensures var t := Run(q, parse, events);
            multiset(q) + multiset(t.queued) == multiset(t.queue) + multiset(t.fired)
    decreases |events|
  {
    if |events| > 0 {
      var first := Apply(q, parse, events[0]);
      var later := Run(first.queue, parse, events[1..]);
      var t := Run(q, parse, events);
      assert t == Trace(later.queue, first.queued + later.queued, first.fired + later.fired);
      RunConservesAlarms(first.queue, parse, events[1..]);
      var q0, q1, q2 := multiset(q), multiset(first.queue), multiset(later.queue);
      var a1, a2 := multiset(first.queued), multiset(later.queued);
      var f1, f2 := multiset(first.fired), multiset(later.fired);
      assert q0 + a1 == q1 + f1;
      assert q1 + a2 == q2 + f2;
      assert multiset(t.queued) == a1 + a2;
      assert multiset(t.fired) == f1 + f2;
      calc {
        q0 + (a1 + a2);
        (q0 + a1) + a2;
        (q1 + f1) + a2;
        (q1 + a2) + f1;
        (q2 + f2) + f1;
        q2 + (f1 + f2);
      }
    }
  }

  /** A run in which nothing is typed: every event is the worker waking. */
  predicate OnlyWakes(events: seq<Event>) {
    forall i :: 0 <= i < |events| ==> events[i].Wake?
  }

  /** Dropping the first event of a wake-only run leaves a wake-only run. */
  lemma OnlyWakesTail(events: seq<Event>)
    requires |events| > 0 && OnlyWakes(events)
    ensures OnlyWakes(events[1..])
  {
    forall i | 0 <= i < |events| - 1 ensures events[1..][i].Wake? {
      assert events[1..][i] == events[i + 1];
    }
  }

  // With no new input nothing is queued.
  lemma {:induction false} WakesQueueNothing(q: seq<Alarm>, parse: string -> Option<(int, string)>, events: seq<Event>)
    requires OnlyWakes(events)
    ensures Run(q, parse, events).queued == []
    decreases |events|
  {
    if |events| > 0 {
      var rest := events[1..];
      assert events[0].Wake?;
      OnlyWakesTail(events);
      var first := Apply(q, parse, events[0]);
      assert first.queued == [];
      WakesQueueNothing(first.queue, parse, rest);
      var later := Run(first.queue, parse, rest);
      assert Run(q, parse, events) == Trace(later.queue, first.queued + later.queued, first.fired + later.fired);
    }
  }

  /** With no new input, the worker fires the list front to back, one alarm
      per iteration while any is left, and the rest stays in place: what was
      fired followed by what is left is the list the run started from. */
  lemma {:induction false} WakesFireInQueueOrder(q: seq<Alarm>, parse: string -> Option<(int, string)>, events: seq<Event>)
    requires OnlyWakes(events)
    ensures var t := Run(q, parse, events);
            && t.queued == []
            && |t.fired| == (if |events| < |q| then |events| else |q|)
            && t.fired + t.queue == q
    decreases |events|
  {
    WakesQueueNothing(q, parse, events);
    if |events| > 0 {
      var rest := events[1..];
      assert events[0].Wake?;
      OnlyWakesTail(events);
      var first := Apply(q, parse, events[0]);
      WakesFireInQueueOrder(first.queue, parse, rest);
      var later := Run(first.queue, parse, rest);
      assert Run(q, parse, events) == Trace(later.queue, first.queued + later.queued, first.fired + later.fired);
      if |q| > 0 {
        assert q == first.fired + first.queue;
        ConcatAssociates(first.fired, later.fired, later.queue);
      }
    }
  }

  lemma ConcatAssociates<T>(a: seq<T>, b: seq<T>, c: seq<T>)
    ensures a + b + c == a + (b + c)
  {
  }

  /** Firing order follows expiry order: draining a sorted list fires alarms
      with non-decreasing expiry times. */
  lemma WakesFireInExpiryOrder(q: seq<Alarm>, parse: string -> Option<(int, string)>, events: seq<Event>)
    requires Sorted(q)
    requires OnlyWakes(events)
    ensures Sorted(Run(q, parse, events).fired)
  {
    WakesFireInQueueOrder(q, parse, events);
    var t := Run(q, parse, events);
    forall i, j | 0 <= i < j < |t.fired|
      ensures t.fired[i].time <= t.fired[j].time
    {
      assert t.fired[i] == q[i] && t.fired[j] == q[j];
    }
  }

  /** "5 hello" then "2 world" typed at the same instant: "world" fires
      first, then "hello", and the list ends empty. */
  lemma EarlierExpiryFiresFirst(parse: string -> Option<(int, string)>)
    requires parse("5 hello\n") == Some((5, "hello"))
    requires parse("2 world\n") == Some((2, "world"))
    ensures var t := Run([], parse, [Typed("5 hello\n", 0), Typed("2 world\n", 0), Wake(0), Wake(2)]);
            && |t.fired| == 2
            && t.fired[0].message == "world" && t.fired[1].message == "hello"
            && t.queue == []
  {
  }

  /** "3 first" then "3 second" typed at the same instant: both expire
      together, and the later submission fires first. */
  lemma EqualExpiryLaterFiresFirst(parse: string -> Option<(int, string)>)
    requires parse("3 first\n") == Some((3, "first"))
    requires parse("3 second\n") == Some((3, "second"))
    ensures var t := Run([], parse, [Typed("3 first\n", 7), Typed("3 second\n", 7), Wake(7), Wake(10)]);
            && |t.fired| == 2
            && t.fired[0].message == "second" && t.fired[1].message == "first"
  {
  }
}
