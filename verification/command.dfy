/**
  Acceptance of one input line by the input loop. The scanner that splits a
  line into a delay and a message is the parameter `parse`; it yields `None`
  when fewer than two fields could be read.
 */
module Command {
  import opened Wrappers
  import opened AlarmList

  /** What became of a line: skipped as blank, rejected as a bad command, or
      turned into an alarm and queued. */
  datatype Outcome = Skipped | Rejected | Queued(alarm: Alarm)

  /** The outcome of a line together with the alarm list after it. */
  datatype Submission = Submission(outcome: Outcome, queue: seq<Alarm>)

  /** Handles one line read at clock value `now`. `line` holds the bytes of
      one read, one element per byte, so its length is the C string length.
      A line of at most one byte (an empty line is just its newline) is
      skipped without being scanned; a line that does not give both a delay
      and a message is rejected; either way the list is untouched. Otherwise
      the alarm due at `now` plus the delay is inserted, and a sorted list
      stays sorted. */
  function Submit(q: seq<Alarm>, line: string, parse: string -> Option<(int, string)>, now: int)
    : (s: Submission)
    ensures |line| <= 1 ==> s == Submission(Skipped, q)
    ensures |line| > 1 && parse(line).None? ==> s == Submission(Rejected, q)
    ensures s.outcome.Queued? <==> |line| > 1 && parse(line).Some?
    ensures s.outcome.Queued? ==>
              && s.outcome.alarm.time == now + parse(line).value.0
              && s.outcome.alarm.message == parse(line).value.1
              && s.queue == Insert(q, s.outcome.alarm)
              && multiset(s.queue) == multiset(q) + multiset{s.outcome.alarm}
    ensures Sorted(q) ==> Sorted(s.queue)
  {
    if |line| <= 1 then Submission(Skipped, q)
    else
      match parse(line)
      case None => Submission(Rejected, q)
      case Some((seconds, message)) =>
        var a := MakeAlarm(now, seconds, message);
        InsertAddsExactlyOne(q, a);
        assert Sorted(q) ==> Sorted(Insert(q, a)) by {
          if Sorted(q) { InsertKeepsSorted(q, a); }
        }
        Submission(Queued(a), Insert(q, a))
  }
}
