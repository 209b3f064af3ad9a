/**
  The pending-alarm list of the single-worker alarm scheduler: a sequence of
  alarms kept non-decreasing by absolute expiry time. Each operation here is
  one locked region of the program, taken as a single atomic step on
  the sequence.
 */
module AlarmList {
  import opened Wrappers

  /** One alarm request: the delay as typed, the absolute expiry in seconds
      since the epoch, and the message to emit when it fires. */
  datatype Alarm = Alarm(seconds: int, time: int, message: string)

  /** The alarm built for a request of `seconds` typed at clock value `now`.
      A delay of zero or less gives an alarm that is already due. */
  function MakeAlarm(now: int, seconds: int, message: string): (a: Alarm)
    ensures a.time - now == seconds
    ensures a.seconds == seconds && a.message == message
    ensures seconds <= 0 <==> a.time <= now
  {
    Alarm(seconds, now + seconds, message)
  }

  /** The list invariant: expiry times never decrease from head to tail. */
  predicate Sorted(q: seq<Alarm>) {
    forall i, j :: 0 <= i < j < |q| ==> q[i].time <= q[j].time
  }

  /** The position the insertion walk stops at: the first entry whose expiry
      is at or after `t`, or the length of the list when there is none. */
  function FirstAtOrAfter(q: seq<Alarm>, t: int): (k: nat)
    ensures k <= |q|
    ensures forall i :: 0 <= i < k ==> q[i].time < t
    ensures k < |q| ==> q[k].time >= t
  {
    if |q| == 0 then 0
    else if q[0].time >= t then 0
    else 1 + FirstAtOrAfter(q[1..], t)
  }

  /** Any position with only earlier entries before it and an entry at or
      after `t` at it (or the end) is the one the walk stops at. */
  lemma FirstAtOrAfterUnique(q: seq<Alarm>, t: int, k: nat)
    requires k <= |q|
    requires forall i :: 0 <= i < k ==> q[i].time < t
    requires k < |q| ==> q[k].time >= t
    ensures FirstAtOrAfter(q, t) == k
  {
  }

  /** Inserts `a` in front of the first entry expiring at or after it, or at
      the tail when every entry expires earlier. The result is the old list
      with exactly `a` spliced in; no existing entry moves relative to another. */
  function Insert(q: seq<Alarm>, a: Alarm): (r: seq<Alarm>)
    ensures var k := FirstAtOrAfter(q, a.time); r == q[..k] + [a] + q[k..]
    ensures |r| == |q| + 1
  {
    if |q| == 0 then [a]
    else if q[0].time >= a.time then [a] + q
    else
      ConsSplice(q, FirstAtOrAfter(q[1..], a.time), a);
      [q[0]] + Insert(q[1..], a)
  }

  /** Splicing into the tail of a list and putting its head back is
      splicing into the list one position further on. */
  lemma ConsSplice<T>(q: seq<T>, k: nat, x: T)
    requires k < |q|
    ensures [q[0]] + (q[1..][..k] + [x] + q[1..][k..]) == q[..k + 1] + [x] + q[k + 1..]
  {
    assert q[..k + 1] == [q[0]] + q[1..][..k];
    assert q[k + 1..] == q[1..][k..];
  }

  /** Insertion adds exactly one alarm, the new one, and loses none. */
  lemma InsertAddsExactlyOne(q: seq<Alarm>, a: Alarm)
    ensures multiset(Insert(q, a)) == multiset(q) + multiset{a}
  {
    SpliceAddsOne(q, FirstAtOrAfter(q, a.time), a);
  }

  /** Splicing `x` in anywhere adds one occurrence of `x` to the multiset. */
  lemma SpliceAddsOne<T>(q: seq<T>, k: nat, x: T)
    requires k <= |q|
    ensures multiset(q[..k] + [x] + q[k..]) == multiset(q) + multiset{x}
  {
    assert q == q[..k] + q[k..];
  }

  /** The pointer walk of the C insertion loop, over indices: `i` plays the
      part of `next`, and the prefix before it the part of `*last`. */
  method InsertWalk(q: seq<Alarm>, a: Alarm) returns (r: seq<Alarm>)
    ensures r == Insert(q, a)
  {
    var i := 0;
    while i < |q|
      invariant i <= |q|
      invariant forall j :: 0 <= j < i ==> q[j].time < a.time
    {
      if q[i].time >= a.time {
        FirstAtOrAfterUnique(q, a.time, i);
        r := q[..i] + [a] + q[i..];
        return;
      }
      i := i + 1;
    }
    FirstAtOrAfterUnique(q, a.time, i);
    r := q + [a];
    assert q[..i] == q && q[i..] == [];
  }

  /** Insertion keeps the list invariant. */
  lemma {:induction false} InsertKeepsSorted(q: seq<Alarm>, a: Alarm)
    requires Sorted(q)
    ensures Sorted(Insert(q, a))
  {
    var k := FirstAtOrAfter(q, a.time);
    assert q == q[..k] + q[k..];
    SpliceKeepsSorted(q[..k], a, q[k..]);
  }

  /** Splicing `a` between a prefix that expires strictly earlier and a
      suffix that starts no earlier keeps a sorted list sorted. */
  lemma SpliceKeepsSorted(pre: seq<Alarm>, a: Alarm, post: seq<Alarm>)
    requires Sorted(pre + post)
    requires forall i :: 0 <= i < |pre| ==> pre[i].time < a.time
    requires |post| > 0 ==> a.time <= post[0].time
    ensures Sorted(pre + [a] + post)
  {
    var q := pre + post;
    var r := pre + [a] + post;
    var k := |pre|;
    forall i, j | 0 <= i < j < |r|
      ensures r[i].time <= r[j].time
    {
      if j < k {
        assert r[i] == q[i] && r[j] == q[j];
      } else if j == k {
        assert r[i] == pre[i];
      } else if i < k {
        assert r[i] == q[i] && r[j] == q[j - 1];
      } else if i == k {
        assert r[j] == q[j - 1] && post[0] == q[k];
      } else {
        assert r[i] == q[i - 1] && r[j] == q[j - 1];
      }
    }
  }

  /** Placement law, stated without the walk: whenever the list splits into a
      prefix of strictly earlier entries and a suffix that starts at or after
      `a`, insertion puts `a` exactly at the split. In particular the new
      alarm goes ahead of every entry with the same expiry. */
  lemma InsertAtSplit(pre: seq<Alarm>, post: seq<Alarm>, a: Alarm)
    requires forall i :: 0 <= i < |pre| ==> pre[i].time < a.time
    requires |post| > 0 ==> post[0].time >= a.time
    ensures Insert(pre + post, a) == pre + [a] + post
  {
    var q := pre + post;
    FirstAtOrAfterUnique(q, a.time, |pre|);
    assert q[..|pre|] == pre && q[|pre|..] == post;
  }

  /** When every entry expires strictly before `a` (the empty list included),
      `a` becomes the new tail. */
  lemma InsertAppendsWhenAllEarlier(q: seq<Alarm>, a: Alarm)
    requires forall i :: 0 <= i < |q| ==> q[i].time < a.time
    ensures Insert(q, a) == q + [a]
  {
    InsertAtSplit(q, [], a);
    assert q + [] == q;
  }

  /** Tie-break law: inserting `b` after `a` with the same expiry leaves `b`
      immediately ahead of `a` (last in, first out among equal times). */
  lemma TieGoesToNewcomer(q: seq<Alarm>, a: Alarm, b: Alarm)
    requires a.time == b.time
    ensures var k := FirstAtOrAfter(q, a.time);
            var r := Insert(Insert(q, a), b);
            k + 1 < |r| && r[k] == b && r[k + 1] == a
  {
    var k := FirstAtOrAfter(q, a.time);
    var q1 := Insert(q, a);
    assert q1 == q[..k] + ([a] + q[k..]);
    InsertAtSplit(q[..k], [a] + q[k..], b);
  }

  /** Ordering law: for two alarms with different expiry times, the order
      in which they are inserted does not matter. Only equal times are
      broken by arrival, as `TieGoesToNewcomer` states. */
  lemma InsertCommutes(q: seq<Alarm>, a: Alarm, b: Alarm)
    requires a.time != b.time
    ensures Insert(Insert(q, a), b) == Insert(Insert(q, b), a)
  {
    if a.time < b.time {
      InsertEarlierThenLater(q, a, b);
    } else {
      InsertEarlierThenLater(q, b, a);
    }
  }

  /** Both insertion orders of `a` before a strictly later `b` put `a` at
      its own stopping point and `b` at its own, with `a` first. */
  lemma InsertEarlierThenLater(q: seq<Alarm>, a: Alarm, b: Alarm)
    requires a.time < b.time
    ensures var ka, kb := FirstAtOrAfter(q, a.time), FirstAtOrAfter(q, b.time);
            && ka <= kb
            && Insert(Insert(q, a), b) == q[..ka] + [a] + q[ka..kb] + [b] + q[kb..]
            && Insert(Insert(q, b), a) == q[..ka] + [a] + q[ka..kb] + [b] + q[kb..]
  {
    var ka, kb := FirstAtOrAfter(q, a.time), FirstAtOrAfter(q, b.time);
    SpliceTwice(q, ka, kb, a, b);
    // a first: b's split is after the prefix up to kb, which now holds a.
    var pre1 := q[..ka] + [a] + q[ka..kb];
    forall i | 0 <= i < |pre1| ensures pre1[i].time < b.time {
      if i < ka {
        assert pre1[i] == q[i];
      } else if i > ka {
        assert pre1[i] == q[i - 1];
      }
    }
    InsertAtSplit(pre1, q[kb..], b);
    // b first: a's split is at ka, in front of the rest of q and then b.
    var post2 := q[ka..kb] + [b] + q[kb..];
    assert |post2| > 0 ==> post2[0].time >= a.time by {
      if ka < kb {
        assert post2[0] == q[ka];
      }
    }
    InsertAtSplit(q[..ka], post2, a);
  }

  /** The sequence bookkeeping for two splices at positions `i <= j`. */
  lemma SpliceTwice<T>(q: seq<T>, i: nat, j: nat, x: T, y: T)
    requires i <= j <= |q|
    ensures q[..i] + [x] + q[i..] == (q[..i] + [x] + q[i..j]) + q[j..]
    ensures q[..j] + [y] + q[j..] == q[..i] + (q[i..j] + [y] + q[j..])
    ensures (q[..i] + [x] + q[i..j]) + [y] + q[j..] == q[..i] + [x] + q[i..j] + [y] + q[j..]
    ensures q[..i] + [x] + (q[i..j] + [y] + q[j..]) == q[..i] + [x] + q[i..j] + [y] + q[j..]
  {
    assert q[i..] == q[i..j] + q[j..];
    assert q[..j] == q[..i] + q[i..j];
  }

  /** The outcome of taking the head of the list: the removed alarm, if any,
      and what is left. */
  datatype Removal = Removal(taken: Option<Alarm>, rest: seq<Alarm>)

  /** Detaches the head of the list; on an empty list nothing is taken and
      the list is left as it was. Putting the taken alarm back in front of
      the rest gives the original list. */
  function RemoveEarliest(q: seq<Alarm>): (r: Removal)
    ensures r.taken.None? <==> |q| == 0
    ensures r.taken.None? ==> r.rest == q
    ensures r.taken.Some? ==> [r.taken.value] + r.rest == q
  {
    if |q| == 0 then Removal(None, q)
    else Removal(Some(q[0]), q[1..])
  }

  /** On a sorted list the taken alarm expires no later than any alarm left,
      and what is left is still sorted. */
  lemma RemoveEarliestTakesMinimum(q: seq<Alarm>)
    requires Sorted(q)
    ensures var r := RemoveEarliest(q);
            && Sorted(r.rest)
            && (r.taken.Some? ==> forall i :: 0 <= i < |r.rest| ==> r.taken.value.time <= r.rest[i].time)
  {
    var r := RemoveEarliest(q);
    if r.taken.Some? {
      forall i | 0 <= i < |r.rest|
        ensures r.taken.value.time <= r.rest[i].time
      {
        assert r.rest[i] == q[i + 1];
      }
    }
  }

  /** Removal undoes an insertion that went to the head: an alarm expiring no
      later than every queued one comes straight back out, leaving the list
      it was inserted into. */
  lemma RemoveAfterInsertAtHead(q: seq<Alarm>, a: Alarm)
    requires forall i :: 0 <= i < |q| ==> a.time <= q[i].time
    ensures RemoveEarliest(Insert(q, a)) == Removal(Some(a), q)
  {
    InsertAtSplit([], q, a);
    assert [] + q == q;
  }
}
