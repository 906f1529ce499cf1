/**
 * The notification center (internal/notify/center.go): a ring buffer of events that
 * refines an unbounded log, and a fan-out that skips the sender. Sequence numbers
 * are 64-bit and wrap.
 */
module Notify {
  const TWO_TO_64: nat := 0x1_0000_0000_0000_0000

  newtype Uint64 = x: int | 0 <= x < 0x1_0000_0000_0000_0000

  datatype Event = Event(seqNo: Uint64, timestamp: int, kind: string, target: string, path: string, sourcePath: string)

  function Increment(x: Uint64): Uint64 {
    ((x as int + 1) % 0x1_0000_0000_0000_0000) as Uint64
  }

  /** The number of the `i`-th event of the log. */
  function SeqNo(i: nat): Uint64 {
    ((i + 1) % 0x1_0000_0000_0000_0000) as Uint64
  }

  /** `start + i` on a ring of `n` slots. */
  function Slot(start: nat, i: nat, n: nat): (r: nat)
    requires start < n && i < n
    ensures r < n
  {
    if start + i < n then start + i else start + i - n
  }

  lemma SlotIsMod(start: nat, i: nat, n: nat)
    requires start < n && i < n
    ensures (start + i) % n == Slot(start, i, n)
  {
    if start + i < n {
      DivisionIsUnique(start + i, n, 0, start + i);
    } else {
      DivisionIsUnique(start + i, n, 1, start + i - n);
    }
  }

  lemma DivisionIsUnique(x: nat, n: nat, q: nat, r: nat)
    requires r < n && x == q * n + r
    ensures x % n == r
  {
    var q', r' := x / n, x % n;
    assert x == q' * n + r' && 0 <= r' < n;
    if q' > q {
      Multiples(q' - q, n);
    } else if q' < q {
      Multiples(q - q', n);
    }
  }

  lemma Multiples(k: nat, n: nat)
    requires k > 0
    ensures k * n >= n
  {
  }

  function RingStart(writeIx: nat, count: nat, n: nat): nat {
    if count == n then writeIx else 0
  }

  /** The slots hold the last `count` events of the log, oldest at the ring's start. */
  ghost predicate Ring(buf: seq<Event>, writeIx: nat, count: nat, log: seq<Event>) {
    && writeIx < |buf| && count <= |buf| && count <= |log|
    && (count < |buf| ==> writeIx == count == |log|)
    && (forall i :: 0 <= i < count ==> buf[Slot(RingStart(writeIx, count, |buf|), i, |buf|)] == log[|log| - count + i])
  }

  lemma RingPush(buf: seq<Event>, writeIx: nat, count: nat, log: seq<Event>, ev: Event)
    requires Ring(buf, writeIx, count, log)
    ensures Ring(buf[writeIx := ev], (writeIx + 1) % |buf|, if count < |buf| then count + 1 else count, log + [ev])
  {
    var n := |buf|;
    var b, w, c, l := buf[writeIx := ev], (writeIx + 1) % n, if count < n then count + 1 else count, log + [ev];
    assert w == (if writeIx + 1 < n then writeIx + 1 else 0) by {
      if n > 1 {
        SlotIsMod(writeIx, 1, n);
      }
    }
    forall i | 0 <= i < c ensures b[Slot(RingStart(w, c, n), i, n)] == l[|l| - c + i] {
      if count == n && i < n - 1 {
        assert Slot(w, i, n) == Slot(writeIx, i + 1, n) != writeIx;
        RingAt(buf, writeIx, count, log, i + 1);
      } else if count < n && i < count {
        RingAt(buf, writeIx, count, log, i);
      }
    }
  }

  lemma RingAt(buf: seq<Event>, writeIx: nat, count: nat, log: seq<Event>, i: nat)
    requires Ring(buf, writeIx, count, log) && i < count
    ensures buf[Slot(RingStart(writeIx, count, |buf|), i, |buf|)] == log[|log| - count + i]
  {
  }

  /** Events carry their position in the log. */
  ghost predicate InOrder(log: seq<Event>) {
    forall i :: 0 <= i < |log| ==> log[i].seqNo == SeqNo(i)
  }

  /** What one subscriber is owed of a log: everything since it joined except its own events. */
  function Owed(log: seq<Event>, senders: seq<string>, from: nat, id: string): seq<Event>
    requires |log| == |senders|
  {
    if |log| <= from then []
    else Owed(log[..|log| - 1], senders[..|log| - 1], from, id)
         + if senders[|log| - 1] != "" && id == senders[|log| - 1] then [] else [log[|log| - 1]]
  }

  lemma OwedPush(log: seq<Event>, senders: seq<string>, from: nat, id: string, ev: Event, sender: string)
    requires |log| == |senders| && from <= |log|
    ensures Owed(log + [ev], senders + [sender], from, id)
            == Owed(log, senders, from, id) + if sender != "" && id == sender then [] else [ev]
  {
    assert (log + [ev])[..|log|] == log && (senders + [sender])[..|log|] == senders;
  }

  /** What one subscriber is owed contains an event exactly when it came after joining and from someone else. */
  lemma {:induction false} OwedIsOthersEvents(log: seq<Event>, senders: seq<string>, from: nat, id: string, ev: Event)
    requires |log| == |senders|
    ensures ev in Owed(log, senders, from, id) <==>
            exists i :: from <= i < |log| && log[i] == ev && (senders[i] == "" || senders[i] != id)
    decreases |log|
  {
    if |log| > from {
      var n := |log| - 1;
      OwedPush(log[..n], senders[..n], from, id, log[n], senders[n]);
      assert log[..n] + [log[n]] == log && senders[..n] + [senders[n]] == senders;
      hide Owed;
      OwedIsOthersEvents(log[..n], senders[..n], from, id, ev);
      var before := Owed(log[..n], senders[..n], from, id);
      if ev in before {
        var i :| from <= i < n && log[..n][i] == ev && (senders[..n][i] == "" || senders[..n][i] != id);
        assert log[i] == ev && (senders[i] == "" || senders[i] != id);
      }
      if i :| from <= i < |log| && log[i] == ev && (senders[i] == "" || senders[i] != id) {
        if i < n {
          assert log[..n][i] == ev && (senders[..n][i] == "" || senders[..n][i] != id);
        }
      }
    }
  }

  datatype Subscriber = Subscriber(id: string, inbox: seq<Event>)

  class Center {
    const buf: array<Event>
    var next: Uint64
    var writeIx: nat
    var count: nat
    var subs: map<nat, Subscriber>
    var nextSubId: nat

    /** Every event ever published, its sender, and how long the log was when each subscriber joined. */
    ghost var log: seq<Event>
    ghost var senders: seq<string>
    ghost var joined: map<nat, nat>

    ghost predicate Valid()
      reads this, buf
    {
      && Ring(buf[..], writeIx, count, log)
      && next == SeqNo(|log|)
      && InOrder(log)
      && Delivered()
    }

    /** Every subscriber has been handed exactly what it is owed. */
    ghost predicate Delivered()
      reads this
    {
      && |senders| == |log| && subs.Keys == joined.Keys
      && (forall k :: k in subs ==> k <= nextSubId && joined[k] <= |log|
                                    && subs[k].inbox == Owed(log, senders, joined[k], subs[k].id))
    }

    /** The events still in the ring, oldest first. */
    ghost function Retained(): seq<Event>
      requires Valid()
      reads this, buf
    {
      log[|log| - count..]
    }

    constructor (maxEntries: int)
      ensures Valid() && fresh(buf) && log == [] && subs == map[]
      ensures buf.Length == if maxEntries <= 0 then 1000 else maxEntries
    {
      buf := new Event[if maxEntries <= 0 then 1000 else maxEntries];
      next, writeIx, count, nextSubId := 1, 0, 0, 0;
      subs, joined, log, senders := map[], map[], [], [];
    }

    /** Records the event under the next number, then hands it to every subscriber but the sender. */
    method PublishFrom(sender: string, ev: Event, now: int)
      requires Valid()
      modifies this`next, this`writeIx, this`count, this`subs, this`log, this`senders, buf
      ensures Valid()
      ensures log == old(log) + [ev.(seqNo := SeqNo(|old(log)|), timestamp := now)]
      ensures senders == old(senders) + [sender]
      ensures count == if old(count) < buf.Length then old(count) + 1 else old(count)
    {
      hide Ring, SeqNo, Increment, Owed;
      var e := ev.(seqNo := next, timestamp := now);
      RingPush(buf[..], writeIx, count, log, e);
      RingBounds(buf[..], writeIx, count, log);
      ghost var pushed := buf[..][writeIx := e];
      buf[writeIx] := e;
      assert buf[..] == pushed;
      next := Increment(next);
      NextNumber(|log|);
      writeIx := (writeIx + 1) % buf.Length;
      if count < buf.Length {
        count := count + 1;
      }
      FanOut(sender, e);
      log, senders := log + [e], senders + [sender];
    }

    /** One callback per subscriber, in any order. */
    method FanOut(sender: string, e: Event)
      requires Delivered()
      modifies this`subs
      ensures subs.Keys == old(subs.Keys)
      ensures forall k :: k in subs ==>
                subs[k].id == old(subs[k].id) && k <= nextSubId
                && subs[k].inbox == Owed(log + [e], senders + [sender], joined[k], subs[k].id)
    {
      ghost var subs0 := subs;
      forall k | k in subs
        ensures Owed(log + [e], senders + [sender], joined[k], subs[k].id)
                == subs[k].inbox + if sender != "" && subs[k].id == sender then [] else [e]
      {
        OwedPush(log, senders, joined[k], subs[k].id, e, sender);
      }
      hide Owed;
      var todo := subs.Keys;
      while todo != {}
        invariant todo <= subs.Keys == subs0.Keys
        invariant forall k :: k in todo ==> subs[k] == subs0[k]
        invariant forall k :: k in subs && k !in todo ==>
                    subs[k].id == subs0[k].id
                    && subs[k].inbox == Owed(log + [e], senders + [sender], joined[k], subs0[k].id)
      {
        var k :| k in todo;
        todo := todo - {k};
        if !(sender != "" && subs[k].id == sender) {
          subs := subs[k := subs[k].(inbox := subs[k].inbox + [e])];
        }
      }
    }

    /** The retained events, oldest first: the last `count` of the log. */
    method Ordered() returns (out: seq<Event>)
      requires Valid()
      ensures out == Retained()
    {
      hide Ring, InOrder, Delivered, Slot;
      RingBounds(buf[..], writeIx, count, log);
      out := [];
      if count == 0 {
        return;
      }
      var start := if count == buf.Length then writeIx else 0;
      for i := 0 to count
        invariant out == Retained()[..i]
      {
        SlotIsMod(start, i, buf.Length);
        RingAt(buf[..], writeIx, count, log, i);
        assert buf[..][Slot(start, i, buf.Length)] == log[|log| - count + i];
        out := out + [buf[(start + i) % buf.Length]];
      }
    }

    method Snapshot() returns (out: seq<Event>)
      requires Valid()
      ensures out == log[|log| - count..]
    {
      out := Ordered();
    }

    /**
     * Events above `sinceSeq`. While the numbers have not wrapped, these are exactly the retained ones, and `missed`
     * is right except at the largest number, where adding one wraps and any event at all is reported as missed.
     */
    method Since(sinceSeq: Uint64) returns (events: seq<Event>, missed: bool)
      requires Valid()
      ensures events == Above(Retained(), sinceSeq)
      ensures |log| < TWO_TO_64 && sinceSeq as int + 1 < TWO_TO_64 ==> (missed <==> Lost(log, count, sinceSeq as int))
      ensures |log| < TWO_TO_64 && sinceSeq as int + 1 == TWO_TO_64 ==> (missed <==> log != []) && !Lost(log, count, sinceSeq as int)
      ensures |log| < TWO_TO_64 ==> events == log[Max(|log| - count, Min(sinceSeq as int, |log|))..]
    {
      hide Ring, SeqNo, Increment, Owed, Delivered, Lost, InOrder, Above;
      RingBounds(buf[..], writeIx, count, log);
      if |log| < TWO_TO_64 {
        AboveIsSuffix(log, |log| - count, sinceSeq);
      }
      var all := Ordered();
      if |all| == 0 {
        NothingLost(sinceSeq as int);
        return [], false;
      }
      MissedIsLost(log, count, sinceSeq);
      var oldest := all[0].seqNo;
      missed := oldest > Increment(sinceSeq);
      events := [];
      NoneAbove(sinceSeq);
      for i := 0 to |all|
        invariant events == Above(all[..i], sinceSeq)
      {
        assert all[..i + 1] == all[..i] + [all[i]];
        AbovePush(all[..i], all[i], sinceSeq);
        if all[i].seqNo > sinceSeq {
          events := events + [all[i]];
        }
      }
      assert all[..|all|] == all;
    }

    /** A new subscriber receives events from now on. */
    method SubscribeAs(id: string) returns (sid: nat)
      requires Valid()
      modifies this`subs, this`nextSubId, this`joined
      ensures Valid() && sid !in old(subs)
      ensures subs == old(subs)[sid := Subscriber(id, [])] && joined == old(joined)[sid := |log|]
    {
      nextSubId := nextSubId + 1;
      sid := nextSubId;
      subs, joined := subs[sid := Subscriber(id, [])], joined[sid := |log|];
    }

    method Unsubscribe(sid: nat)
      requires Valid()
      modifies this`subs, this`joined
      ensures Valid() && subs == old(subs) - {sid} && joined == old(joined) - {sid}
    {
      subs, joined := subs - {sid}, joined - {sid};
    }
  }

  lemma RingBounds(buf: seq<Event>, writeIx: nat, count: nat, log: seq<Event>)
    requires Ring(buf, writeIx, count, log)
    ensures writeIx < |buf| && count <= |buf| && count <= |log|
    ensures count == 0 ==> log == []
  {
  }

  /** An event above `s` is no longer among the last `count`. */
  ghost predicate Lost(log: seq<Event>, count: nat, s: int)
    requires count <= |log|
  {
    exists i :: 0 <= i < |log| - count && log[i].seqNo as int > s
  }

  lemma NothingLost(s: int)
    ensures !Lost([], 0, s)
  {
  }

  /** The oldest retained number tells whether anything above `s` was lost, unless `s + 1` wraps. */
  lemma MissedIsLost(log: seq<Event>, count: nat, s: Uint64)
    requires InOrder(log) && 0 < count <= |log|
    ensures |log| < TWO_TO_64 && s as int + 1 < TWO_TO_64 ==>
              (log[|log| - count].seqNo > Increment(s) <==> Lost(log, count, s as int))
    ensures |log| < TWO_TO_64 && s as int + 1 == TWO_TO_64 ==>
              log[|log| - count].seqNo > Increment(s) && !Lost(log, count, s as int)
  {
    if |log| < TWO_TO_64 {
      forall i | 0 <= i < |log| ensures log[i].seqNo as int == i + 1 {
      }
      if log[|log| - count].seqNo as int > s as int + 1 {
        assert log[|log| - count - 1].seqNo as int == |log| - count;
      }
    }
  }

  lemma NextNumber(i: nat)
    ensures Increment(SeqNo(i)) == SeqNo(i + 1)
  {
  }

  function Max(a: int, b: int): int { if a < b then b else a }
  function Min(a: int, b: int): int { if a < b then a else b }

  function Above(es: seq<Event>, s: Uint64): seq<Event> {
    if es == [] then []
    else Above(es[..|es| - 1], s) + if es[|es| - 1].seqNo > s then [es[|es| - 1]] else []
  }

  lemma AbovePush(es: seq<Event>, e: Event, s: Uint64)
    ensures Above(es + [e], s) == Above(es, s) + if e.seqNo > s then [e] else []
  {
    assert (es + [e])[..|es|] == es;
  }

  lemma NoneAbove(s: Uint64)
    ensures Above([], s) == []
  {
  }

  /** Before wrap-around, the events above a number are a suffix of the log. */
  lemma {:induction false} AboveIsSuffix(log: seq<Event>, from: nat, s: Uint64)
    requires from <= |log| < TWO_TO_64 && InOrder(log)
    ensures Above(log[from..], s) == log[Max(from, Min(s as int, |log|))..]
    decreases |log|
  {
    if from == |log| {
      assert log[from..] == [];
    } else {
      var n := |log| - 1;
      assert InOrder(log[..n]) && log[n].seqNo as int == n + 1;
      hide Above, InOrder, SeqNo;
      AboveIsSuffix(log[..n], from, s);
      assert log[from..] == log[..n][from..] + [log[n]];
      AbovePush(log[..n][from..], log[n], s);
      SuffixPush(log, from, s as int);
    }
  }

  lemma SuffixPush(log: seq<Event>, from: nat, s: nat)
    requires from < |log|
    ensures var n := |log| - 1;
            log[Max(from, Min(s, n + 1))..] == log[..n][Max(from, Min(s, n))..] + if n + 1 > s then [log[n]] else []
  {
  }
}
