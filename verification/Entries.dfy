/** The in-flight queue as a sequence: what removing and sweeping mean. */
module Entries {
  import opened Bytes

  /** A `message_send_t`. `k` numbers the additions to the queue; the code does not store it. */
  datatype Entry = Entry(k: nat, packetId: uint16, message: seq<byte>, qos: byte, timestamp: int)

  /** The first entry with the id, or the length when there is none. */
  function IndexOf(s: seq<Entry>, id: uint16): (i: nat)
    ensures i <= |s|
    ensures i < |s| ==> s[i].packetId == id
    ensures forall j :: 0 <= j < i ==> s[j].packetId != id
  {
    if s == [] || s[0].packetId == id then 0 else 1 + IndexOf(s[1..], id)
  }

  predicate Present(s: seq<Entry>, id: uint16) {
    exists e <- s :: e.packetId == id
  }

  function Without<T>(s: seq<T>, i: nat): (r: seq<T>)
    requires i < |s|
    ensures |r| == |s| - 1
    ensures forall j :: 0 <= j < |r| ==> r[j] == if j < i then s[j] else s[j + 1]
  {
    s[..i] + s[i + 1..]
  }

  lemma WithoutKeeps<T>(s: seq<T>, i: nat)
    requires i < |s|
    ensures forall x <- Without(s, i) :: x in s
    ensures (forall a, b :: 0 <= a < b < |s| ==> s[a] != s[b]) ==>
              forall a, b :: 0 <= a < b < |s| - 1 ==> Without(s, i)[a] != Without(s, i)[b]
  {
  }

  function RemoveFirst(s: seq<Entry>, id: uint16): seq<Entry> {
    var i := IndexOf(s, id);
    if i < |s| then Without(s, i) else s
  }

  lemma PresentIff(s: seq<Entry>, id: uint16)
    ensures Present(s, id) <==> IndexOf(s, id) < |s|
  {
    var i := IndexOf(s, id);
    if i < |s| {
      assert s[i] in s;
    } else {
      forall e <- s ensures e.packetId != id {
        var j :| 0 <= j < |s| && s[j] == e;
      }
    }
  }

  lemma IndexIs(s: seq<Entry>, id: uint16, i: nat)
    requires i <= |s|
    requires forall j :: 0 <= j < i ==> s[j].packetId != id
    requires i < |s| ==> s[i].packetId == id
    ensures IndexOf(s, id) == i
  {
  }

  /** An entry behind the first occurrence does not matter. */
  lemma RemoveInFront(a: seq<Entry>, b: seq<Entry>, id: uint16)
    requires IndexOf(a, id) < |a|
    ensures IndexOf(a + b, id) == IndexOf(a, id)
    ensures RemoveFirst(a + b, id) == RemoveFirst(a, id) + b
  {
    var i := IndexOf(a, id);
    IndexIs(a + b, id, i);
    assert (a + b)[..i] + (a + b)[i + 1..] == (a[..i] + a[i + 1..]) + b;
  }

  // ---------- the expiry sweep ----------

  /** `curr->timestamp + timeout_sec < now`. */
  predicate Expired(e: Entry, timeout: int, now: int) {
    e.timestamp + timeout < now
  }

  function Live(s: seq<Entry>, timeout: int, now: int): (r: seq<Entry>)
    ensures |r| <= |s|
  {
    if s == [] then []
    else
      var front, last := s[..|s| - 1], s[|s| - 1];
      if Expired(last, timeout, now) then Live(front, timeout, now) else Live(front, timeout, now) + [last]
  }

  function Dead(s: seq<Entry>, timeout: int, now: int): (r: seq<Entry>) {
    if s == [] then []
    else
      var front, last := s[..|s| - 1], s[|s| - 1];
      if Expired(last, timeout, now) then Dead(front, timeout, now) + [last] else Dead(front, timeout, now)
  }

  /** What the walk leaves of the part of the queue that it has passed: each expired entry
      removes the first entry with its id, which need not be itself. */
  function Swept(s: seq<Entry>, timeout: int, now: int): seq<Entry> {
    if s == [] then []
    else
      var last := s[|s| - 1];
      var r := Swept(s[..|s| - 1], timeout, now) + [last];
      if Expired(last, timeout, now) then RemoveFirst(r, last.packetId) else r
  }

  /** No unexpired entry stands in front of an expired one with the same id. */
  predicate NoneOvertaken(s: seq<Entry>, timeout: int, now: int) {
    forall i, j :: 0 <= i < j < |s| && s[i].packetId == s[j].packetId && Expired(s[j], timeout, now) ==>
      Expired(s[i], timeout, now)
  }

  predicate DistinctIds(s: seq<Entry>) {
    forall i, j :: 0 <= i < j < |s| ==> s[i].packetId != s[j].packetId
  }

  lemma LiveMember(s: seq<Entry>, timeout: int, now: int, e: Entry)
    ensures e in Live(s, timeout, now) <==> e in s && !Expired(e, timeout, now)
  {
    if s == [] {
    } else {
      LiveMember(s[..|s| - 1], timeout, now, e);
      assert s == s[..|s| - 1] + [s[|s| - 1]];
    }
  }

  lemma LiveConcat(a: seq<Entry>, b: seq<Entry>, timeout: int, now: int)
    ensures Live(a + b, timeout, now) == Live(a, timeout, now) + Live(b, timeout, now)
  {
    if b == [] {
      assert a + b == a;
    } else {
      var front := b[..|b| - 1];
      LiveConcat(a, front, timeout, now);
      assert (a + b)[..|a + b| - 1] == a + front;
      assert (a + b)[|a + b| - 1] == b[|b| - 1];
    }
  }

  /** The callback gets the expired entries, and no others, in queue order. */
  lemma {:induction false} DeadInOrder(a: seq<Entry>, b: seq<Entry>, timeout: int, now: int)
    ensures Dead(a + b, timeout, now) == Dead(a, timeout, now) + Dead(b, timeout, now)
    ensures |b| == 1 ==> Dead(b, timeout, now) == if b[0].timestamp + timeout < now then b else []
  {
    if b == [] {
      assert a + b == a;
    } else {
      var front, last := b[..|b| - 1], b[|b| - 1];
      DeadInOrder(a, front, timeout, now);
      assert (a + b)[..|a + b| - 1] == a + front && b == front + [last];
      if Expired(last, timeout, now) {
        Assoc(Dead(a, timeout, now), Dead(front, timeout, now), [last]);
      }
    }
  }

  lemma LiveAllOrFewer(s: seq<Entry>, timeout: int, now: int)
    ensures |Live(s, timeout, now)| == |s| <==> forall e <- s :: !Expired(e, timeout, now)
    ensures |Live(s, timeout, now)| == |s| ==> Live(s, timeout, now) == s
  {
    if s == [] {
    } else {
      LiveAllOrFewer(s[..|s| - 1], timeout, now);
      assert s == s[..|s| - 1] + [s[|s| - 1]];
    }
  }

  /** Removing an entry takes away one live entry if it is live, and none otherwise. */
  lemma LiveAfterRemove(s: seq<Entry>, id: uint16, timeout: int, now: int)
    requires IndexOf(s, id) < |s|
    ensures |Live(RemoveFirst(s, id), timeout, now)| ==
            |Live(s, timeout, now)| - if Expired(s[IndexOf(s, id)], timeout, now) then 0 else 1
  {
    var i := IndexOf(s, id);
    assert s == s[..i] + ([s[i]] + s[i + 1..]);
    LiveConcat(s[..i], [s[i]] + s[i + 1..], timeout, now);
    LiveConcat([s[i]], s[i + 1..], timeout, now);
    LiveConcat(s[..i], s[i + 1..], timeout, now);
    assert [s[i]][..0] == [];
  }

  lemma LastPresent(r: seq<Entry>, e: Entry)
    ensures IndexOf(r + [e], e.packetId) <= |r|
  {
    assert (r + [e])[|r|] == e;
  }

  /** Every expired entry removes exactly one entry. */
  lemma {:induction false} SweptSize(s: seq<Entry>, timeout: int, now: int)
    ensures |Swept(s, timeout, now)| == |Live(s, timeout, now)|
  {
    if s == [] {
    } else {
      SweptSize(s[..|s| - 1], timeout, now);
      LastPresent(Swept(s[..|s| - 1], timeout, now), s[|s| - 1]);
    }
  }

  lemma {:induction false} SweptInOrder(s: seq<Entry>, timeout: int, now: int)
    requires NoneOvertaken(s, timeout, now)
    ensures Swept(s, timeout, now) == Live(s, timeout, now)
  {
    if s == [] {
    } else {
      var front, last := s[..|s| - 1], s[|s| - 1];
      SweptInOrder(front, timeout, now);
      if Expired(last, timeout, now) {
        var r := Live(front, timeout, now);
        forall j | 0 <= j < |r| ensures (r + [last])[j].packetId != last.packetId {
          LiveMember(front, timeout, now, r[j]);
          var i :| 0 <= i < |front| && front[i] == r[j];
          assert s[i] == r[j];
        }
        IndexIs(r + [last], last.packetId, |r|);
        assert (r + [last])[..|r|] + (r + [last])[|r| + 1..] == r;
      }
    }
  }

  lemma LiveSnoc(r: seq<Entry>, e: Entry, timeout: int, now: int)
    ensures Live(r + [e], timeout, now) == Live(r, timeout, now) + if Expired(e, timeout, now) then [] else [e]
  {
    assert (r + [e])[..|r|] == r;
  }

  lemma {:induction false} SweptLiveBound(s: seq<Entry>, timeout: int, now: int)
    ensures |Live(Swept(s, timeout, now), timeout, now)| <= |Live(s, timeout, now)|
    ensures !NoneOvertaken(s, timeout, now) ==>
              |Live(Swept(s, timeout, now), timeout, now)| < |Live(s, timeout, now)|
  {
    if s == [] {
    } else {
      var front, last := s[..|s| - 1], s[|s| - 1];
      var r := Swept(front, timeout, now);
      SweptLiveBound(front, timeout, now);
      LiveSnoc(r, last, timeout, now);
      if Expired(last, timeout, now) {
        LastPresent(r, last);
        LiveAfterRemove(r + [last], last.packetId, timeout, now);
        if NoneOvertaken(front, timeout, now) && !NoneOvertaken(s, timeout, now) {
          SweptInOrder(front, timeout, now);
          OvertakenByLast(s, timeout, now);
        }
      } else if !NoneOvertaken(s, timeout, now) {
        assert !NoneOvertaken(front, timeout, now);
      }
    }
  }

  /** When only the last entry overtakes, it removes a live entry. */
  lemma OvertakenByLast(s: seq<Entry>, timeout: int, now: int)
    requires s != [] && Expired(s[|s| - 1], timeout, now)
    requires NoneOvertaken(s[..|s| - 1], timeout, now) && !NoneOvertaken(s, timeout, now)
    ensures var last := s[|s| - 1];
            var r := Live(s[..|s| - 1], timeout, now) + [last];
            IndexOf(r, last.packetId) < |r| && !Expired(r[IndexOf(r, last.packetId)], timeout, now)
  {
    var front, last := s[..|s| - 1], s[|s| - 1];
    var i, j :| 0 <= i < j < |s| && s[i].packetId == s[j].packetId && Expired(s[j], timeout, now)
                && !Expired(s[i], timeout, now);
    assert forall x :: 0 <= x < |front| ==> front[x] == s[x];
    assert j == |s| - 1;
    LiveMember(front, timeout, now, s[i]);
    LiveInFront(Live(front, timeout, now), last, s[i], timeout, now, front);
  }

  lemma LiveInFront(r: seq<Entry>, last: Entry, e: Entry, timeout: int, now: int, front: seq<Entry>)
    requires r == Live(front, timeout, now) && e in r && e.packetId == last.packetId
    ensures var y := IndexOf(r + [last], last.packetId); y < |r| && !Expired(r[y], timeout, now)
  {
    var x :| 0 <= x < |r| && r[x] == e;
    var y := IndexOf(r + [last], last.packetId);
    assert (r + [last])[x] == e;
    assert y <= x;
    LiveMember(front, timeout, now, r[y]);
  }

  /** The sweep leaves exactly the unexpired entries, in order, if and only if no unexpired
      entry stands in front of an expired one with the same id. */
  lemma SweepExactIff(s: seq<Entry>, timeout: int, now: int)
    ensures Swept(s, timeout, now) == Live(s, timeout, now) <==> NoneOvertaken(s, timeout, now)
  {
    if NoneOvertaken(s, timeout, now) {
      SweptInOrder(s, timeout, now);
    } else {
      SweptLiveBound(s, timeout, now);
      LiveLive(s, timeout, now);
    }
  }

  lemma LiveLive(s: seq<Entry>, timeout: int, now: int)
    ensures Live(Live(s, timeout, now), timeout, now) == Live(s, timeout, now)
  {
    var r := Live(s, timeout, now);
    forall e <- r ensures !Expired(e, timeout, now) {
      LiveMember(s, timeout, now, e);
    }
    LiveAllOrFewer(r, timeout, now);
  }

  /** A second sweep at the same time changes nothing under the same condition, and only then. */
  lemma SecondSweepIff(s: seq<Entry>, timeout: int, now: int)
    ensures var r := Swept(s, timeout, now); Swept(r, timeout, now) == r <==> NoneOvertaken(s, timeout, now)
  {
    var r := Swept(s, timeout, now);
    SweptSize(s, timeout, now);
    SweptSize(r, timeout, now);
    if NoneOvertaken(s, timeout, now) {
      SweptInOrder(s, timeout, now);
      forall e <- r ensures !Expired(e, timeout, now) {
        LiveMember(s, timeout, now, e);
      }
      SweptInOrder(r, timeout, now);
      LiveLive(s, timeout, now);
    } else {
      SweptLiveBound(s, timeout, now);
    }
  }

  /** Timestamps that never decrease along the queue, as a clock that only moves forward
      would leave them. */
  predicate Ascending(s: seq<Entry>) {
    forall i, j :: 0 <= i < j < |s| ==> s[i].timestamp <= s[j].timestamp
  }

  /** Pairwise distinct ids are enough, and so are timestamps that never decrease, among them
      one common timestamp. */
  lemma NotOvertaken(s: seq<Entry>, timeout: int, now: int)
    requires DistinctIds(s) || Ascending(s)
    ensures NoneOvertaken(s, timeout, now)
  {
  }

  /** One step of the walk over `s`: in front of entry `i` the queue holds what the earlier
      steps left, and entry `i`, if expired, finds an entry with its id no later than itself. */
  lemma SweepStep(s: seq<Entry>, i: nat, timeout: int, now: int)
    requires i < |s|
    ensures var kept, e := Swept(s[..i], timeout, now), s[i];
            var queue, kept' := kept + s[i..], Swept(s[..i + 1], timeout, now);
            && queue[|kept|] == e
            && (Expired(e, timeout, now) ==>
                && IndexOf(queue, e.packetId) <= |kept| == |kept'|
                && RemoveFirst(queue, e.packetId) == kept' + s[i + 1..])
            && (!Expired(e, timeout, now) ==> |kept'| == |kept| + 1 && queue == kept' + s[i + 1..])
  {
    var kept, e := Swept(s[..i], timeout, now), s[i];
    var queue := kept + s[i..];
    assert s[..i + 1][..i] == s[..i];
    assert queue == kept + [e] + s[i + 1..];
    if Expired(e, timeout, now) {
      LastPresent(kept, e);
      RemoveInFront(kept + [e], s[i + 1..], e.packetId);
    }
  }

  /** On a queue where nothing is overtaken, each step that removes an entry removes its own. */
  lemma RemovesItself(s: seq<Entry>, i: nat, timeout: int, now: int)
    requires i < |s| && NoneOvertaken(s, timeout, now) && Expired(s[i], timeout, now)
    ensures var kept := Swept(s[..i], timeout, now);
            IndexOf(kept + s[i..], s[i].packetId) == |kept|
  {
    var front := s[..i];
    SweptInOrder(front, timeout, now);
    var kept := Live(front, timeout, now);
    var queue := kept + s[i..];
    forall j | 0 <= j < |kept| ensures queue[j].packetId != s[i].packetId {
      LiveMember(front, timeout, now, kept[j]);
      var x :| 0 <= x < |front| && front[x] == kept[j];
      assert s[x] == kept[j];
    }
    IndexIs(queue, s[i].packetId, |kept|);
  }

  lemma DeadStep(s: seq<Entry>, i: nat, timeout: int, now: int)
    requires i < |s|
    ensures Dead(s[..i + 1], timeout, now) ==
            Dead(s[..i], timeout, now) + if Expired(s[i], timeout, now) then [s[i]] else []
  {
    assert s[..i + 1][..i] == s[..i];
  }

  /** A queue on which the sweep drops the wrong entry: the recent entry goes, the stale one
      stays. It takes a clock that went back between two additions with the same id. */
  lemma OvertakenExample()
    ensures var recent, stale := Entry(0, 1, [], 0, 100), Entry(65535, 1, [], 0, 0);
            && Swept([recent, stale], 10, 50) == [stale]
            && Live([recent, stale], 10, 50) == [recent]
  {
    var recent, stale := Entry(0, 1, [], 0, 100), Entry(65535, 1, [], 0, 0);
    var s := [recent, stale];
    assert s[..1] == [recent] && [recent][..0] == [];
    assert Swept([recent], 10, 50) == [] + [recent] == [recent];
    assert [recent] + [stale] == s;
    assert RemoveFirst(s, 1) == s[..0] + s[1..];
    assert Live([recent], 10, 50) == [] + [recent];
  }
}
