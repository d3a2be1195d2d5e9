/** Properties of every run of the client: sequences of subscriptions, timer ticks and
    inbound PUBLISH packets, starting just after a CONNECT was accepted. */
module Runs {
  import opened Bytes
  import opened Entries
  import opened Session
  import Publish
  import TF = TopicFilters

  function Start(keepAlive: uint16, timeoutSec: uint16, now: int): State {
    Connected(keepAlive, timeoutSec, now)
  }

  // ---------- where the entries come from ----------

  datatype Request = Request(topic: str16, qos: byte, time: int)

  function RequestOf(e: Event): Request
    requires e.Subscribe?
  {
    Request(e.topic, e.qos, e.time)
  }

  predicate Accepted(e: Event) {
    e.Subscribe? && e.topic != [] && e.sendOk
  }

  /** The subscriptions of a run that were sent, in order. */
  function Requests(run: seq<Event>): seq<Request> {
    if run == [] then []
    else
      var e := run[|run| - 1];
      Requests(run[..|run| - 1]) + if Accepted(e) then [RequestOf(e)] else []
  }

  /** The id of the k-th allocation: 1, 2, ..., 65535, 1, ... */
  function IdOf(k: nat): uint16 {
    1 + k % 0xFFFF
  }

  predicate Traces(e: Entry, reqs: seq<Request>) {
    && e.k < |reqs|
    && e.packetId == IdOf(e.k)
    && e.qos == reqs[e.k].qos
    && e.timestamp == 0
    && e.message == SubscribeMessage(e.packetId, reqs[e.k].topic, e.qos)
  }

  predicate Ordered(s: seq<Entry>) {
    forall i, j :: 0 <= i < j < |s| ==> s[i].k < s[j].k
  }

  predicate Traced(s: State, reqs: seq<Request>) {
    && s.issued == |reqs|
    && s.packetIdNext == IdOf(|reqs|)
    && Ordered(s.entries)
    && forall i :: 0 <= i < |s.entries| ==> Traces(s.entries[i], reqs)
  }

  lemma NextIdOf(k: nat)
    ensures NextId(IdOf(k)) == IdOf(k + 1)
  {
    if k % 0xFFFF == 0xFFFE {
      assert k + 1 == 0xFFFF * (k / 0xFFFF + 1);
      assert (k + 1) % 0xFFFF == 0;
    } else {
      assert k + 1 == 0xFFFF * (k / 0xFFFF) + (k % 0xFFFF + 1);
      assert (k + 1) % 0xFFFF == k % 0xFFFF + 1;
    }
  }

  lemma AloneGone(e: Entry)
    ensures RemoveFirst([] + [e], e.packetId) == [] && [] + [e] == [e]
  {
    assert [] + [e] == [e];
    IndexIs([e], e.packetId, 0);
    assert Without([e], 0) == [];
  }

  /** With one common timestamp a sweep empties the queue or leaves it alone. */
  lemma {:induction false} SweepAllOrNothing(s: seq<Entry>, timeout: int, now: int)
    requires forall i :: 0 <= i < |s| ==> s[i].timestamp == 0
    ensures Swept(s, timeout, now) == if timeout < now then [] else s
    ensures Dead(s, timeout, now) == if timeout < now then s else []
  {
    if s == [] {
    } else {
      var front, last := s[..|s| - 1], s[|s| - 1];
      SweepAllOrNothing(front, timeout, now);
      assert s == front + [last];
      if timeout < now {
        AloneGone(last);
      }
    }
  }

  lemma SubscribeTraced(s: State, reqs: seq<Request>, e: Event)
    requires Traced(s, reqs) && Accepted(e)
    ensures Traced(Apply(s, e), reqs + [RequestOf(e)])
  {
    NextIdOf(|reqs|);
    var all, t := reqs + [RequestOf(e)], Apply(s, e).entries;
    assert |t| == |s.entries| + 1 && t[|s.entries|].k == |reqs|;
    assert Traces(t[|s.entries|], all);
    forall i | 0 <= i < |s.entries| ensures Traces(t[i], all) {
      assert t[i] == s.entries[i] && Traces(s.entries[i], reqs);
    }
  }

  lemma RemoveTraced(s: seq<Entry>, reqs: seq<Request>, id: uint16)
    requires Ordered(s) && forall i :: 0 <= i < |s| ==> Traces(s[i], reqs)
    ensures var r := RemoveFirst(s, id); Ordered(r) && forall i :: 0 <= i < |r| ==> Traces(r[i], reqs)
  {
    var at := IndexOf(s, id);
    if at < |s| {
      var r := Without(s, at);
      forall i | 0 <= i < |r| ensures Traces(r[i], reqs) {
        assert Traces(s[if i < at then i else i + 1], reqs);
      }
    }
  }

  lemma StepTraced(s: State, reqs: seq<Request>, e: Event)
    requires Traced(s, reqs)
    ensures Traced(Apply(s, e), reqs + if Accepted(e) then [RequestOf(e)] else [])
  {
    assert reqs + [] == reqs;
    if Accepted(e) {
      SubscribeTraced(s, reqs, e);
    } else if e.Tick? {
      assert forall i :: 0 <= i < |s.entries| ==> Traces(s.entries[i], reqs);
      SweepAllOrNothing(s.entries, s.timeoutSec, e.now);
    } else if e.Inbound? && AckedId(e.frame).Some? {
      RemoveTraced(s.entries, reqs, AckedId(e.frame).value);
    }
  }

  /** Over every run: entries are ordered by allocation number, the id of the k-th allocation is
      1 + (k mod 65535), and every stored message is the frame of the k-th request. */
  lemma {:induction false} RunTraced(keepAlive: uint16, timeoutSec: uint16, now: int, run: seq<Event>)
    ensures Traced(Exec(Start(keepAlive, timeoutSec, now), run), Requests(run))
  {
    if run == [] {
    } else {
      RunTraced(keepAlive, timeoutSec, now, run[..|run| - 1]);
      StepTraced(Exec(Start(keepAlive, timeoutSec, now), run[..|run| - 1]), Requests(run[..|run| - 1]), run[|run| - 1]);
    }
  }

  /** In every reachable state each stored message parses back to its own packet id and to the
      topic and QoS that were passed to `mqtt_client_subscribe`, exactly when that QoS is at
      most 2. Otherwise it parses to the QoS modulo 4, and where that is 3 the parser is
      undefined. */
  lemma StoredMessagesParse(keepAlive: uint16, timeoutSec: uint16, now: int, run: seq<Event>, i: nat)
    requires i < |Exec(Start(keepAlive, timeoutSec, now), run).entries|
    ensures var e := Exec(Start(keepAlive, timeoutSec, now), run).entries[i];
            && e.k < |Requests(run)|
            && var r, parsed := Requests(run)[e.k], TF.ParseSubscribe(e.message);
               && (parsed == Ok(TF.Subscription(e.packetId, [TF.Filter(r.topic, r.qos)])) <==> r.qos <= 2)
               && parsed == if r.qos % 4 == 3 then Undefined
                            else Ok(TF.Subscription(e.packetId, [TF.Filter(r.topic, r.qos % 4)]))
  {
    RunTraced(keepAlive, timeoutSec, now, run);
    var e := Exec(Start(keepAlive, timeoutSec, now), run).entries[i];
    var r := Requests(run)[e.k];
    OneFilter(e.packetId, TF.Filter(r.topic, r.qos));
  }

  lemma OneFilter(packetId: uint16, f: TF.Filter)
    ensures var parsed := TF.ParseSubscribe(TF.SubscribeFrame(packetId, [f]));
            && (parsed == Ok(TF.Subscription(packetId, [f])) <==> f.qos <= 2)
            && parsed == if f.qos % 4 == 3 then Undefined
                         else Ok(TF.Subscription(packetId, [TF.Filter(f.topic, f.qos % 4)]))
  {
    TF.OneFilterMessage(packetId, f, TF.Filter(f.topic, f.qos % 4));
    assert [TF.Filter(f.topic, f.qos % 4)][0].qos == f.qos % 4;
    assert [f][0].qos == f.qos;
  }

  // ---------- packet ids ----------

  lemma CongruentFar(a: nat, b: nat)
    requires a < b && a % 0xFFFF == b % 0xFFFF
    ensures b - a >= 0xFFFF
  {
    assert a == 0xFFFF * (a / 0xFFFF) + a % 0xFFFF && b == 0xFFFF * (b / 0xFFFF) + b % 0xFFFF;
  }

  /** No id is 0, two entries share an id exactly when their allocation numbers agree modulo
      65535, and so ids are pairwise distinct while fewer than 65535 allocations lie between the
      first and the last entry. */
  predicate IdsFollow(s: seq<Entry>) {
    && (forall i :: 0 <= i < |s| ==> s[i].packetId != 0)
    && (forall i, j :: 0 <= i < j < |s| ==>
          (s[i].packetId == s[j].packetId <==> s[i].k % 0xFFFF == s[j].k % 0xFFFF))
    && (s != [] && s[|s| - 1].k - s[0].k < 0xFFFF ==> DistinctIds(s))
  }

  /** In every reachable state the ids follow the allocation numbers. */
  lemma ReachableIds(keepAlive: uint16, timeoutSec: uint16, now: int, run: seq<Event>)
    ensures IdsFollow(Exec(Start(keepAlive, timeoutSec, now), run).entries)
  {
    RunTraced(keepAlive, timeoutSec, now, run);
    TracedIds(Exec(Start(keepAlive, timeoutSec, now), run), Requests(run));
  }

  lemma TracedIds(state: State, reqs: seq<Request>)
    requires Traced(state, reqs)
    ensures IdsFollow(state.entries)
  {
    var s := state.entries;
    assert forall i :: 0 <= i < |s| ==> Traces(s[i], reqs) && s[i].packetId == IdOf(s[i].k);
    if s != [] && s[|s| - 1].k - s[0].k < 0xFFFF {
      forall i, j | 0 <= i < j < |s| ensures s[i].packetId != s[j].packetId {
        assert s[0].k <= s[i].k && s[j].k <= s[|s| - 1].k;
        if s[i].packetId == s[j].packetId {
          CongruentFar(s[i].k, s[j].k);
        }
      }
    }
  }

  lemma RemoveKeepsDistinct(s: seq<Entry>, id: uint16)
    requires DistinctIds(s)
    ensures DistinctIds(RemoveFirst(s, id))
  {
  }

  /** Ids of a part that comes from a queue stay distinct when the queue's next entry follows. */
  lemma DistinctAppend(s: seq<Entry>, r: seq<Entry>)
    requires s != [] && DistinctIds(s) && DistinctIds(r)
    requires forall e <- r :: e in s[..|s| - 1]
    ensures DistinctIds(r + [s[|s| - 1]])
  {
    var front, last := s[..|s| - 1], s[|s| - 1];
    forall i | 0 <= i < |r| ensures r[i].packetId != last.packetId {
      assert r[i] in r;
      var j :| 0 <= j < |front| && front[j] == r[i];
      assert s[j] == r[i];
    }
  }

  lemma {:induction false} SweepKeepsDistinct(s: seq<Entry>, timeout: int, now: int)
    requires DistinctIds(s)
    ensures DistinctIds(Swept(s, timeout, now))
    ensures forall e <- Swept(s, timeout, now) :: e in s
  {
    if s == [] {
    } else {
      var front, last := s[..|s| - 1], s[|s| - 1];
      SweepKeepsDistinct(front, timeout, now);
      var r := Swept(front, timeout, now);
      DistinctAppend(s, r);
      RemoveKeepsDistinct(r + [last], last.packetId);
      RemoveOnly(r + [last], last.packetId);
      assert forall e <- r + [last] :: e in r || e == last;
      assert forall e <- front :: e in s;
    }
  }

  lemma RemoveOnly(s: seq<Entry>, id: uint16)
    ensures forall e <- RemoveFirst(s, id) :: e in s
  {
  }

  /** A subscription keeps ids distinct exactly when the next id is not in the queue, which
      `message_send_find` tells before the call. */
  lemma SubscribeDistinctIff(s: State, e: Event)
    requires Accepted(e)
    ensures DistinctIds(Apply(s, e).entries) <==> DistinctIds(s.entries) && !Present(s.entries, s.packetIdNext)
  {
    var t, new' := s.entries, Apply(s, e).entries[|s.entries|];
    assert Apply(s, e).entries == t + [new'] && new'.packetId == s.packetIdNext;
    PresentIff(t, s.packetIdNext);
    var i := IndexOf(t, s.packetIdNext);
    if i < |t| {
      assert (t + [new'])[i].packetId == (t + [new'])[|t|].packetId;
    }
    if DistinctIds(t + [new']) {
      forall a, b | 0 <= a < b < |t| ensures t[a].packetId != t[b].packetId {
        assert (t + [new'])[a] == t[a] && (t + [new'])[b] == t[b];
      }
    }
  }

  lemma OtherStepsKeepDistinct(s: State, e: Event)
    requires !Accepted(e) && DistinctIds(s.entries)
    ensures DistinctIds(Apply(s, e).entries)
  {
    match e
    case Subscribe(_, _, _, _) =>
    case Tick(_, now, _, _) => SweepKeepsDistinct(s.entries, s.timeoutSec, now);
    case Inbound(frame, _) =>
      match AckedId(frame)
      case Some(id) => RemoveKeepsDistinct(s.entries, id);
      case None =>
  }

  /** Every subscription that was sent found its id free. */
  predicate FreshIds(s: State, run: seq<Event>) {
    run == [] ||
    var before := Exec(s, run[..|run| - 1]);
    && FreshIds(s, run[..|run| - 1])
    && (Accepted(run[|run| - 1]) ==> !Present(before.entries, before.packetIdNext))
  }

  ghost predicate AlwaysDistinct(s: State, run: seq<Event>) {
    forall n: nat | n <= |run| :: DistinctIds(Exec(s, run[..n]).entries)
  }

  /** Ids are pairwise distinct throughout a run exactly when every subscription that was sent
      found its id free. */
  lemma {:induction false} AlwaysDistinctIff(s: State, run: seq<Event>)
    requires DistinctIds(s.entries)
    ensures AlwaysDistinct(s, run) <==> FreshIds(s, run)
  {
    if run == [] {
      assert run[..0] == [];
    } else {
      var front, e := run[..|run| - 1], run[|run| - 1];
      AlwaysDistinctIff(s, front);
      assert run[..|run|] == run;
      assert forall n: nat | n <= |front| :: run[..n] == front[..n];
      var t := Exec(s, front);
      if Accepted(e) {
        SubscribeDistinctIff(t, e);
      } else if DistinctIds(t.entries) {
        OtherStepsKeepDistinct(t, e);
      }
      assert front[..|front|] == front;
    }
  }

  function Burst(n: nat): seq<Event> {
    if n == 0 then [] else Burst(n - 1) + [Subscribe([0x61], 0, true, 0)]
  }

  predicate Counted(s: State, n: nat) {
    && s.issued == n == |s.entries| && s.packetIdNext == IdOf(n)
    && forall i :: 0 <= i < n ==> s.entries[i].packetId == IdOf(i)
  }

  lemma CountedStep(s: State, n: nat)
    requires Counted(s, n)
    ensures Counted(DoSubscribe(s, [0x61], 0, true), n + 1)
  {
    NextIdOf(n);
  }

  lemma {:induction false} AfterBurst(n: nat)
    ensures Counted(Exec(Start(60, 5, 0), Burst(n)), n)
  {
    if n == 0 {
    } else {
      AfterBurst(n - 1);
      ExecStep(Start(60, 5, 0), Burst(n - 1), Subscribe([0x61], 0, true, 0));
      CountedStep(Exec(Start(60, 5, 0), Burst(n - 1)), n - 1);
    }
  }

  /** Ids do repeat: after 65536 subscriptions that were never answered, the first and the last
      entry share id 1. */
  lemma IdsRepeat()
    ensures var s := Exec(Start(60, 5, 0), Burst(65536)).entries;
            |s| == 65536 && s[0].packetId == 1 == s[65535].packetId && !DistinctIds(s)
  {
    AfterBurst(65536);
    var s := Exec(Start(60, 5, 0), Burst(65536));
    assert Counted(s, 65536);
    assert s.entries[0].packetId == IdOf(0) && s.entries[65535].packetId == IdOf(65535);
  }

  // ---------- the sweep in reachable states ----------

  lemma ZeroTimestamps(s: seq<Entry>, reqs: seq<Request>)
    requires forall i :: 0 <= i < |s| ==> Traces(s[i], reqs)
    ensures forall i :: 0 <= i < |s| ==> s[i].timestamp == 0 && s[i].k < |reqs|
    ensures Ascending(s)
  {
  }

  /** In every reachable state the sweep of a tick leaves exactly the entries that are unexpired
      by their stored timestamps, in order, which are all or none of them, and hands the others
      to the callback in queue order. */
  lemma ReachableSweep(keepAlive: uint16, timeoutSec: uint16, now: int, run: seq<Event>, e: Event)
    requires Sweeps(Exec(Start(keepAlive, timeoutSec, now), run), e)
    ensures var s := Exec(Start(keepAlive, timeoutSec, now), run);
            && Apply(s, e).entries == Live(s.entries, timeoutSec, e.now)
            && Apply(s, e).entries == (if timeoutSec < e.now then [] else s.entries)
            && FiredBy(s, e) == if timeoutSec < e.now then s.entries else []
  {
    var s := Exec(Start(keepAlive, timeoutSec, now), run);
    RunTraced(keepAlive, timeoutSec, now, run);
    ParametersKept(Start(keepAlive, timeoutSec, now), run);
    ZeroTimestamps(s.entries, Requests(run));
    NotOvertaken(s.entries, timeoutSec, e.now);
    SweepAllOrNothing(s.entries, timeoutSec, e.now);
    SweepExactIff(s.entries, timeoutSec, e.now);
  }

  /** And a second tick at the same time changes nothing. */
  lemma ReachableSecondTick(keepAlive: uint16, timeoutSec: uint16, now: int, run: seq<Event>, e: Event)
    requires Sweeps(Exec(Start(keepAlive, timeoutSec, now), run), e) && e.now <= e.stamp
    ensures var s := Apply(Exec(Start(keepAlive, timeoutSec, now), run), e); Apply(s, e) == s
  {
    var s := Exec(Start(keepAlive, timeoutSec, now), run);
    RunTraced(keepAlive, timeoutSec, now, run);
    ParametersKept(Start(keepAlive, timeoutSec, now), run);
    ZeroTimestamps(s.entries, Requests(run));
    NotOvertaken(s.entries, timeoutSec, e.now);
    SecondSweepIff(s.entries, timeoutSec, e.now);
  }

  // ---------- the timeouts that were meant ----------

  /** The queue with the times at which its entries were really added. */
  function Stamped(s: seq<Entry>, reqs: seq<Request>): (r: seq<Entry>)
    requires forall i :: 0 <= i < |s| ==> s[i].k < |reqs|
    ensures |r| == |s|
    ensures forall i :: 0 <= i < |s| ==> r[i] == s[i].(timestamp := reqs[s[i].k].time)
  {
    seq(|s|, i requires 0 <= i < |s| => s[i].(timestamp := reqs[s[i].k].time))
  }

  /** An entry that is still within its timeout survives a tick exactly when the clock itself
      is. */
  lemma YoungEntrySurvivesIff(keepAlive: uint16, timeoutSec: uint16, now: int, run: seq<Event>, e: Event, i: nat)
    requires Sweeps(Exec(Start(keepAlive, timeoutSec, now), run), e)
    requires i < |Exec(Start(keepAlive, timeoutSec, now), run).entries|
    ensures var s := Exec(Start(keepAlive, timeoutSec, now), run).entries;
            && s[i].k < |Requests(run)|
            && (e.now <= Requests(run)[s[i].k].time + timeoutSec ==>
                 (s[i] in Apply(Exec(Start(keepAlive, timeoutSec, now), run), e).entries <==> e.now <= timeoutSec))
  {
    RunTraced(keepAlive, timeoutSec, now, run);
    ReachableSweep(keepAlive, timeoutSec, now, run, e);
    ZeroTimestamps(Exec(Start(keepAlive, timeoutSec, now), run).entries, Requests(run));
  }

  lemma LiveNoneIff(s: seq<Entry>, timeout: int, now: int)
    ensures Live(s, timeout, now) == [] <==> forall i :: 0 <= i < |s| ==> Expired(s[i], timeout, now)
  {
    var r := Live(s, timeout, now);
    forall i | 0 <= i < |s| ensures s[i] in r <==> !Expired(s[i], timeout, now) {
      LiveMember(s, timeout, now, s[i]);
    }
    if r != [] {
      LiveMember(s, timeout, now, r[0]);
      var i :| 0 <= i < |s| && s[i] == r[0];
    }
  }

  lemma LiveAllIff(s: seq<Entry>, timeout: int, now: int)
    ensures |Live(s, timeout, now)| == |s| <==> forall i :: 0 <= i < |s| ==> !Expired(s[i], timeout, now)
    ensures |Live(s, timeout, now)| == |s| ==> Live(s, timeout, now) == s
  {
    LiveAllOrFewer(s, timeout, now);
    if forall i :: 0 <= i < |s| ==> !Expired(s[i], timeout, now) {
      forall e <- s ensures !Expired(e, timeout, now) {
        var i :| 0 <= i < |s| && s[i] == e;
      }
    }
  }

  lemma MeantSweepIff(s: seq<Entry>, reqs: seq<Request>, timeout: int, now: int)
    requires forall i :: 0 <= i < |s| ==> s[i].k < |reqs|
    ensures var kept := if timeout < now then [] else s;
            Ks(kept) == Ks(Live(Stamped(s, reqs), timeout, now)) <==>
            forall i :: 0 <= i < |s| ==> (now <= timeout <==> now <= reqs[s[i].k].time + timeout)
  {
    var t := Stamped(s, reqs);
    assert forall i :: 0 <= i < |s| ==> (Expired(t[i], timeout, now) <==> reqs[s[i].k].time + timeout < now);
    assert Ks(t) == Ks(s) && |Ks(Live(t, timeout, now))| == |Live(t, timeout, now)|;
    if timeout < now {
      LiveNoneIff(t, timeout, now);
    } else {
      LiveAllIff(t, timeout, now);
    }
  }

  /** A tick keeps exactly the entries that are still within their timeout if and only if each
      entry is within its timeout just when the clock is not past `timeout_sec`: the stored
      timestamps are 0, so that the age of an entry is the time of day. */
  lemma TimeoutAsMeantIff(keepAlive: uint16, timeoutSec: uint16, now: int, run: seq<Event>, e: Event)
    requires Sweeps(Exec(Start(keepAlive, timeoutSec, now), run), e)
    ensures var s := Exec(Start(keepAlive, timeoutSec, now), run);
            && (forall i :: 0 <= i < |s.entries| ==> s.entries[i].k < |Requests(run)|)
            && (Ks(Apply(s, e).entries) == Ks(Live(Stamped(s.entries, Requests(run)), timeoutSec, e.now)) <==>
                forall i :: 0 <= i < |s.entries| ==>
                  (e.now <= timeoutSec <==> e.now <= Requests(run)[s.entries[i].k].time + timeoutSec))
  {
    var s := Exec(Start(keepAlive, timeoutSec, now), run);
    RunTraced(keepAlive, timeoutSec, now, run);
    ReachableSweep(keepAlive, timeoutSec, now, run, e);
    ZeroTimestamps(s.entries, Requests(run));
    MeantSweepIff(s.entries, Requests(run), timeoutSec, e.now);
  }

  predicate ForwardClock(reqs: seq<Request>) {
    forall a, b :: 0 <= a < b < |reqs| ==> reqs[a].time <= reqs[b].time
  }

  /** With the times of the additions in place of the zeros, and a clock that never goes back,
      the walk would drop exactly the entries whose timeout has passed. */
  lemma StampedSweepExact(keepAlive: uint16, timeoutSec: uint16, now: int, run: seq<Event>, at: int)
    requires ForwardClock(Requests(run))
    ensures var s := Exec(Start(keepAlive, timeoutSec, now), run);
            && (forall i :: 0 <= i < |s.entries| ==> s.entries[i].k < |Requests(run)|)
            && var t := Stamped(s.entries, Requests(run)); Swept(t, timeoutSec, at) == Live(t, timeoutSec, at)
  {
    var s, reqs := Exec(Start(keepAlive, timeoutSec, now), run), Requests(run);
    RunTraced(keepAlive, timeoutSec, now, run);
    ZeroTimestamps(s.entries, reqs);
    var t := Stamped(s.entries, reqs);
    forall i, j | 0 <= i < j < |t| ensures t[i].timestamp <= t[j].timestamp {
      assert s.entries[i].k < s.entries[j].k;
    }
    NotOvertaken(t, timeoutSec, at);
    SweepExactIff(t, timeoutSec, at);
  }

  /** A subscription of time 1000 with a timeout of 5 seconds is gone one second later. */
  lemma EarlyTimeoutExample()
    ensures var run := [Subscribe([0x61], 0, true, 1000)];
            var s := Exec(Start(60, 5, 1000), run);
            && |s.entries| == 1 && Requests(run) == [Request([0x61], 0, 1000)]
            && DoTick(s, Tick(true, 1001, 1001, true)).entries == []
  {
    var e := Subscribe([0x61], 0, true, 1000);
    assert [e][..0] == [];
    assert Exec(Start(60, 5, 1000), [e]) == Apply(Start(60, 5, 1000), e);
    assert Requests([e]) == [] + [RequestOf(e)];
    ReachableSweep(60, 5, 1000, [e], Tick(true, 1001, 1001, true));
  }

  // ---------- nothing is lost ----------

  function Ks(s: seq<Entry>): (r: seq<nat>)
    ensures |r| == |s|
    ensures forall i :: 0 <= i < |s| ==> r[i] == s[i].k
  {
    seq(|s|, i requires 0 <= i < |s| => s[i].k)
  }

  /** The entries that a step hands to the timeout callback. */
  function FiredBy(s: State, e: Event): seq<Entry> {
    if Sweeps(s, e) then Dead(s.entries, s.timeoutSec, e.now) else []
  }

  /** The entry that a step removes because an inbound packet named its id. */
  function AckedBy(s: State, e: Event): seq<Entry> {
    if e.Inbound? && e.sendOk && AckedId(e.frame).Some? then
      var i := IndexOf(s.entries, AckedId(e.frame).value);
      if i < |s.entries| then [s.entries[i]] else []
    else []
  }

  function Fired(s: State, run: seq<Event>): seq<Entry> {
    if run == [] then []
    else Fired(s, run[..|run| - 1]) + FiredBy(Exec(s, run[..|run| - 1]), run[|run| - 1])
  }

  function Acked(s: State, run: seq<Event>): seq<Entry> {
    if run == [] then []
    else Acked(s, run[..|run| - 1]) + AckedBy(Exec(s, run[..|run| - 1]), run[|run| - 1])
  }

  function Upto(n: nat): seq<nat> {
    if n == 0 then [] else Upto(n - 1) + [n - 1]
  }

  lemma KsConcat(a: seq<Entry>, b: seq<Entry>)
    ensures Ks(a + b) == Ks(a) + Ks(b)
  {
  }

  lemma RemovedKs(s: seq<Entry>, i: nat)
    requires i < |s|
    ensures multiset(Ks(s)) == multiset(Ks(Without(s, i))) + multiset{s[i].k}
  {
    assert s == s[..i] + ([s[i]] + s[i + 1..]);
    KsConcat(s[..i], [s[i]] + s[i + 1..]);
    KsConcat([s[i]], s[i + 1..]);
    KsConcat(s[..i], s[i + 1..]);
    assert Ks([s[i]]) == [s[i].k];
  }

  function NewKs(s: State, e: Event): multiset<nat> {
    if Accepted(e) then multiset{s.issued} else multiset{}
  }

  predicate Conserves(s: State, e: Event) {
    multiset(Ks(s.entries)) + NewKs(s, e) ==
    multiset(Ks(Apply(s, e).entries)) + multiset(Ks(FiredBy(s, e))) + multiset(Ks(AckedBy(s, e)))
  }

  lemma SubscribeConserves(s: State, e: Event)
    requires Accepted(e)
    ensures Conserves(s, e)
  {
    var t := Apply(s, e).entries;
    assert t == s.entries + [t[|s.entries|]];
    KsConcat(s.entries, [t[|s.entries|]]);
    assert Ks([t[|s.entries|]]) == [s.issued];
    assert Ks([]) == [];
  }

  lemma InboundConserves(s: State, e: Event)
    requires e.Inbound? && AckedBy(s, e) != []
    ensures Conserves(s, e)
  {
    var i := IndexOf(s.entries, AckedId(e.frame).value);
    RemovedKs(s.entries, i);
    assert Ks([s.entries[i]]) == [s.entries[i].k];
    assert Ks([]) == [];
  }

  lemma TickConserves(s: State, e: Event)
    requires e.Tick? && forall i :: 0 <= i < |s.entries| ==> s.entries[i].timestamp == 0
    ensures Conserves(s, e)
  {
    assert Ks([]) == [];
    SweepAllOrNothing(s.entries, s.timeoutSec, e.now);
  }

  lemma StepConserves(s: State, reqs: seq<Request>, e: Event)
    requires Traced(s, reqs)
    ensures Conserves(s, e)
  {
    if Accepted(e) {
      SubscribeConserves(s, e);
    } else if e.Tick? {
      assert forall i :: 0 <= i < |s.entries| ==> Traces(s.entries[i], reqs);
      TickConserves(s, e);
    } else if AckedBy(s, e) != [] {
      InboundConserves(s, e);
    } else {
      assert Ks([]) == [];
      assert Apply(s, e).entries == s.entries;
    }
  }

  predicate Accounted(s: State, run: seq<Event>) {
    multiset(Ks(Exec(s, run).entries)) + multiset(Ks(Fired(s, run))) + multiset(Ks(Acked(s, run))) ==
    multiset(Upto(|Requests(run)|))
  }

  lemma Shuffle(q: multiset<nat>, f: multiset<nat>, a: multiset<nat>, all: multiset<nat>,
                q': multiset<nat>, f': multiset<nat>, a': multiset<nat>, new': multiset<nat>)
    requires q + f + a == all && q + new' == q' + f' + a'
    ensures q' + (f + f') + (a + a') == all + new'
  {
    assert q' + (f + f') + (a + a') == (q' + f' + a') + f + a;
    assert (q + new') + f + a == (q + f + a) + new';
  }

  lemma StepAccounted(s: State, run: seq<Event>)
    requires run != []
    requires var front := run[..|run| - 1];
             Accounted(s, front) && Conserves(Exec(s, front), run[|run| - 1]) && Exec(s, front).issued == |Requests(front)|
    ensures Accounted(s, run)
  {
    var front, e := run[..|run| - 1], run[|run| - 1];
    var t := Exec(s, front);
    KsConcat(Fired(s, front), FiredBy(t, e));
    KsConcat(Acked(s, front), AckedBy(t, e));
    Shuffle(multiset(Ks(t.entries)), multiset(Ks(Fired(s, front))), multiset(Ks(Acked(s, front))),
            multiset(Upto(|Requests(front)|)),
            multiset(Ks(Apply(t, e).entries)), multiset(Ks(FiredBy(t, e))), multiset(Ks(AckedBy(t, e))), NewKs(t, e));
  }

  /** Over every run each allocation is accounted for exactly once: it is still queued, was
      handed to the timeout callback, or was removed by an inbound packet. */
  lemma {:induction false} EveryAllocationAccountedFor(keepAlive: uint16, timeoutSec: uint16, now: int, run: seq<Event>)
    ensures var s0 := Start(keepAlive, timeoutSec, now);
            multiset(Ks(Exec(s0, run).entries)) + multiset(Ks(Fired(s0, run))) + multiset(Ks(Acked(s0, run))) ==
            multiset(Upto(|Requests(run)|))
  {
    var s0 := Start(keepAlive, timeoutSec, now);
    if run == [] {
      assert Ks([]) == [];
    } else {
      var front := run[..|run| - 1];
      EveryAllocationAccountedFor(keepAlive, timeoutSec, now, front);
      RunTraced(keepAlive, timeoutSec, now, front);
      StepConserves(Exec(s0, front), Requests(front), run[|run| - 1]);
      StepAccounted(s0, run);
    }
  }

  // ---------- the empty queue ----------

  lemma {:induction false} UptoSize(n: nat)
    ensures |Upto(n)| == n
  {
    if n == 0 {
    } else {
      UptoSize(n - 1);
    }
  }

  /** Entries, callbacks and acknowledgements add up to the subscriptions, so that the queue of
      a reachable state is empty exactly when every subscription was timed out or acknowledged. */
  lemma QueueEmptyIff(keepAlive: uint16, timeoutSec: uint16, now: int, run: seq<Event>)
    ensures var s0 := Start(keepAlive, timeoutSec, now);
            && |Exec(s0, run).entries| + |Fired(s0, run)| + |Acked(s0, run)| == |Requests(run)|
            && (Exec(s0, run).entries == [] <==> |Fired(s0, run)| + |Acked(s0, run)| == |Requests(run)|)
  {
    var s0 := Start(keepAlive, timeoutSec, now);
    EveryAllocationAccountedFor(keepAlive, timeoutSec, now, run);
    UptoSize(|Requests(run)|);
    var q, f, a := Ks(Exec(s0, run).entries), Ks(Fired(s0, run)), Ks(Acked(s0, run));
    assert |multiset(q) + multiset(f) + multiset(a)| == |q| + |f| + |a|;
    assert |multiset(Upto(|Requests(run)|))| == |Requests(run)|;
  }

  /** An inbound PUBLISH that is acknowledged is defined exactly while some subscription was
      neither timed out nor acknowledged. */
  lemma AckDefinedIff(keepAlive: uint16, timeoutSec: uint16, now: int, run: seq<Event>, frame: seq<byte>)
    requires AckedId(frame).Some?
    ensures var s0 := Start(keepAlive, timeoutSec, now);
            Defined(Exec(s0, run), Inbound(frame, true)) <==>
            |Fired(s0, run)| + |Acked(s0, run)| < |Requests(run)|
  {
    QueueEmptyIff(keepAlive, timeoutSec, now, run);
  }

  lemma {:induction false} EmptyStaysEmpty(s: State, rest: seq<Event>)
    requires s.entries == [] && forall e <- rest :: !Accepted(e)
    ensures Exec(s, rest).entries == []
  {
    if rest == [] {
    } else {
      assert rest[|rest| - 1] in rest;
      EmptyStaysEmpty(s, rest[..|rest| - 1]);
    }
  }

  /** After a tick that sweeps past `timeout_sec` the queue is empty, and until a subscription
      is sent every acknowledged PUBLISH is undefined. */
  lemma AckAfterTimeout(keepAlive: uint16, timeoutSec: uint16, now: int, run: seq<Event>, e: Event,
                        rest: seq<Event>, frame: seq<byte>)
    requires Sweeps(Exec(Start(keepAlive, timeoutSec, now), run), e) && timeoutSec < e.now
    requires (forall x <- rest :: !Accepted(x)) && AckedId(frame).Some?
    ensures var s := Exec(Start(keepAlive, timeoutSec, now), run + [e] + rest);
            s.entries == [] && !Defined(s, Inbound(frame, true))
  {
    var s0 := Start(keepAlive, timeoutSec, now);
    ReachableSweep(keepAlive, timeoutSec, now, run, e);
    ExecStep(s0, run, e);
    ExecConcat(s0, run + [e], rest);
    EmptyStaysEmpty(Exec(s0, run + [e]), rest);
  }

  /** A QoS 1 PUBLISH right after the CONNECT. */
  lemma AckAfterConnect(keepAlive: uint16, timeoutSec: uint16, now: int)
    ensures var frame := Publish.Written(Publish.Publication(0, 1, 0, [0x61], 1, []));
            && AckedId(frame) == Some(1)
            && !Defined(Start(keepAlive, timeoutSec, now), Inbound(frame, true))
  {
    Publish.LeftoverIdExample();
  }

  // ---------- keep-alive ----------

  predicate Pinged(s: State, e: Event) {
    Sweeps(s, e) && PingDue(s, e.now)
  }

  /** The last clock reading: the latest tick, after its ping if there was one, or the time of
      the CONNECT. */
  function Clock(s: State, run: seq<Event>): int {
    if run == [] then s.timestamp
    else
      var front, e := run[..|run| - 1], run[|run| - 1];
      if Pinged(Exec(s, front), e) then e.stamp
      else if e.Tick? && e.readOk then e.now
      else Clock(s, front)
  }

  /** The clock is read at most `d` after its last reading, and at most `lag` later again after
      a ping; it never goes back, and every ping is sent. */
  predicate Paced(s: State, run: seq<Event>, d: int, lag: int) {
    run == [] ||
    var front, e := run[..|run| - 1], run[|run| - 1];
    && Paced(s, front, d, lag)
    && (e.Tick? && e.readOk ==>
        e.pingOk && Clock(s, front) <= e.now <= Clock(s, front) + d && e.now <= e.stamp <= e.now + lag)
  }

  /** The times of the pings that were sent, after the time of the CONNECT, as the events alone
      decide them: a tick that was read, at least `keepAlive` after the last ping. */
  function Pings(keepAlive: nat, connected: int, run: seq<Event>): (r: seq<int>)
    ensures |r| >= 1 && r[0] == connected
  {
    if run == [] then [connected]
    else
      var r, e := Pings(keepAlive, connected, run[..|run| - 1]), run[|run| - 1];
      if e.Tick? && e.readOk && e.pingOk && e.now >= r[|r| - 1] + keepAlive then r + [e.stamp] else r
  }

  /** The client's timestamp is always that of the last ping that was really sent, whether or
      not others failed in between. */
  lemma {:induction false} TimestampIsLastPing(keepAlive: uint16, timeoutSec: uint16, now: int, run: seq<Event>)
    ensures var s := Exec(Start(keepAlive, timeoutSec, now), run);
            var pings := Pings(if keepAlive == 0 then 60 else keepAlive, now, run);
            s.timestamp == pings[|pings| - 1]
  {
    if run == [] {
    } else {
      TimestampIsLastPing(keepAlive, timeoutSec, now, run[..|run| - 1]);
      ParametersKept(Start(keepAlive, timeoutSec, now), run[..|run| - 1]);
    }
  }

  predicate Spaced(pings: seq<int>, keepAlive: int, d: int) {
    forall i :: 0 <= i < |pings| - 1 ==> keepAlive <= pings[i + 1] - pings[i] < keepAlive + d
  }

  lemma {:induction false} ParametersKept(s: State, run: seq<Event>)
    ensures Exec(s, run).keepAlive == s.keepAlive && Exec(s, run).timeoutSec == s.timeoutSec
  {
    if run == [] {
    } else {
      ParametersKept(s, run[..|run| - 1]);
    }
  }

  /** Less than the keep-alive interval has passed since the last ping, and the pings so far
      kept their distance. */
  predicate OnTime(s: State, clock: int, pings: seq<int>, slack: int) {
    && s.keepAlive >= 1
    && s.timestamp <= clock < s.timestamp + s.keepAlive
    && pings != [] && pings[|pings| - 1] == s.timestamp
    && Spaced(pings, s.keepAlive, slack)
  }

  lemma OnTimeStep(s: State, e: Event, clock: int, pings: seq<int>, d: int, lag: int)
    requires OnTime(s, clock, pings, d + lag)
    requires e.Tick? && e.readOk ==>
               e.pingOk && clock <= e.now <= clock + d && e.now <= e.stamp <= e.now + lag
    ensures if Pinged(s, e) then OnTime(Apply(s, e), e.stamp, pings + [e.stamp], d + lag)
            else OnTime(Apply(s, e), if e.Tick? && e.readOk then e.now else clock, pings, d + lag)
  {
  }

  lemma {:induction false} PacedOnTime(s: State, run: seq<Event>, d: int, lag: int)
    requires s.keepAlive >= 1 && Paced(s, run, d, lag)
    ensures OnTime(Exec(s, run), Clock(s, run), Pings(s.keepAlive, s.timestamp, run), d + lag)
  {
    if run == [] {
    } else {
      var front, e := run[..|run| - 1], run[|run| - 1];
      PacedOnTime(s, front, d, lag);
      var t, pings := Exec(s, front), Pings(s.keepAlive, s.timestamp, front);
      ParametersKept(s, front);
      OnTimeStep(t, e, Clock(s, front), pings, d, lag);
      assert Exec(s, run) == Apply(t, e);
    }
  }

  /** Over every paced run the keep-alive interval is at least 1, less than it has passed since
      the last ping at every clock reading, and consecutive pings are at least the interval and
      less than the interval plus `d` and `lag` apart. */
  lemma {:induction false} KeepAliveHolds(keepAlive: uint16, timeoutSec: uint16, now: int, run: seq<Event>,
                                          d: int, lag: int)
    requires Paced(Start(keepAlive, timeoutSec, now), run, d, lag)
    ensures var s0 := Start(keepAlive, timeoutSec, now);
            var s, pings := Exec(s0, run), Pings(s0.keepAlive, now, run);
            && s.keepAlive == (if keepAlive == 0 then 60 else keepAlive)
            && OnTime(s, Clock(s0, run), pings, d + lag)
  {
    var s0 := Start(keepAlive, timeoutSec, now);
    ParametersKept(s0, run);
    PacedOnTime(s0, run, d, lag);
  }
}
