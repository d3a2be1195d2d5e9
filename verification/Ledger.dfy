/** A client reduced to three numbers and a list: which allocations are pending, how many there
    were, and when the last ping went out. Every run of the client follows it. */
module Ledger {
  import opened Bytes
  import opened Entries
  import opened Session
  import opened Runs
  import Publish
  import TF = TopicFilters

  datatype Account = Account(pending: seq<nat>, count: nat, lastPing: int)

  /** The packet id of an allocation. */
  function Id(k: nat): uint16 {
    1 + k % 65535
  }

  /** Takes out the first pending allocation with the id, if there is one. */
  function Settle(pending: seq<nat>, id: uint16): seq<nat> {
    if pending == [] then []
    else if Id(pending[0]) == id then pending[1..]
    else [pending[0]] + Settle(pending[1..], id)
  }

  function Step(a: Account, keepAlive: nat, timeoutSec: nat, e: Event): Account {
    match e
    case Subscribe(topic, _, sendOk, _) =>
      if |topic| > 0 && sendOk then a.(pending := a.pending + [a.count], count := a.count + 1) else a
    case Tick(readOk, now, stamp, pingOk) =>
      var due := now >= a.lastPing + keepAlive;
      if !readOk || (due && !pingOk) then a
      else a.(pending := if now > timeoutSec then [] else a.pending, lastPing := if due then stamp else a.lastPing)
    case Inbound(frame, sendOk) =>
      match Publish.ParsePublish(frame)
      case Ok(p) => if sendOk && p.qos == 1 then a.(pending := Settle(a.pending, p.packetId)) else a
      case _ => a
  }

  function After(keepAlive: nat, timeoutSec: nat, now: int, run: seq<Event>): Account {
    if run == [] then Account([], 0, now)
    else Step(After(keepAlive, timeoutSec, now, run[..|run| - 1]), keepAlive, timeoutSec, run[|run| - 1])
  }

  /** The state is the account's: a pending allocation is an entry with its id, the bytes that
      were sent for its request, and a timestamp of 0. */
  predicate Books(s: State, a: Account, reqs: seq<Request>) {
    && |s.entries| == |a.pending| && a.count == |reqs| == s.issued
    && (forall i :: 0 <= i < |a.pending| ==>
          var k := a.pending[i];
          && k < |reqs|
          && s.entries[i] ==
             Entry(k, Id(k), TF.SubscribeFrame(Id(k), [TF.Filter(reqs[k].topic, reqs[k].qos)]), reqs[k].qos, 0))
    && s.packetIdNext == Id(a.count)
    && s.timestamp == a.lastPing
  }

  lemma {:induction false} SettleKs(s: seq<Entry>, id: uint16)
    requires forall i :: 0 <= i < |s| ==> s[i].packetId == Id(s[i].k)
    ensures Ks(RemoveFirst(s, id)) == Settle(Ks(s), id)
  {
    if s == [] {
    } else {
      assert Ks(s)[1..] == Ks(s[1..]);
      SettleKs(s[1..], id);
      RemoveFromTail(s, id);
    }
  }

  lemma RemoveFromTail(s: seq<Entry>, id: uint16)
    requires s != []
    ensures RemoveFirst(s, id) == if s[0].packetId == id then s[1..] else [s[0]] + RemoveFirst(s[1..], id)
  {
    if s[0].packetId == id {
      IndexIs(s, id, 0);
      assert Without(s, 0) == s[1..];
    } else {
      var i := IndexOf(s[1..], id);
      IndexIs(s, id, i + 1);
      if i < |s| - 1 {
        assert Without(s, i + 1) == [s[0]] + Without(s[1..], i);
      }
    }
  }

  predicate Agrees(s: State, a: Account) {
    Ks(s.entries) == a.pending && s.timestamp == a.lastPing && s.issued == a.count
  }

  lemma SubscribeAgrees(s: State, a: Account, e: Event)
    requires Agrees(s, a) && e.Subscribe?
    ensures Agrees(Apply(s, e), Step(a, s.keepAlive, s.timeoutSec, e))
  {
    if Accepted(e) {
      var t := Apply(s, e).entries;
      assert t == s.entries + [t[|s.entries|]];
      KsConcat(s.entries, [t[|s.entries|]]);
      assert Ks([t[|s.entries|]]) == [s.issued];
    }
  }

  lemma TickAgrees(s: State, a: Account, e: Event)
    requires Agrees(s, a) && e.Tick?
    requires forall i :: 0 <= i < |s.entries| ==> s.entries[i].timestamp == 0
    ensures Agrees(Apply(s, e), Step(a, s.keepAlive, s.timeoutSec, e))
  {
    SweepAllOrNothing(s.entries, s.timeoutSec, e.now);
    assert Ks([]) == [];
  }

  lemma InboundAgrees(s: State, a: Account, e: Event)
    requires Agrees(s, a) && e.Inbound?
    requires forall i :: 0 <= i < |s.entries| ==> s.entries[i].packetId == Id(s.entries[i].k)
    ensures Agrees(Apply(s, e), Step(a, s.keepAlive, s.timeoutSec, e))
  {
    if AckedId(e.frame).Some? {
      SettleKs(s.entries, AckedId(e.frame).value);
    }
  }

  lemma StepAgrees(s: State, a: Account, reqs: seq<Request>, e: Event)
    requires Traced(s, reqs) && Agrees(s, a)
    ensures Agrees(Apply(s, e), Step(a, s.keepAlive, s.timeoutSec, e))
  {
    assert forall i :: 0 <= i < |s.entries| ==> Traces(s.entries[i], reqs);
    match e
    case Subscribe(_, _, _, _) => SubscribeAgrees(s, a, e);
    case Tick(_, _, _, _) => TickAgrees(s, a, e);
    case Inbound(_, _) => InboundAgrees(s, a, e);
  }

  lemma {:induction false} RunAgrees(keepAlive: uint16, timeoutSec: uint16, now: int, run: seq<Event>)
    ensures Agrees(Exec(Start(keepAlive, timeoutSec, now), run),
                   After(if keepAlive == 0 then 60 else keepAlive, timeoutSec, now, run))
  {
    if run == [] {
      assert Ks([]) == [];
    } else {
      var front := run[..|run| - 1];
      RunAgrees(keepAlive, timeoutSec, now, front);
      RunTraced(keepAlive, timeoutSec, now, front);
      ParametersKept(Start(keepAlive, timeoutSec, now), front);
      StepAgrees(Exec(Start(keepAlive, timeoutSec, now), front),
                 After(if keepAlive == 0 then 60 else keepAlive, timeoutSec, now, front), Requests(front),
                 run[|run| - 1]);
    }
  }

  /** Every run of the client keeps its books: queue, ids, stored messages and ping time are
      exactly those of the account. */
  lemma RunBooks(keepAlive: uint16, timeoutSec: uint16, now: int, run: seq<Event>)
    ensures Books(Exec(Start(keepAlive, timeoutSec, now), run),
                  After(if keepAlive == 0 then 60 else keepAlive, timeoutSec, now, run), Requests(run))
  {
    RunAgrees(keepAlive, timeoutSec, now, run);
    RunTraced(keepAlive, timeoutSec, now, run);
    BooksOf(Exec(Start(keepAlive, timeoutSec, now), run),
            After(if keepAlive == 0 then 60 else keepAlive, timeoutSec, now, run), Requests(run));
  }

  lemma BooksOf(s: State, a: Account, reqs: seq<Request>)
    requires Traced(s, reqs) && Agrees(s, a)
    ensures Books(s, a, reqs)
  {
    forall i | 0 <= i < |a.pending| ensures a.pending[i] == s.entries[i].k && Traces(s.entries[i], reqs) {
    }
  }
}
