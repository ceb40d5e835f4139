/** ReadRecord, UpdateRecord, DeleteRecord and the existence query of CreateRecordWithId of master/mux_records.go,
    run over the fan-out: every node is asked in parallel and the first success cancels the queries still under way. */
module Queries {
  import opened Wrappers
  import opened Records
  import opened Nodes
  import opened NodeLists
  import Cluster
  import FanOut

  datatype Query =
    | Read(id: nat)
    | Update(rec: Record)
    | Delete(id: nat)
    | Exists(id: nat)  // reports no errors

  function Target(q: Query): nat {
    if q.Update? then q.rec.id else q.id
  }

  /** What a worker puts on the result channel. */
  datatype Answer = Found(record: Record) | Acknowledged

  type Net = FanOut.Net<Answer>
  type Action = FanOut.Action<Answer>

  /** How a node's RPC ended, as the worker sees it. */
  datatype Reply =
    | Genuine                             // the node answered
    | Cancelled(applied: bool)            // the context was cancelled; the node may still have acted
    | Broken(applied: bool, msg: string)  // a real RPC failure

  datatype State = State(net: Net, nodes: seq<Node>, cancelled: bool)

  datatype Step =
    | Rpc(i: nat, reply: Reply)
    | Other(a: Action)  // any step of the fan-out except calling a worker

  /** What became of a node whose RPC ended so. */
  function ServedWith(q: Query, n: Node, o: Cluster.SingleOutcome): Node {
    match q
    case Read(_) => n
    case Update(rec) => Cluster.UpdateOne(n, rec, o)
    case Delete(id) => Cluster.DeleteOne(n, id, o)
    case Exists(_) => n
  }

  function Served(q: Query, n: Node): Node {
    ServedWith(q, n, Cluster.Answered)
  }

  function OutcomeOf(reply: Reply): Cluster.SingleOutcome {
    if reply.Genuine? then Cluster.Answered else Cluster.Unanswered(reply.applied)
  }

  function AnswerOf(q: Query, n: Node): Answer
    requires Target(q) in n.store
  {
    if q.Read? then Found(n.store[q.id]) else Acknowledged
  }

  ghost predicate Enabled(q: Query, faulty: set<nat>, s: State, t: Step) {
    match t
    case Rpc(i, reply) =>
      && i < |s.nodes| == |s.net.workers|
      && s.net.workers[i].Ready?
      && (reply.Cancelled? ==> s.cancelled)
      && (reply.Broken? ==> i in faulty)
    case Other(a) => !a.Begin? && FanOut.Enabled(s.net, a)
  }

  /** The script the worker of node i ends up with. */
  function Script(q: Query, n: Node, reply: Reply): seq<FanOut.Send<Answer>> {
    match reply
    case Genuine => if Target(q) in n.store then [FanOut.Result(AnswerOf(q, n))] else []
    case Cancelled(_) => if q.Exists? then [] else [FanOut.Failure("context canceled")]
    case Broken(_, msg) => if q.Exists? then [] else [FanOut.Failure(msg)]
  }

  function NodeAfter(q: Query, n: Node, reply: Reply): Node {
    ServedWith(q, n, OutcomeOf(reply))
  }

  ghost function Begin(q: Query, n: Node, i: nat, reply: Reply): Action {
    FanOut.Begin(i, Script(q, n, reply), None)
  }

  ghost function Do(q: Query, faulty: set<nat>, s: State, t: Step): State
    requires Enabled(q, faulty, s, t)
  {
    match t
    case Rpc(i, reply) =>
      var n := s.nodes[i];
      State(FanOut.Do(s.net, Begin(q, n, i, reply)),
            s.nodes[i := NodeAfter(q, n, reply)],
            s.cancelled || (reply.Genuine? && Target(q) in n.store))
    case Other(a) => s.(net := FanOut.Do(s.net, a))
  }

  ghost function Start(ns: seq<Node>): State {
    State(FanOut.Start<Answer>(|ns|), ns, false)
  }

  ghost predicate IsRun(q: Query, faulty: set<nat>, s: State, ts: seq<Step>)
    decreases |ts|
  {
    ts == [] || (Enabled(q, faulty, s, ts[0]) && IsRun(q, faulty, Do(q, faulty, s, ts[0]), ts[1..]))
  }

  ghost function Final(q: Query, faulty: set<nat>, s: State, ts: seq<Step>): State
    requires IsRun(q, faulty, s, ts)
    decreases |ts|
  {
    if ts == [] then s else Final(q, faulty, Do(q, faulty, s, ts[0]), ts[1..])
  }

  datatype Response = Success(answer: Answer) | NotFound | Unsatisfied(errs: seq<string>)

  /** The switch on the number of results that ends each handler. */
  function Respond(results: seq<Answer>, errs: seq<string>): Response {
    if results != [] then Success(results[0])
    else if errs == [] then NotFound
    else Unsatisfied(errs)
  }

  // ----- any failures -----

  /** Holds along every run: untouched nodes are those of workers not yet called, a result means somebody held
      the id, and a holder that was called left a trace on one of the channels. */
  ghost predicate Traced(q: Query, ns: seq<Node>, s: State) {
    && |s.nodes| == |ns| == |s.net.workers|
    && (forall i :: 0 <= i < |ns| && s.net.workers[i].Ready? ==> s.nodes[i] == ns[i])
    && (forall a :: a in s.net.owedResults ==> AnsweredBy(q, ns, a))
    && (!q.Exists? && s.net.owedResults == multiset{} && s.net.owedErrors == multiset{} ==>
          forall i :: 0 <= i < |ns| && Target(q) in ns[i].store ==> s.net.workers[i].Ready?)
  }

  /** The answer of some node that holds the id. */
  ghost predicate AnsweredBy(q: Query, ns: seq<Node>, a: Answer) {
    exists i :: 0 <= i < |ns| && Target(q) in ns[i].store && a == AnswerOf(q, ns[i])
  }

  lemma HolderAnswers(q: Query, ns: seq<Node>, i: nat)
    requires i < |ns|
    ensures Target(q) in ns[i].store ==> AnsweredBy(q, ns, AnswerOf(q, ns[i]))
  {
  }

  lemma OtherKeepsWorkers(s: Net, a: Action)
    requires FanOut.Enabled(s, a) && !a.Begin?
    ensures var s' := FanOut.Do(s, a);
      && |s'.workers| == |s.workers|
      && (forall i :: 0 <= i < |s.workers| ==> (s'.workers[i].Ready? <==> s.workers[i].Ready?))
      && s'.owedResults == s.owedResults && s'.owedErrors == s.owedErrors
  {
  }

  lemma {:induction false} SingleSend(x: FanOut.Send<Answer>)
    ensures FanOut.ResultsOf([x]) == if x.Result? then multiset{x.value} else multiset{}
    ensures FanOut.ErrorsOf([x]) == if x.Failure? then multiset{x.msg} else multiset{}
  {
  }

  /** What calling the worker of node i adds to what is owed. */
  lemma {:induction false} RpcOwes(q: Query, s: Net, n: Node, i: nat, reply: Reply)
    requires FanOut.Enabled(s, Begin(q, n, i, reply))
    ensures var s' := FanOut.Do(s, Begin(q, n, i, reply));
      && s'.workers == s.workers[i := FanOut.Running(Script(q, n, reply), None)]
      && (reply.Genuine? && Target(q) in n.store ==>
            s'.owedResults == s.owedResults + multiset{AnswerOf(q, n)} && s'.owedErrors == s.owedErrors)
      && (reply.Genuine? && Target(q) !in n.store ==>
            s'.owedResults == s.owedResults && s'.owedErrors == s.owedErrors)
      && (!reply.Genuine? && q.Exists? ==>
            s'.owedResults == s.owedResults && s'.owedErrors == s.owedErrors)
      && (!reply.Genuine? && !q.Exists? ==>
            s'.owedResults == s.owedResults && s'.owedErrors > s.owedErrors)
  {
    var todo := Script(q, n, reply);
    if todo == [] {
      assert FanOut.ResultsOf(todo) == multiset{} && FanOut.ErrorsOf<Answer>(todo) == multiset{};
    } else {
      SingleSend(todo[0]);
      assert todo == [todo[0]];
    }
    hide FanOut.ResultsOf, FanOut.ErrorsOf;
    var s' := FanOut.Do(s, Begin(q, n, i, reply));
    assert s'.owedResults == s.owedResults + FanOut.ResultsOf(todo);
    assert s'.owedErrors == s.owedErrors + (FanOut.ErrorsOf(todo) + multiset{});
    if !reply.Genuine? && !q.Exists? {
      assert s'.owedErrors == s.owedErrors + multiset{todo[0].msg};
      assert todo[0].msg in s'.owedErrors - s.owedErrors;
    }
  }

  lemma {:induction false} StepTraced(q: Query, faulty: set<nat>, ns: seq<Node>, s: State, t: Step)
    requires Traced(q, ns, s) && Enabled(q, faulty, s, t)
    ensures Traced(q, ns, Do(q, faulty, s, t))
  {
    hide FanOut.Do, FanOut.Enabled;
    match t
    case Other(a) => OtherKeepsWorkers(s.net, a);
    case Rpc(i, reply) => RpcTraced(q, faulty, ns, s, i, reply);
  }

  lemma {:induction false} RpcTraced(q: Query, faulty: set<nat>, ns: seq<Node>, s: State, i: nat, reply: Reply)
    requires Traced(q, ns, s) && Enabled(q, faulty, s, Rpc(i, reply))
    ensures Traced(q, ns, Do(q, faulty, s, Rpc(i, reply)))
  {
    hide FanOut.Do, ServedWith, AnsweredBy, AnswerOf;
    RpcOwes(q, s.net, s.nodes[i], i, reply);
    assert s.nodes[i] == ns[i];
    HolderAnswers(q, ns, i);
  }

  lemma {:induction false} StartTraced(q: Query, ns: seq<Node>)
    ensures Traced(q, ns, Start(ns)) && FanOut.Inv(Start(ns).net)
  {
    FanOut.StartInv<Answer>(|ns|);
  }

  lemma {:induction false} NetStep(q: Query, faulty: set<nat>, s: State, t: Step)
    requires FanOut.Inv(s.net) && Enabled(q, faulty, s, t)
    ensures FanOut.Inv(Do(q, faulty, s, t).net)
  {
    hide FanOut.Inv, FanOut.Do;
    match t
    case Other(a) => FanOut.StepInv(s.net, a);
    case Rpc(i, reply) => FanOut.StepInv(s.net, Begin(q, s.nodes[i], i, reply));
  }

  lemma {:induction false} RunTraced(q: Query, faulty: set<nat>, ns: seq<Node>, s: State, ts: seq<Step>)
    requires Traced(q, ns, s) && FanOut.Inv(s.net) && IsRun(q, faulty, s, ts)
    ensures Traced(q, ns, Final(q, faulty, s, ts)) && FanOut.Inv(Final(q, faulty, s, ts).net)
    decreases |ts|
  {
    hide FanOut.Inv, Traced, Do, Enabled;
    if ts != [] {
      StepTraced(q, faulty, ns, s, ts[0]);
      NetStep(q, faulty, s, ts[0]);
      RunTraced(q, faulty, ns, Do(q, faulty, s, ts[0]), ts[1..]);
    }
  }

  /** For every interleaving, every failure pattern and every point of cancellation: a success means some node held the
      record, a read returns what such a node holds, and a record reported missing was on no node. */
  lemma {:induction false} NeverFalselyMissing(q: Query, faulty: set<nat>, ns: seq<Node>, ts: seq<Step>)
    requires IsRun(q, faulty, Start(ns), ts)
    requires Final(q, faulty, Start(ns), ts).net.caller.Returned?
    ensures var net := Final(q, faulty, Start(ns), ts).net;
            var resp := Respond(net.results, net.errs);
      && (resp.Success? ==> HeldId(ns, Target(q)) && resp.answer == net.results[0] && AnsweredBy(q, ns, resp.answer))
      && (resp.NotFound? && !q.Exists? ==> !HeldId(ns, Target(q)))
  {
    hide Traced, FanOut.Inv, Enabled, Do;
    StartTraced(q, ns);
    RunTraced(q, faulty, ns, Start(ns), ts);
    var s := Final(q, faulty, Start(ns), ts);
    FanOut.ReturnsEverything(s.net);
    TracedEnd(q, ns, s);
  }

  lemma {:induction false} TracedEnd(q: Query, ns: seq<Node>, s: State)
    requires Traced(q, ns, s) && forall i :: 0 <= i < |s.net.workers| ==> s.net.workers[i].Gone?
    requires multiset(s.net.results) == s.net.owedResults && multiset(s.net.errs) == s.net.owedErrors
    ensures var resp := Respond(s.net.results, s.net.errs);
      && (resp.Success? ==> HeldId(ns, Target(q)) && resp.answer == s.net.results[0] && AnsweredBy(q, ns, resp.answer))
      && (resp.NotFound? && !q.Exists? ==> !HeldId(ns, Target(q)))
  {
    if s.net.results != [] {
      assert s.net.results[0] in multiset(s.net.results);
    }
  }

  /** A query that has not returned can always take a step. */
  lemma {:induction false} QueryNeverStuck(q: Query, faulty: set<nat>, ns: seq<Node>, ts: seq<Step>)
    requires IsRun(q, faulty, Start(ns), ts)
    requires !Final(q, faulty, Start(ns), ts).net.caller.Returned?
    ensures exists t :: Enabled(q, faulty, Final(q, faulty, Start(ns), ts), t)
  {
    hide FanOut.Inv, FanOut.Enabled;
    StartTraced(q, ns);
    RunTraced(q, faulty, ns, Start(ns), ts);
    var s := Final(q, faulty, Start(ns), ts);
    FanOut.NeverStuck(s.net);
    var a: Action :| FanOut.Enabled(s.net, a);
    if a.Begin? {
      BeginReady(s.net, a);
      assert Enabled(q, faulty, s, Rpc(a.i, Genuine));
    } else {
      assert Enabled(q, faulty, s, Other(a));
    }
  }

  lemma BeginReady(s: Net, a: Action)
    requires FanOut.Enabled(s, a) && a.Begin?
    ensures a.i < |s.workers| && s.workers[a.i].Ready?
  {
  }

  // ----- no genuine failures, disjoint nodes -----

  /** Where a run stands when at most node h holds the id. */
  ghost predicate Tracked(q: Query, ns: seq<Node>, s: State, h: nat) {
    && |s.nodes| == |ns| == |s.net.workers|
    && (forall i :: 0 <= i < |ns| && i != h ==> s.nodes[i] == ns[i])
    && (h < |ns| ==>
          var called := !s.net.workers[h].Ready?;
          && Target(q) in ns[h].store
          && s.nodes[h] == (if called then Served(q, ns[h]) else ns[h])
          && s.cancelled == called
          && s.net.owedResults == (if called then multiset{AnswerOf(q, ns[h])} else multiset{}))
    && (h == |ns| ==> !s.cancelled && s.net.owedResults == multiset{} && s.net.owedErrors == multiset{})
  }

  /** h is the only node holding the id, or the number of nodes if none does. */
  ghost predicate OnlyHolder(ns: seq<Node>, id: nat, h: nat) {
    && h <= |ns|
    && (forall i :: 0 <= i < |ns| ==> (id in ns[i].store <==> i == h))
  }

  lemma HolderExists(ns: seq<Node>, id: nat) returns (h: nat)
    requires PairwiseDisjoint(ns)
    ensures OnlyHolder(ns, id, h)
  {
    if HeldId(ns, id) {
      h :| 0 <= h < |ns| && id in ns[h].store;
      forall i | 0 <= i < |ns| && id in ns[i].store
        ensures i == h
      {
        OthersDisjoint(ns, i, h);
        assert id in ns[i].store.Keys * ns[h].store.Keys;
      }
    } else {
      h := |ns|;
    }
  }

  lemma BystanderUnchanged(q: Query, n: Node, reply: Reply)
    requires Target(q) !in n.store
    ensures NodeAfter(q, n, reply) == n
  {
  }

  lemma {:induction false} RpcTracked(q: Query, ns: seq<Node>, s: State, h: nat, i: nat, reply: Reply)
    requires Tracked(q, ns, s, h) && OnlyHolder(ns, Target(q), h) && Enabled(q, {}, s, Rpc(i, reply))
    ensures Tracked(q, ns, Do(q, {}, s, Rpc(i, reply)), h)
  {
    hide FanOut.Do, ServedWith;
    RpcOwes(q, s.net, s.nodes[i], i, reply);
    if i != h {
      BystanderUnchanged(q, s.nodes[i], reply);
    }
  }

  lemma {:induction false} StepTracked(q: Query, ns: seq<Node>, s: State, h: nat, t: Step)
    requires Tracked(q, ns, s, h) && OnlyHolder(ns, Target(q), h) && Enabled(q, {}, s, t)
    ensures Tracked(q, ns, Do(q, {}, s, t), h)
  {
    hide FanOut.Do, FanOut.Enabled;
    match t
    case Other(a) => OtherKeepsWorkers(s.net, a);
    case Rpc(i, reply) => RpcTracked(q, ns, s, h, i, reply);
  }

  lemma {:induction false} RunTracked(q: Query, ns: seq<Node>, s: State, h: nat, ts: seq<Step>)
    requires Tracked(q, ns, s, h) && OnlyHolder(ns, Target(q), h) && FanOut.Inv(s.net) && IsRun(q, {}, s, ts)
    ensures Tracked(q, ns, Final(q, {}, s, ts), h) && FanOut.Inv(Final(q, {}, s, ts).net)
    decreases |ts|
  {
    hide FanOut.Inv, Tracked, OnlyHolder, Do, Enabled;
    if ts != [] {
      StepTracked(q, ns, s, h, ts[0]);
      NetStep(q, {}, s, ts[0]);
      RunTracked(q, ns, Do(q, {}, s, ts[0]), h, ts[1..]);
    }
  }

  /** The query applied to every node that holds the id. */
  ghost function ServedAll(q: Query, ns: seq<Node>): seq<Node> {
    seq(|ns|, i requires 0 <= i < |ns| => Served(q, ns[i]))
  }

  lemma OneAnswer(xs: seq<Answer>, x: Answer)
    requires multiset(xs) == multiset{x}
    ensures xs == [x]
  {
  }

  /** With disjoint nodes and no genuine failures, for every interleaving and every point at which the success
      cancels the rest: the handler succeeds exactly when some node holds the id, a read returns that node's
      record, and only that node changes. */
  lemma {:induction false} ActsOnUnion(q: Query, ns: seq<Node>, ts: seq<Step>)
    requires PairwiseDisjoint(ns) && IsRun(q, {}, Start(ns), ts)
    requires Final(q, {}, Start(ns), ts).net.caller.Returned?
    ensures var s := Final(q, {}, Start(ns), ts);
            var resp := Respond(s.net.results, s.net.errs);
      && s.nodes == ServedAll(q, ns)
      && (Target(q) in Contents(ns) ==>
            resp == Success(if q.Read? then Found(Contents(ns)[Target(q)]) else Acknowledged))
      && (Target(q) !in Contents(ns) ==> resp == NotFound && s.nodes == ns)
  {
    var h := HolderExists(ns, Target(q));
    StartTraced(q, ns);
    assert Tracked(q, ns, Start(ns), h);
    RunTracked(q, ns, Start(ns), h, ts);
    var s := Final(q, {}, Start(ns), ts);
    FanOut.ReturnsEverything(s.net);
    AllIdsIsHeld(ns, Target(q));
    EndOfRun(q, ns, s, h);
  }

  lemma {:induction false} EndOfRun(q: Query, ns: seq<Node>, s: State, h: nat)
    requires PairwiseDisjoint(ns) && Tracked(q, ns, s, h) && OnlyHolder(ns, Target(q), h)
    requires forall i :: 0 <= i < |ns| ==> s.net.workers[i].Gone?
    requires multiset(s.net.results) == s.net.owedResults && multiset(s.net.errs) == s.net.owedErrors
    ensures var resp := Respond(s.net.results, s.net.errs);
      && s.nodes == ServedAll(q, ns)
      && (Target(q) in Contents(ns) ==>
            resp == Success(if q.Read? then Found(Contents(ns)[Target(q)]) else Acknowledged))
      && (Target(q) !in Contents(ns) ==> resp == NotFound && s.nodes == ns)
  {
    var id := Target(q);
    forall i | 0 <= i < |ns|
      ensures s.nodes[i] == Served(q, ns[i])
    {
      if i != h {
        BystanderUnchanged(q, ns[i], Genuine);
      }
    }
    if h < |ns| {
      OneAnswer(s.net.results, AnswerOf(q, ns[h]));
      DisjointAgree(ns);
      assert Has(ns[h], id, ns[h].store[id]);
      ContentsHolds(ns, id, ns[h].store[id]);
    } else {
      assert id !in Contents(ns) by {
        AllIdsIsHeld(ns, id);
      }
      assert |s.net.results| == |multiset(s.net.results)| == 0;
      assert |s.net.errs| == |multiset(s.net.errs)| == 0;
    }
  }

  // ----- any failures: the state, and the existence query -----

  /** Nodes whose worker was not called are untouched, and every node ended as some outcome of its RPC explains. */
  ghost predicate Explained(q: Query, ns: seq<Node>, s: State) {
    && |s.nodes| == |ns| == |s.net.workers|
    && (forall i :: 0 <= i < |ns| && s.net.workers[i].Ready? ==> s.nodes[i] == ns[i])
    && (forall i :: 0 <= i < |ns| ==> Explains(q, ns[i], s.nodes[i]))
  }

  ghost predicate Explains(q: Query, n: Node, n': Node) {
    exists o :: n' == ServedWith(q, n, o)
  }

  ghost function Explanation(q: Query, n: Node, n': Node): Cluster.SingleOutcome {
    if Explains(q, n, n') then var o :| n' == ServedWith(q, n, o); o else Cluster.Answered
  }

  lemma {:induction false} StepExplained(q: Query, faulty: set<nat>, ns: seq<Node>, s: State, t: Step)
    requires Explained(q, ns, s) && Enabled(q, faulty, s, t)
    ensures Explained(q, ns, Do(q, faulty, s, t))
  {
    hide FanOut.Do, FanOut.Enabled, ServedWith;
    match t
    case Other(a) => OtherKeepsWorkers(s.net, a);
    case Rpc(i, reply) => RpcExplained(q, faulty, ns, s, i, reply);
  }

  lemma {:induction false} RpcExplained(q: Query, faulty: set<nat>, ns: seq<Node>, s: State, i: nat, reply: Reply)
    requires Explained(q, ns, s) && Enabled(q, faulty, s, Rpc(i, reply))
    ensures Explained(q, ns, Do(q, faulty, s, Rpc(i, reply)))
  {
    hide FanOut.Do, ServedWith;
    RpcOwes(q, s.net, s.nodes[i], i, reply);
    assert Explains(q, ns[i], ServedWith(q, ns[i], OutcomeOf(reply)));
  }

  lemma {:induction false} RunExplained(q: Query, faulty: set<nat>, ns: seq<Node>, s: State, ts: seq<Step>)
    requires Explained(q, ns, s) && IsRun(q, faulty, s, ts)
    ensures Explained(q, ns, Final(q, faulty, s, ts))
    decreases |ts|
  {
    hide Explained, Do, Enabled;
    if ts != [] {
      StepExplained(q, faulty, ns, s, ts[0]);
      RunExplained(q, faulty, ns, Do(q, faulty, s, ts[0]), ts[1..]);
    }
  }

  lemma {:induction false} StartExplained(q: Query, ns: seq<Node>)
    ensures Explained(q, ns, Start(ns))
  {
    forall i | 0 <= i < |ns|
      ensures Explains(q, ns[i], ns[i])
    {
      assert ns[i] == ServedWith(q, ns[i], Cluster.Unanswered(false));
    }
  }

  /** Whatever fails, is cancelled or interleaves: the nodes end as the cluster handler leaves them for some outcomes
      of its RPCs, so what is proved of the handler for all outcomes holds of every run. */
  lemma {:induction false} RunIsSpecified(q: Query, faulty: set<nat>, c: Cluster.State, ts: seq<Step>)
    returns (outs: nat -> Cluster.SingleOutcome)
    requires IsRun(q, faulty, Start(c.nodes), ts)
    ensures var ns := Final(q, faulty, Start(c.nodes), ts).nodes;
      && (q.Update? ==> ns == Cluster.UpdateRecord(c, q.rec, outs).nodes)
      && (q.Delete? ==> ns == Cluster.DeleteRecord(c, q.id, outs).nodes)
      && (q.Read? || q.Exists? ==> ns == c.nodes)
  {
    hide Do, Enabled;
    StartExplained(q, c.nodes);
    RunExplained(q, faulty, c.nodes, Start(c.nodes), ts);
    ghost var before, after := c.nodes, Final(q, faulty, Start(c.nodes), ts).nodes;
    outs := (i: nat) => if i < |before| && i < |after| then Explanation(q, before[i], after[i]) else Cluster.Answered;
    forall i | 0 <= i < |before|
      ensures after[i] == ServedWith(q, before[i], outs(i))
    {
      assert Explains(q, before[i], after[i]);
    }
  }

  /** The existence query: `asked` are the nodes that answered it. */
  ghost predicate Asked(q: Query, faulty: set<nat>, ns: seq<Node>, s: State, asked: set<nat>) {
    && s.nodes == ns && |ns| == |s.net.workers|
    && (forall i :: i in asked ==> i < |ns| && !s.net.workers[i].Ready?)
    && (s.cancelled <==> exists i :: i in asked && i < |ns| && Target(q) in ns[i].store)
    && (s.cancelled <==> s.net.owedResults != multiset{})
    && (!s.cancelled ==> forall i :: 0 <= i < |ns| && !s.net.workers[i].Ready? && i !in faulty ==> i in asked)
  }

  lemma {:induction false} StepAsked(q: Query, faulty: set<nat>, ns: seq<Node>, s: State, asked: set<nat>, t: Step)
    returns (asked': set<nat>)
    requires q.Exists? && Asked(q, faulty, ns, s, asked) && Enabled(q, faulty, s, t)
    ensures Asked(q, faulty, ns, Do(q, faulty, s, t), asked')
  {
    hide FanOut.Do, FanOut.Enabled;
    asked' := asked;
    match t
    case Other(a) => OtherKeepsWorkers(s.net, a);
    case Rpc(i, reply) =>
      RpcAsked(q, faulty, ns, s, asked, i, reply);
      asked' := if reply.Genuine? then asked + {i} else asked;
  }

  lemma {:induction false} RpcAsked(q: Query, faulty: set<nat>, ns: seq<Node>, s: State, asked: set<nat>, i: nat,
                                    reply: Reply)
    requires q.Exists? && Asked(q, faulty, ns, s, asked) && Enabled(q, faulty, s, Rpc(i, reply))
    ensures Asked(q, faulty, ns, Do(q, faulty, s, Rpc(i, reply)), if reply.Genuine? then asked + {i} else asked)
  {
    hide FanOut.Do;
    RpcOwes(q, s.net, s.nodes[i], i, reply);
    var asked' := if reply.Genuine? then asked + {i} else asked;
    assert forall j :: j in asked' && j < |ns| && Target(q) in ns[j].store ==> j in asked || j == i;
  }

  lemma {:induction false} RunAsked(q: Query, faulty: set<nat>, ns: seq<Node>, s: State, asked: set<nat>, ts: seq<Step>)
    returns (asked': set<nat>)
    requires q.Exists? && Asked(q, faulty, ns, s, asked) && IsRun(q, faulty, s, ts)
    ensures Asked(q, faulty, ns, Final(q, faulty, s, ts), asked')
    decreases |ts|
  {
    hide Asked, Do, Enabled;
    asked' := asked;
    if ts != [] {
      asked' := StepAsked(q, faulty, ns, s, asked, ts[0]);
      asked' := RunAsked(q, faulty, ns, Do(q, faulty, s, ts[0]), asked', ts[1..]);
    }
  }

  /** For every interleaving, failure and cancellation the existence query finds the id exactly when one of the nodes
      that answered holds it; and if it finds nothing, every node that did not fail has answered. */
  lemma {:induction false} ExistenceQuery(id: nat, faulty: set<nat>, ns: seq<Node>, ts: seq<Step>)
    returns (answers: nat -> bool)
    requires IsRun(Exists(id), faulty, Start(ns), ts)
    requires Final(Exists(id), faulty, Start(ns), ts).net.caller.Returned?
    ensures var s := Final(Exists(id), faulty, Start(ns), ts);
      && s.nodes == ns
      && (s.net.results != [] <==> Cluster.Reported(ns, id, answers))
      && (s.net.results == [] ==> forall i :: 0 <= i < |ns| && i !in faulty ==> answers(i))
  {
    hide Traced, FanOut.Inv, Enabled, Do;
    var q := Exists(id);
    StartTraced(q, ns);
    RunTraced(q, faulty, ns, Start(ns), ts);
    var asked := RunAsked(q, faulty, ns, Start(ns), {}, ts);
    var s := Final(q, faulty, Start(ns), ts);
    FanOut.ReturnsEverything(s.net);
    answers := (i: nat) => i in asked;
    assert s.net.results == [] <==> multiset(s.net.results) == multiset{};
  }

  /** The state after a query is the one the cluster's handlers are specified by. */
  lemma ServedIsSpecified(q: Query, c: Cluster.State, outs: nat -> Cluster.SingleOutcome)
    requires forall i :: outs(i) == Cluster.Answered
    ensures q.Update? ==> ServedAll(q, c.nodes) == Cluster.UpdateRecord(c, q.rec, outs).nodes
    ensures q.Delete? ==> ServedAll(q, c.nodes) == Cluster.DeleteRecord(c, q.id, outs).nodes
    ensures q.Read? || q.Exists? ==> ServedAll(q, c.nodes) == c.nodes
  {
  }
}
