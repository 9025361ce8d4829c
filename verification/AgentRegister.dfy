/**
  The agent registry: records, the list of agents and one set per cluster index
  the same facts; and the idle time of agents from their workers.
 */
module AgentRegister {
  import opened Wrappers

  datatype AgentNode = AgentNode(name: string, cluster: string, ipAddress: string, workers: seq<string>)

  /** The Redis keys the registry uses. */
  datatype Registry = Registry(
    records: map<string, AgentNode>, agents: set<string>, clusters: set<string>, members: map<string, set<string>>)

  const EMPTY := Registry(map[], {}, {}, map[])

  function Members(r: Registry, cluster: string): set<string> {
    if cluster in r.members then r.members[cluster] else {}
  }

  function Registered(r: Registry, node: AgentNode): Registry {
    Registry(r.records[node.name := node], r.agents + {node.name}, r.clusters + {node.cluster},
             r.members[node.cluster := Members(r, node.cluster) + {node.name}])
  }

  /** Removes the record, and the name from the set of the cluster the caller gives. */
  function Unregistered(r: Registry, node: AgentNode): Registry {
    Registry(r.records - {node.name}, r.agents - {node.name}, r.clusters,
             r.members[node.cluster := Members(r, node.cluster) - {node.name}])
  }

  /** `remove`: by name, which leaves every cluster set alone. */
  function Removed(r: Registry, name: string): Registry {
    r.(records := r.records - {name}, agents := r.agents - {name})
  }

  class Register {
    var records: map<string, AgentNode>
    var agents: set<string>
    var clusters: set<string>
    var members: map<string, set<string>>

    constructor ()
      ensures View() == EMPTY
    {
      records, agents, clusters, members := map[], {}, {}, map[];
    }

    function View(): Registry reads this { Registry(records, agents, clusters, members) }

    method RegisterAgent(node: AgentNode)
      modifies this
      ensures View() == Registered(old(View()), node)
    {
      clusters := clusters + {node.cluster};
      var inCluster := if node.cluster in members then members[node.cluster] else {};
      members := members[node.cluster := inCluster + {node.name}];
      records := records[node.name := node];
      agents := agents + {node.name};
    }

    method UnregisterAgent(node: AgentNode)
      modifies this
      ensures View() == Unregistered(old(View()), node)
    {
      var inCluster := if node.cluster in members then members[node.cluster] else {};
      members := members[node.cluster := inCluster - {node.name}];
      records := records - {node.name};
      agents := agents - {node.name};
    }

    method Remove(name: string)
      modifies this
      ensures View() == Removed(old(View()), name)
    {
      agents := agents - {name};
      records := records - {name};
    }

    method Get(name: string) returns (r: Option<AgentNode>)
      ensures r.Some? <==> name in View().records
      ensures r.Some? ==> r.value == View().records[name]
      ensures Indexed(View()) ==> (r.Some? <==> name in View().agents)
      ensures Indexed(View()) && r.Some? ==> r.value.name == name && name in Members(View(), r.value.cluster)
    {
      r := if name in records then Some(records[name]) else None;
    }

    method ListAgents(fromCluster: Option<string>) returns (names: set<string>)
      ensures fromCluster.None? || fromCluster.value == "" ==> names == View().agents
      ensures fromCluster.Some? && fromCluster.value != "" ==> names == Members(View(), fromCluster.value)
    {
      if fromCluster.Some? && fromCluster.value != "" {
        names := if fromCluster.value in members then members[fromCluster.value] else {};
      } else {
        names := agents;
      }
    }
  }

  // ---------- the index over every run ----------

  datatype Op = Reg(node: AgentNode) | Unreg(node: AgentNode) | Rem(name: string)

  function Applied(r: Registry, op: Op): Registry {
    match op
    case Reg(node) => Registered(r, node)
    case Unreg(node) => Unregistered(r, node)
    case Rem(name) => Removed(r, name)
  }

  function After(ops: seq<Op>): Registry {
    if ops == [] then EMPTY else Applied(After(ops[..|ops| - 1]), ops[|ops| - 1])
  }

  /** The agent list is the set of recorded names; every recorded agent is in its own cluster's set. */
  predicate Indexed(r: Registry) {
    && r.agents == r.records.Keys
    && (forall n <- r.records :: r.records[n].name == n)
    && (forall n <- r.records :: n in Members(r, r.records[n].cluster) && r.records[n].cluster in r.clusters)
  }

  lemma {:induction false} AlwaysIndexed(ops: seq<Op>)
    ensures Indexed(After(ops))
  {
    if ops != [] {
      AlwaysIndexed(ops[..|ops| - 1]);
    }
  }

  /** The operation is about the agent. */
  predicate Concerns(op: Op, name: string) {
    match op
    case Reg(node) => node.name == name
    case Unreg(node) => node.name == name
    case Rem(n) => n == name
  }

  /** The agent was registered at a position of the run, and nothing concerned it afterwards. */
  predicate LastRegistered(ops: seq<Op>, i: int, name: string, node: AgentNode) {
    0 <= i < |ops| && ops[i] == Reg(node) && node.name == name && forall j | i < j < |ops| :: !Concerns(ops[j], name)
  }

  /** A record is what the agent was last registered with, address and workers and all, unless it left since. */
  lemma {:induction false} RecordsAreHistory(ops: seq<Op>, name: string, node: AgentNode)
    ensures name in After(ops).records && After(ops).records[name] == node <==>
            exists i :: LastRegistered(ops, i, name, node)
  {
    if ops != [] {
      var n := |ops| - 1;
      RecordsAreHistory(ops[..n], name, node);
      if Concerns(ops[n], name) {
        if ops[n] == Reg(node) {
          assert LastRegistered(ops, n, name, node);
        }
        if i :| LastRegistered(ops, i, name, node) {
          assert i == n;
        }
      } else {
        if i :| LastRegistered(ops, i, name, node) {
          assert LastRegistered(ops[..n], i, name, node);
        }
        if i :| LastRegistered(ops[..n], i, name, node) {
          assert LastRegistered(ops, i, name, node);
        }
      }
    }
  }

  /** The cluster list holds every cluster that ever had an agent, and is never shortened. */
  lemma {:induction false} ClustersAreHistory(ops: seq<Op>, cluster: string)
    ensures cluster in After(ops).clusters <==>
            exists i | 0 <= i < |ops| :: ops[i].Reg? && ops[i].node.cluster == cluster
  {
    if ops != [] {
      ClustersAreHistory(ops[..|ops| - 1], cluster);
    }
  }

  /** Each cluster's set is exactly the recorded agents of that cluster. */
  ghost predicate Exact(r: Registry) {
    forall c, n :: n in Members(r, c) <==> n in r.records && r.records[n].cluster == c
  }

  /** Registering keeps the sets exact exactly when the agent does not change cluster. */
  lemma RegisterExactly(r: Registry, node: AgentNode)
    requires Exact(r)
    ensures Exact(Registered(r, node)) <==> (node.name in r.records ==> r.records[node.name].cluster == node.cluster)
  {
    var r' := Registered(r, node);
    if node.name in r.records && r.records[node.name].cluster != node.cluster {
      var c := r.records[node.name].cluster;
      assert node.name in Members(r, c) && node.name in Members(r', c);
      assert r'.records[node.name].cluster != c;
    } else {
      forall c, n ensures n in Members(r', c) <==> n in r'.records && r'.records[n].cluster == c {
        assert n in Members(r, c) <==> n in r.records && r.records[n].cluster == c;
      }
    }
  }

  /** Unregistering keeps them exact exactly when it names the recorded cluster, or there is no record. */
  lemma UnregisterExactly(r: Registry, node: AgentNode)
    requires Exact(r)
    ensures Exact(Unregistered(r, node)) <==> (node.name in r.records ==> r.records[node.name].cluster == node.cluster)
  {
    var r' := Unregistered(r, node);
    if node.name in r.records && r.records[node.name].cluster != node.cluster {
      var c := r.records[node.name].cluster;
      assert node.name in Members(r, c) && node.name in Members(r', c);
    } else {
      forall c, n ensures n in Members(r', c) <==> n in r'.records && r'.records[n].cluster == c {
        assert n in Members(r, c) <==> n in r.records && r.records[n].cluster == c;
      }
    }
  }

  /** Removing by name keeps them exact exactly when there was nothing to remove. */
  lemma RemoveExactly(r: Registry, name: string)
    requires Exact(r)
    ensures Exact(Removed(r, name)) <==> name !in r.records
  {
    if name in r.records {
      assert name in Members(r, r.records[name].cluster);
      assert name in Members(Removed(r, name), r.records[name].cluster);
    } else {
      assert Removed(r, name).records == r.records;
      assert Exact(Removed(r, name)) by {
        forall c, n ensures n in Members(Removed(r, name), c) <==> n in r.records && r.records[n].cluster == c {
          assert Members(Removed(r, name), c) == Members(r, c);
        }
      }
    }
  }

  /** The agent keeps its cluster, or leaves with it by `unregister`. */
  predicate KeepsExact(r: Registry, op: Op) {
    match op
    case Reg(node) => node.name in r.records ==> r.records[node.name].cluster == node.cluster
    case Unreg(node) => node.name in r.records ==> r.records[node.name].cluster == node.cluster
    case Rem(name) => name !in r.records
  }

  lemma StepKeepsExactly(r: Registry, op: Op)
    requires Exact(r)
    ensures Exact(Applied(r, op)) <==> KeepsExact(r, op)
  {
    match op
    case Reg(node) => RegisterExactly(r, node);
    case Unreg(node) => UnregisterExactly(r, node);
    case Rem(name) => RemoveExactly(r, name);
  }

  /** The agents of a run keep their cluster, and leave with it and by `unregister` only. */
  predicate Faithful(ops: seq<Op>) {
    forall i | 0 <= i < |ops| :: KeepsExact(After(ops[..i]), ops[i])
  }

  /** Every state of a run has exact cluster sets. */
  ghost predicate AlwaysExact(ops: seq<Op>) {
    forall i | 0 <= i <= |ops| :: Exact(After(ops[..i]))
  }

  /** The cluster sets are exact all through a run exactly when the run is faithful. */
  lemma {:induction false} FaithfulRunsAreExact(ops: seq<Op>)
    ensures AlwaysExact(ops) <==> Faithful(ops)
  {
    if ops == [] {
      assert ops[..0] == [];
    } else {
      hide Exact, KeepsExact, Applied, AlwaysExact, Faithful;
      var n := |ops| - 1;
      FaithfulRunsAreExact(ops[..n]);
      ExactLast(ops, n);
      FaithfulLast(ops, n);
      if AlwaysExact(ops[..n]) {
        StepKeepsExactly(After(ops[..n]), ops[n]);
      }
    }
  }

  lemma ExactLast(ops: seq<Op>, n: nat)
    requires |ops| == n + 1
    ensures AlwaysExact(ops) <==> AlwaysExact(ops[..n]) && Exact(After(ops))
    ensures AlwaysExact(ops[..n]) ==> Exact(After(ops[..n]))
  {
    hide Exact, After;
    var before := ops[..n];
    assert forall i | 0 <= i <= n :: before[..i] == ops[..i];
    assert ops[..n + 1] == ops && before[..n] == before;
  }

  lemma FaithfulLast(ops: seq<Op>, n: nat)
    requires |ops| == n + 1
    ensures Faithful(ops) <==> Faithful(ops[..n]) && KeepsExact(After(ops[..n]), ops[n])
  {
    hide KeepsExact, After;
    var before := ops[..n];
    assert forall i | 0 <= i < n :: before[..i] == ops[..i] && before[i] == ops[i];
  }
}

/** Grouping workers by agent, and the least idle time of an agent's workers. */
module IdleAgents {
  import opened Wrappers
  import opened Text

  datatype Worker = Worker(name: string, inactive: int)

  /** `w.name.split(".")[0]` */
  function AgentOf(w: Worker): string { w.name[..Find(w.name, '.')] }

  /** The workers of one agent, in order. */
  function WorkersOf(workers: seq<Worker>, agent: string): seq<Worker> {
    if workers == [] then []
    else WorkersOf(workers[..|workers| - 1], agent) +
         (if AgentOf(workers[|workers| - 1]) == agent then [workers[|workers| - 1]] else [])
  }

  /** For a name without dots these are the workers called like the agent or "agent.something". */
  lemma AgentOfMeansPrefix(w: Worker, agent: string)
    requires '.' !in agent
    ensures AgentOf(w) == agent <==> w.name == agent || agent + "." <= w.name
  {
    var i := Find(w.name, '.');
    if agent + "." <= w.name {
      var rest := w.name[|agent| + 1..];
      assert w.name == agent + ['.'] + rest;
      FindFirst(agent, '.', rest);
    }
    if w.name[..i] == agent && i < |w.name| {
      assert (agent + ".")[|agent|] == w.name[|agent|];
    }
    assert i < |w.name| ==> w.name[i] in w.name;
  }

  method Workers2Dict(workers: seq<Worker>) returns (dict: map<string, seq<Worker>>)
    ensures forall a :: a in dict <==> WorkersOf(workers, a) != []
    ensures forall a <- dict :: dict[a] == WorkersOf(workers, a)
  {
    dict := map[];
    for i := 0 to |workers|
      invariant forall a :: a in dict <==> WorkersOf(workers[..i], a) != []
      invariant forall a <- dict :: dict[a] == WorkersOf(workers[..i], a)
    {
      var w := workers[i];
      assert workers[..i + 1][..i] == workers[..i];
      var agent := AgentOf(w);
      if agent in dict && dict[agent] != [] {
        dict := dict[agent := dict[agent] + [w]];
      } else {
        dict := dict[agent := [w]];
      }
    }
    assert workers[..|workers|] == workers;
  }

  /** A group keeps the order: grouping a list is grouping its parts, one after the other. */
  lemma {:induction false} GroupsKeepOrder(a: seq<Worker>, b: seq<Worker>, agent: string)
    ensures WorkersOf(a + b, agent) == WorkersOf(a, agent) + WorkersOf(b, agent)
  {
    if b == [] {
      assert a + b == a;
    } else {
      var n := |b| - 1;
      assert (a + b)[..|a + b| - 1] == a + b[..n];
      GroupsKeepOrder(a, b[..n], agent);
      hide AgentOf;
    }
  }

  /** Grouping loses and invents nothing: a group is the subsequence of its agent's workers, with all repetitions. */
  lemma {:induction false} GroupsPartition(workers: seq<Worker>, agent: string, w: Worker)
    ensures multiset(WorkersOf(workers, agent))[w] == if AgentOf(w) == agent then multiset(workers)[w] else 0
  {
    if workers != [] {
      var before, last := workers[..|workers| - 1], workers[|workers| - 1];
      GroupsPartition(before, agent, w);
      assert workers == before + [last];
      OneMore(workers, before, last, w);
      if AgentOf(last) == agent {
        OneMore(WorkersOf(workers, agent), WorkersOf(before, agent), last, w);
      } else {
        assert WorkersOf(workers, agent) == WorkersOf(before, agent);
      }
    }
  }

  lemma OneMore(whole: seq<Worker>, before: seq<Worker>, last: Worker, w: Worker)
    requires whole == before + [last]
    ensures multiset(whole)[w] == multiset(before)[w] + if last == w then 1 else 0
  {
  }

  lemma InGroup(workers: seq<Worker>, agent: string, w: Worker)
    ensures w in WorkersOf(workers, agent) <==> w in workers && AgentOf(w) == agent
  {
    GroupsPartition(workers, agent, w);
    assert w in WorkersOf(workers, agent) <==> multiset(WorkersOf(workers, agent))[w] > 0;
    assert w in workers <==> multiset(workers)[w] > 0;
  }

  method Least(ws: seq<Worker>) returns (m: int)
    requires ws != []
    ensures exists w <- ws :: w.inactive == m
    ensures forall w <- ws :: m <= w.inactive
  {
    m := ws[0].inactive;
    for i := 1 to |ws|
      invariant exists w <- ws :: w.inactive == m
      invariant forall j | 0 <= j < i :: m <= ws[j].inactive
    {
      if ws[i].inactive < m {
        m := ws[i].inactive;
      }
    }
  }

  function Flatten(queues: seq<seq<Worker>>): seq<Worker> {
    if queues == [] then [] else Flatten(queues[..|queues| - 1]) + queues[|queues| - 1]
  }

  lemma {:induction false} InSomeQueue(queues: seq<seq<Worker>>, w: Worker)
    ensures w in Flatten(queues) <==> exists q <- queues :: w in q
  {
    if queues != [] {
      var n := |queues| - 1;
      InSomeQueue(queues[..n], w);
      assert queues == queues[..n] + [queues[n]];
    }
  }

  /** `m` is the least inactive time, attained, over the agent's workers in all queues. */
  predicate IsLeastIdle(queues: seq<seq<Worker>>, agent: string, m: int) {
    && (exists q <- queues, w <- q :: AgentOf(w) == agent && w.inactive == m)
    && (forall q <- queues, w <- q :: AgentOf(w) == agent ==> m <= w.inactive)
  }

  /** The agent has a worker in some queue. */
  predicate HasWorker(queues: seq<seq<Worker>>, agent: string) {
    exists q <- queues, w <- q :: AgentOf(w) == agent
  }

  method AllWorkers(queues: seq<seq<Worker>>) returns (workers: seq<Worker>)
    ensures workers == Flatten(queues)
  {
    workers := [];
    for i := 0 to |queues|
      invariant workers == Flatten(queues[..i])
    {
      assert queues[..i + 1][..i] == queues[..i];
      workers := workers + queues[i];
    }
    assert queues[..|queues|] == queues;
  }

  /**
    `idle_agents`: minutes by agent. `None` is the key error raised for an agent
    without workers, and exactly such an agent makes the whole call fail.
   */
  method IdleTimes(agents: seq<string>, queues: seq<seq<Worker>>) returns (r: Option<map<string, real>>)
    ensures r.Some? <==> forall a <- agents :: HasWorker(queues, a)
    ensures r.Some? ==> forall a :: a in r.value <==> a in agents
    ensures r.Some? ==> forall a <- agents :: exists m :: IsLeastIdle(queues, a, m) && r.value[a] == m as real / 60.0
  {
    hide Flatten, WorkersOf, HasWorker, IsLeastIdle;
    var workers := AllWorkers(queues);
    var dict := Workers2Dict(workers);
    var idle: map<string, real> := map[];
    for i := 0 to |agents|
      invariant forall a :: a in idle <==> a in agents[..i]
      invariant forall a <- agents[..i] :: HasWorker(queues, a)
      invariant forall a <- agents[..i] :: exists m :: IsLeastIdle(queues, a, m) && idle[a] == m as real / 60.0
    {
      var agt := agents[i];
      GroupOf(queues, agt);
      if agt !in dict {
        assert agt in agents && !HasWorker(queues, agt);
        return None;
      }
      var minimum := Least(dict[agt]);
      LeastOfGroup(queues, agt, minimum);
      idle := idle[agt := minimum as real / 60.0];
      assert agents[..i + 1] == agents[..i] + [agt];
    }
    assert agents[..|agents|] == agents;
    return Some(idle);
  }

  lemma InGroupOf(queues: seq<seq<Worker>>, agent: string, w: Worker)
    ensures w in WorkersOf(Flatten(queues), agent) <==> AgentOf(w) == agent && exists q <- queues :: w in q
  {
    InGroup(Flatten(queues), agent, w);
    InSomeQueue(queues, w);
  }

  lemma GroupOf(queues: seq<seq<Worker>>, agent: string)
    ensures WorkersOf(Flatten(queues), agent) != [] <==> HasWorker(queues, agent)
  {
    hide Flatten, WorkersOf, AgentOf;
    var group := WorkersOf(Flatten(queues), agent);
    if group != [] {
      InGroupOf(queues, agent, group[0]);
    }
    if q, w :| q in queues && w in q && AgentOf(w) == agent {
      InGroupOf(queues, agent, w);
    }
  }

  lemma LeastOfGroup(queues: seq<seq<Worker>>, agent: string, m: int)
    requires var group := WorkersOf(Flatten(queues), agent);
             (exists w <- group :: w.inactive == m) && (forall w <- group :: m <= w.inactive)
    ensures IsLeastIdle(queues, agent, m)
  {
    hide Flatten, WorkersOf, AgentOf;
    var w :| w in WorkersOf(Flatten(queues), agent) && w.inactive == m;
    InGroupOf(queues, agent, w);
    forall q <- queues, x <- q | AgentOf(x) == agent ensures m <= x.inactive {
      InGroupOf(queues, agent, x);
    }
  }

  /** An agent whose own name holds a dot is never found, although the agent names its workers after itself. */
  lemma DottedAgentsAreNeverFound(queues: seq<seq<Worker>>, agent: string)
    requires '.' in agent
    ensures !HasWorker(queues, agent)
  {
    forall w: Worker ensures AgentOf(w) != agent {
      assert '.' !in AgentOf(w);
    }
  }
}
