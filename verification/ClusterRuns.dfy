/**
  Create and destroy tasks interleaved step by step, any of which may stop for
  good between its two steps, and how far provider and registry can drift apart.
 */
module ClusterRuns {
  import opened Wrappers
  import opened Cluster

  /** A task is between its steps when it is `Created` or `Destroyed`. */
  datatype Task =
    | ToCreate(cluster: string)
    | Created(cluster: string, machine: MachineInstance)
    | ToDestroy(cluster: string, name: string)
    | Destroyed(cluster: string, name: string)
    | Finished

  datatype State = State(w: World, tasks: map<nat, Task>)

  /** A crashed task is one that gets no further action. */
  datatype Action =
    | RequestCreate(t: nat, cluster: string)
    | RequestDestroy(t: nat, cluster: string, name: string)
    | RunProvider(t: nat, id: string)
    | RunRegistry(t: nat)
    | GiveUp(t: nat)

  /** One action; an action that is not enabled changes nothing. */
  function Next(file: ClustersFile, s: State, a: Action): State {
    match a
    case RequestCreate(t, cluster) =>
      if t in s.tasks then s else s.(tasks := s.tasks[t := ToCreate(cluster)])
    case RequestDestroy(t, cluster, name) =>
      // The endpoint enqueues a destroy only for a machine with a record.
      if t in s.tasks || name !in s.w.records then s else s.(tasks := s.tasks[t := ToDestroy(cluster, name)])
    case RunProvider(t, id) =>
      if t !in s.tasks then s
      else if s.tasks[t].ToCreate? then
        match CreateMachine(file, s.w, s.tasks[t].cluster, id)
        case None => s
        case Some(done) => State(done.0, s.tasks[t := Created(s.tasks[t].cluster, done.1)])
      else if s.tasks[t].ToDestroy? then
        match DestroyMachine(file, s.w, s.tasks[t].cluster, s.tasks[t].name)
        case None => s
        case Some(w) => State(w, s.tasks[t := Destroyed(s.tasks[t].cluster, s.tasks[t].name)])
      else s
    case RunRegistry(t) =>
      if t !in s.tasks then s
      else if s.tasks[t].Created? then
        State(Register(s.w, s.tasks[t].machine, s.tasks[t].cluster), s.tasks[t := Finished])
      else if s.tasks[t].Destroyed? then
        State(Unregister(s.w, s.tasks[t].name, s.tasks[t].cluster), s.tasks[t := Finished])
      else s
    case GiveUp(t) =>
      // A failed first step is not retried any more.
      if t in s.tasks && (s.tasks[t].ToCreate? || s.tasks[t].ToDestroy?) then s.(tasks := s.tasks[t := Finished]) else s
  }

  function Run(file: ClustersFile, s: State, actions: seq<Action>): State {
    if actions == [] then s else Next(file, Run(file, s, actions[..|actions| - 1]), actions[|actions| - 1])
  }

  const START := State(World(map[], map[], {}, map[]), map[])

  // ---------- what the callers promise ----------

  /** The name of the machine a task is between its steps about. */
  function Between(task: Task): Option<string> {
    match task
    case Created(_, m) => Some(m.machineName)
    case Destroyed(_, n) => Some(n)
    case _ => None
  }

  /** The name a pending task is about. */
  function About(task: Task): Option<string> {
    if task.ToDestroy? then Some(task.name) else Between(task)
  }

  predicate Fresh(s: State, name: string) {
    && name !in Existing(s.w) && name !in Registered(s.w)
    && forall t <- s.tasks :: About(s.tasks[t]) != Some(name)
  }

  /** New machines get fresh names. */
  predicate FreshNames(file: ClustersFile, s: State, a: Action) {
    a.RunProvider? && a.t in s.tasks && s.tasks[a.t].ToCreate? && KnownCluster(file, s.tasks[a.t].cluster) ==>
      Fresh(s, MachineName(file, s.tasks[a.t].cluster, a.id))
  }

  /** A destroy names the cluster that lists the machine. */
  predicate Aimed(s: State, a: Action) {
    a.RequestDestroy? && a.name in s.w.records ==> a.name in Members(s.w, a.cluster)
  }

  predicate FreshRun(file: ClustersFile, actions: seq<Action>) {
    forall i | 0 <= i < |actions| :: FreshNames(file, Run(file, START, actions[..i]), actions[i])
  }

  predicate AimedRun(file: ClustersFile, actions: seq<Action>) {
    forall i | 0 <= i < |actions| :: Aimed(Run(file, START, actions[..i]), actions[i])
  }

  // ---------- the invariant ----------

  /** The name a task stopped about, after its provider step: of a create or of a destroy. */
  function HalfName(task: Task, create: bool): Option<string> {
    if task.Created? == create then Between(task) else None
  }

  function Half(tasks: map<nat, Task>, create: bool): set<string> {
    set t <- tasks | HalfName(tasks[t], create).Some? :: HalfName(tasks[t], create).value
  }

  /** The names of the machines whose create stopped between its steps. */
  function HalfCreated(tasks: map<nat, Task>): set<string> { Half(tasks, true) }

  /** The names of the machines whose destroy stopped between its steps. */
  function HalfDestroyed(tasks: map<nat, Task>): set<string> { Half(tasks, false) }

  /** No two tasks are between their steps about the same machine. */
  predicate OneTaskEach(tasks: map<nat, Task>) {
    forall t <- tasks, t' <- tasks :: Between(tasks[t]).Some? && Between(tasks[t]) == Between(tasks[t']) ==> t == t'
  }

  /** The two stores differ exactly by the tasks between their steps, each about its own machine. */
  predicate StoresAgree(s: State) {
    && Existing(s.w) - Registered(s.w) == HalfCreated(s.tasks)
    && Registered(s.w) - Existing(s.w) == HalfDestroyed(s.tasks)
    && OneTaskEach(s.tasks)
  }

  /** Every record is listed by one cluster, and every listed name has a record. */
  predicate ListsAgree(w: World) {
    && (forall c <- w.members, n <- w.members[c] :: n in w.records)
    && (forall c <- w.members, c' <- w.members, n <- w.members[c] :: n in w.members[c'] ==> c == c')
    && (forall n <- w.records :: exists c :: c in w.members && n in w.members[c])
    && (forall c <- w.members :: w.members[c] != {} ==> c in w.clusterNames)
  }

  /** No name is in use at two places. */
  predicate OnePlaceEach(w: World) {
    forall p <- w.machines, q <- w.machines :: p.name == q.name ==> p == q
  }

  /** A pending destroy is about a machine its cluster lists, or one that is gone altogether. */
  predicate DestroysAimed(s: State) {
    forall t <- s.tasks ::
      && (s.tasks[t].ToDestroy? ==>
            || s.tasks[t].name in Members(s.w, s.tasks[t].cluster)
            || (s.tasks[t].name !in s.w.records && s.tasks[t].name !in Existing(s.w)))
      && (s.tasks[t].Destroyed? ==> s.tasks[t].name in Members(s.w, s.tasks[t].cluster))
  }

  /** A pending destroy is of a machine with a record, or of one that is gone. */
  predicate DestroysKnown(s: State) {
    forall t <- s.tasks :: s.tasks[t].ToDestroy? ==> s.tasks[t].name in s.w.records || s.tasks[t].name !in Existing(s.w)
  }

  /** What fresh names keep. */
  predicate StoresInv(s: State) {
    StoresAgree(s) && OnePlaceEach(s.w) && DestroysKnown(s)
  }

  /** What aimed destroys keep as well. */
  predicate ListsInv(s: State) {
    ListsAgree(s.w) && DestroysAimed(s)
  }

  // ---------- every action keeps it ----------

  function SetOf(o: Option<string>): set<string> {
    if o.Some? then {o.value} else {}
  }

  lemma HalfUpdate(tasks: map<nat, Task>, t: nat, x: Task, create: bool)
    requires OneTaskEach(tasks)
    ensures Half(tasks[t := x], create) ==
            (Half(tasks, create) - (if t in tasks then SetOf(HalfName(tasks[t], create)) else {}))
            + SetOf(HalfName(x, create))
  {
    var tasks' := tasks[t := x];
    var gone := if t in tasks then SetOf(HalfName(tasks[t], create)) else {};
    forall n | n in Half(tasks', create)
      ensures n in (Half(tasks, create) - gone) + SetOf(HalfName(x, create))
    {
      var u :| u in tasks' && HalfName(tasks'[u], create) == Some(n);
      if u != t {
        assert u in tasks && HalfName(tasks[u], create) == Some(n);
      }
    }
    forall n | n in (Half(tasks, create) - gone) + SetOf(HalfName(x, create))
      ensures n in Half(tasks', create)
    {
      if n in SetOf(HalfName(x, create)) {
        assert t in tasks' && HalfName(tasks'[t], create) == Some(n);
      } else {
        var u :| u in tasks && HalfName(tasks[u], create) == Some(n);
        assert u in tasks' && HalfName(tasks'[u], create) == Some(n);
      }
    }
  }

  /** What a step does to the names in both stores, given what it does to its task. */
  lemma TaskStep(s: State, t: nat, x: Task)
    requires StoresAgree(s)
    requires Between(x).Some? ==> forall u <- s.tasks | u != t :: Between(s.tasks[u]) != Between(x)
    ensures var tasks' := s.tasks[t := x];
            var before := if t in s.tasks then s.tasks[t] else Finished;
            && HalfCreated(tasks') == (HalfCreated(s.tasks) - SetOf(HalfName(before, true))) + SetOf(HalfName(x, true))
            && HalfDestroyed(tasks')
               == (HalfDestroyed(s.tasks) - SetOf(HalfName(before, false))) + SetOf(HalfName(x, false))
            && OneTaskEach(tasks')
  {
    HalfUpdate(s.tasks, t, x, true);
    HalfUpdate(s.tasks, t, x, false);
  }

  lemma InHalf(tasks: map<nat, Task>, t: nat, create: bool)
    requires t in tasks && HalfName(tasks[t], create).Some?
    ensures HalfName(tasks[t], create).value in Half(tasks, create)
  {
  }

  lemma ExistingAfterCreate(w: World, p: Place, m: MachineInstance)
    ensures Existing(w.(machines := w.machines[p := m])) == Existing(w) + {p.name}
  {
    var w' := w.(machines := w.machines[p := m]);
    assert w'.machines.Keys == w.machines.Keys + {p};
    assert p in w'.machines;
  }

  lemma ExistingAfterDestroy(w: World, p: Place)
    requires p in w.machines
    requires forall q <- w.machines | q.name == p.name :: q == p
    ensures Existing(w.(machines := w.machines - {p})) == Existing(w) - {p.name}
  {
    var w' := w.(machines := w.machines - {p});
    forall n | n in Existing(w) - {p.name} ensures n in Existing(w') {
      var q :| q in w.machines && q.name == n;
      assert q in w'.machines;
    }
  }

  lemma RequestStores(file: ClustersFile, s: State, a: Action)
    requires StoresAgree(s)
    requires a.RequestCreate? || a.RequestDestroy? || a.GiveUp?
    ensures StoresAgree(Next(file, s, a))
  {
    var s' := Next(file, s, a);
    if s' != s {
      TaskStep(s, a.t, s'.tasks[a.t]);
    }
  }

  lemma StoresAfterRequest(file: ClustersFile, s: State, a: Action)
    requires StoresInv(s)
    requires a.RequestCreate? || a.RequestDestroy? || a.GiveUp?
    ensures StoresInv(Next(file, s, a))
  {
    RequestStores(file, s, a);
    hide StoresAgree, Existing;
  }

  lemma ListsAfterRequest(file: ClustersFile, s: State, a: Action)
    requires ListsInv(s) && Aimed(s, a)
    requires a.RequestCreate? || a.RequestDestroy? || a.GiveUp?
    ensures ListsInv(Next(file, s, a))
  {
    hide ListsAgree, Members, Existing;
  }

  lemma ExistingAfterStep(file: ClustersFile, s: State, t: nat, id: string)
    requires t in s.tasks && s.tasks[t].ToCreate?
    ensures var r := CreateMachine(file, s.w, s.tasks[t].cluster, id);
            r.Some? ==>
              && r.value.1.machineName == MachineName(file, s.tasks[t].cluster, id)
              && Existing(r.value.0) == Existing(s.w) + {r.value.1.machineName}
  {
    var c := s.tasks[t].cluster;
    var r := CreateMachine(file, s.w, c, id);
    if r.Some? {
      var m := r.value.1;
      var site := file.providers[file.machines[file.clusters[c].machine].provider];
      ExistingAfterCreate(s.w, Place(site, m.machineName), m);
    }
  }

  lemma CreateStores(file: ClustersFile, s: State, t: nat, id: string)
    requires StoresAgree(s) && FreshNames(file, s, RunProvider(t, id))
    requires t in s.tasks && s.tasks[t].ToCreate?
    ensures StoresAgree(Next(file, s, RunProvider(t, id)))
  {
    var c := s.tasks[t].cluster;
    var r := CreateMachine(file, s.w, c, id);
    ExistingAfterStep(file, s, t, id);
    if r.Some? {
      TaskStep(s, t, Created(c, r.value.1));
    }
  }

  lemma CreatePlaced(file: ClustersFile, s: State, t: nat, id: string)
    requires OnePlaceEach(s.w) && FreshNames(file, s, RunProvider(t, id))
    requires t in s.tasks && s.tasks[t].ToCreate?
    ensures OnePlaceEach(Next(file, s, RunProvider(t, id)).w)
  {
    assert forall p <- s.w.machines :: p.name in Existing(s.w);
  }

  lemma StoresAfterCreate(file: ClustersFile, s: State, t: nat, id: string)
    requires StoresInv(s) && FreshNames(file, s, RunProvider(t, id))
    requires t in s.tasks && s.tasks[t].ToCreate?
    ensures StoresInv(Next(file, s, RunProvider(t, id)))
  {
    CreateStores(file, s, t, id);
    CreatePlaced(file, s, t, id);
    ExistingAfterStep(file, s, t, id);
    hide StoresAgree, OnePlaceEach, Existing;
  }

  lemma ListsAfterCreate(file: ClustersFile, s: State, t: nat, id: string)
    requires ListsInv(s) && FreshNames(file, s, RunProvider(t, id))
    requires t in s.tasks && s.tasks[t].ToCreate?
    ensures ListsInv(Next(file, s, RunProvider(t, id)))
  {
    ExistingAfterStep(file, s, t, id);
    hide ListsAgree, Existing;
  }

  lemma RegisterStores(file: ClustersFile, s: State, t: nat)
    requires StoresAgree(s) && t in s.tasks && s.tasks[t].Created?
    ensures StoresAgree(Next(file, s, RunRegistry(t)))
    ensures s.tasks[t].machine.machineName in Existing(s.w) - Registered(s.w)
  {
    InHalf(s.tasks, t, true);
    TaskStep(s, t, Finished);
  }

  lemma StoresAfterRegister(file: ClustersFile, s: State, t: nat)
    requires StoresInv(s) && t in s.tasks && s.tasks[t].Created?
    ensures StoresInv(Next(file, s, RunRegistry(t)))
  {
    RegisterStores(file, s, t);
    hide StoresAgree;
  }

  lemma ListsAfterRegister(file: ClustersFile, s: State, t: nat)
    requires StoresInv(s) && ListsInv(s) && t in s.tasks && s.tasks[t].Created?
    ensures ListsInv(Next(file, s, RunRegistry(t)))
  {
    RegisterStores(file, s, t);
    RegisterKeepsLists(s.w, s.tasks[t].machine, s.tasks[t].cluster);
    RegisterAimed(file, s, t);
    hide StoresAgree, ListsAgree, DestroysAimed, Register;
  }

  lemma RegisterAimed(file: ClustersFile, s: State, t: nat)
    requires DestroysAimed(s) && t in s.tasks && s.tasks[t].Created?
    requires s.tasks[t].machine.machineName in Existing(s.w) - Registered(s.w)
    ensures DestroysAimed(Next(file, s, RunRegistry(t)))
  {
  }

  lemma RegisterKeepsLists(w: World, m: MachineInstance, c: string)
    requires ListsAgree(w) && m.machineName !in w.records
    ensures ListsAgree(Register(w, m, c))
  {
    var w' := Register(w, m, c);
    var n := m.machineName;
    forall x | x in w'.records ensures exists c' :: c' in w'.members && x in w'.members[c'] {
      if x == n {
        assert n in w'.members[c];
      } else {
        var c' :| c' in w.members && x in w.members[c'];
        assert x in w'.members[c'];
      }
    }
  }

  /** A destroy that succeeds is of a machine that both stores have, and of its only place. */
  lemma DestroyedWasWhole(file: ClustersFile, s: State, t: nat)
    requires OnePlaceEach(s.w) && DestroysKnown(s)
    requires t in s.tasks && s.tasks[t].ToDestroy?
    requires DestroyMachine(file, s.w, s.tasks[t].cluster, s.tasks[t].name).Some?
    ensures var n := s.tasks[t].name;
            && n in Existing(s.w) && n in Registered(s.w)
            && Existing(DestroyMachine(file, s.w, s.tasks[t].cluster, n).value) == Existing(s.w) - {n}
  {
    var c, n := s.tasks[t].cluster, s.tasks[t].name;
    var place := Place(file.providers[file.clusters[c].provider], n);
    assert place in s.w.machines && n in Existing(s.w);
    ExistingAfterDestroy(s.w, place);
  }

  /** A machine that both stores have is not between the steps of a task. */
  lemma NoneBetweenAbout(s: State, n: string)
    requires StoresAgree(s) && n in Existing(s.w) && n in Registered(s.w)
    ensures forall u <- s.tasks :: Between(s.tasks[u]) != Some(n)
  {
    hide Existing;
    forall u <- s.tasks | Between(s.tasks[u]).Some?
      ensures Between(s.tasks[u]).value in HalfCreated(s.tasks) + HalfDestroyed(s.tasks)
    {
      InHalf(s.tasks, u, s.tasks[u].Created?);
    }
  }

  lemma DestroyStores(file: ClustersFile, s: State, t: nat, id: string)
    requires StoresInv(s) && t in s.tasks && s.tasks[t].ToDestroy?
    ensures StoresAgree(Next(file, s, RunProvider(t, id)))
  {
    var c, n := s.tasks[t].cluster, s.tasks[t].name;
    if DestroyMachine(file, s.w, c, n).Some? {
      DestroyedWasWhole(file, s, t);
      hide OnePlaceEach, DestroysKnown, Existing;
      NoneBetweenAbout(s, n);
      TaskStep(s, t, Destroyed(c, n));
    }
  }

  lemma StoresAfterDestroy(file: ClustersFile, s: State, t: nat, id: string)
    requires StoresInv(s) && t in s.tasks && s.tasks[t].ToDestroy?
    ensures StoresInv(Next(file, s, RunProvider(t, id)))
  {
    DestroyStores(file, s, t, id);
    DestroyKnown(file, s, t, id);
    hide StoresAgree, DestroysKnown;
  }

  lemma DestroyKnown(file: ClustersFile, s: State, t: nat, id: string)
    requires OnePlaceEach(s.w) && DestroysKnown(s) && t in s.tasks && s.tasks[t].ToDestroy?
    ensures DestroysKnown(Next(file, s, RunProvider(t, id)))
  {
    if DestroyMachine(file, s.w, s.tasks[t].cluster, s.tasks[t].name).Some? {
      DestroyedWasWhole(file, s, t);
      hide OnePlaceEach, Existing;
    }
  }

  lemma ListsAfterDestroy(file: ClustersFile, s: State, t: nat, id: string)
    requires StoresInv(s) && ListsInv(s) && t in s.tasks && s.tasks[t].ToDestroy?
    ensures ListsInv(Next(file, s, RunProvider(t, id)))
  {
    hide StoresAgree;
    if DestroyMachine(file, s.w, s.tasks[t].cluster, s.tasks[t].name).Some? {
      DestroyedWasWhole(file, s, t);
      hide OnePlaceEach, DestroysKnown, ListsAgree, Existing;
    }
  }

  lemma UnregisterStores(file: ClustersFile, s: State, t: nat)
    requires StoresAgree(s) && t in s.tasks && s.tasks[t].Destroyed?
    ensures StoresAgree(Next(file, s, RunRegistry(t)))
    ensures s.tasks[t].name in Registered(s.w) - Existing(s.w)
  {
    InHalf(s.tasks, t, false);
    TaskStep(s, t, Finished);
  }

  lemma StoresAfterUnregister(file: ClustersFile, s: State, t: nat)
    requires StoresInv(s) && t in s.tasks && s.tasks[t].Destroyed?
    ensures StoresInv(Next(file, s, RunRegistry(t)))
  {
    UnregisterStores(file, s, t);
    hide StoresAgree;
  }

  lemma ListsAfterUnregister(file: ClustersFile, s: State, t: nat)
    requires StoresInv(s) && ListsInv(s) && t in s.tasks && s.tasks[t].Destroyed?
    ensures ListsInv(Next(file, s, RunRegistry(t)))
  {
    UnregisterStores(file, s, t);
    UnregisterAimed(file, s, t);
    UnregisterKeepsLists(s.w, s.tasks[t].name, s.tasks[t].cluster);
    hide StoresAgree, ListsAgree, DestroysAimed, Unregister;
  }

  lemma UnregisterAimed(file: ClustersFile, s: State, t: nat)
    requires DestroysAimed(s) && OneTaskEach(s.tasks) && t in s.tasks && s.tasks[t].Destroyed?
    requires s.tasks[t].name in Registered(s.w) - Existing(s.w)
    ensures DestroysAimed(Next(file, s, RunRegistry(t)))
  {
    var s' := Next(file, s, RunRegistry(t));
    var n := s.tasks[t].name;
    forall u <- s'.tasks | s'.tasks[u].Destroyed? ensures s'.tasks[u].name in Members(s'.w, s'.tasks[u].cluster) {
      assert s.tasks[u] == s'.tasks[u] && Between(s.tasks[u]) == Some(s.tasks[u].name);
      assert s.tasks[u].name != n;
    }
  }

  lemma UnregisterKeepsLists(w: World, n: string, c: string)
    requires ListsAgree(w) && n in Members(w, c)
    ensures ListsAgree(Unregister(w, n, c))
  {
    var w' := Unregister(w, n, c);
    forall x | x in w'.records ensures exists c' :: c' in w'.members && x in w'.members[c'] {
      var c' :| c' in w.members && x in w.members[c'];
      assert x in w'.members[c'];
    }
  }

  lemma NextKeepsStores(file: ClustersFile, s: State, a: Action)
    requires StoresInv(s) && FreshNames(file, s, a)
    ensures StoresInv(Next(file, s, a))
  {
    match a
    case RequestCreate(_, _) => StoresAfterRequest(file, s, a);
    case RequestDestroy(_, _, _) => StoresAfterRequest(file, s, a);
    case GiveUp(_) => StoresAfterRequest(file, s, a);
    case RunProvider(t, id) =>
      if t in s.tasks && s.tasks[t].ToCreate? { StoresAfterCreate(file, s, t, id); }
      else if t in s.tasks && s.tasks[t].ToDestroy? { StoresAfterDestroy(file, s, t, id); }
    case RunRegistry(t) =>
      if t in s.tasks && s.tasks[t].Created? { StoresAfterRegister(file, s, t); }
      else if t in s.tasks && s.tasks[t].Destroyed? { StoresAfterUnregister(file, s, t); }
  }

  lemma NextKeepsLists(file: ClustersFile, s: State, a: Action)
    requires StoresInv(s) && ListsInv(s) && FreshNames(file, s, a) && Aimed(s, a)
    ensures ListsInv(Next(file, s, a))
  {
    match a
    case RequestCreate(_, _) => ListsAfterRequest(file, s, a);
    case RequestDestroy(_, _, _) => ListsAfterRequest(file, s, a);
    case GiveUp(_) => ListsAfterRequest(file, s, a);
    case RunProvider(t, id) =>
      if t in s.tasks && s.tasks[t].ToCreate? { ListsAfterCreate(file, s, t, id); }
      else if t in s.tasks && s.tasks[t].ToDestroy? { ListsAfterDestroy(file, s, t, id); }
    case RunRegistry(t) =>
      if t in s.tasks && s.tasks[t].Created? { ListsAfterRegister(file, s, t); }
      else if t in s.tasks && s.tasks[t].Destroyed? { ListsAfterUnregister(file, s, t); }
  }

  // ---------- over every run ----------

  /** Fresh names keep the stores in step, and aimed destroys keep the lists as well. */
  lemma {:induction false} RunKeeps(file: ClustersFile, actions: seq<Action>)
    requires FreshRun(file, actions)
    ensures StoresInv(Run(file, START, actions))
    ensures AimedRun(file, actions) ==> ListsInv(Run(file, START, actions))
  {
    if actions != [] {
      hide StoresInv, ListsInv, FreshNames, Aimed, Next;
      var before, last := actions[..|actions| - 1], actions[|actions| - 1];
      assert forall i | 0 <= i < |before| :: before[..i] == actions[..i];
      RunKeeps(file, before);
      var s := Run(file, START, before);
      NextKeepsStores(file, s, last);
      if AimedRun(file, actions) {
        NextKeepsLists(file, s, last);
      }
    } else {
      assert Existing(START.w) == {};
    }
  }

  /** No task is between its steps, whether pending or crashed. */
  predicate NoneBetween(s: State) {
    forall t <- s.tasks :: Between(s.tasks[t]).None?
  }

  /**
    In every reachable state a machine that exists without a record has a create
    stopped between its steps and the other way round, a record without a
    machine has a destroy stopped between its steps and the other way round;
    with no such task the two stores name the same machines.
   */
  lemma StoresDifferByHalfTasks(file: ClustersFile, actions: seq<Action>, name: string)
    requires FreshRun(file, actions)
    ensures var s := Run(file, START, actions);
            && (name in Existing(s.w) && name !in Registered(s.w) <==>
                  exists t <- s.tasks :: s.tasks[t].Created? && s.tasks[t].machine.machineName == name)
            && (name in Registered(s.w) && name !in Existing(s.w) <==>
                  exists t <- s.tasks :: s.tasks[t].Destroyed? && s.tasks[t].name == name)
            && (NoneBetween(s) ==> Existing(s.w) == Registered(s.w))
  {
    RunKeeps(file, actions);
    var s := Run(file, START, actions);
    HalfMeans(s.tasks, name);
    if NoneBetween(s) {
      assert HalfCreated(s.tasks) == {} && HalfDestroyed(s.tasks) == {};
    }
  }

  lemma HalfMeans(tasks: map<nat, Task>, name: string)
    ensures name in HalfCreated(tasks) <==>
            exists t <- tasks :: tasks[t].Created? && tasks[t].machine.machineName == name
    ensures name in HalfDestroyed(tasks) <==> exists t <- tasks :: tasks[t].Destroyed? && tasks[t].name == name
  {
    if name in HalfCreated(tasks) {
      var t :| t in tasks && HalfName(tasks[t], true) == Some(name);
      assert tasks[t].Created?;
    }
    if name in HalfDestroyed(tasks) {
      var t :| t in tasks && HalfName(tasks[t], false) == Some(name);
      assert tasks[t].Destroyed?;
    }
    if t :| t in tasks && tasks[t].Created? && tasks[t].machine.machineName == name { InHalf(tasks, t, true); }
    if t :| t in tasks && tasks[t].Destroyed? && tasks[t].name == name { InHalf(tasks, t, false); }
  }

  /** Listing the clusters gives every registered machine once. */
  lemma ListingIsThePartition(file: ClustersFile, actions: seq<Action>, name: string)
    requires FreshRun(file, actions) && AimedRun(file, actions)
    ensures var w := Run(file, START, actions).w;
            && (name in Registered(w) <==> exists c <- w.clusterNames :: name in Members(w, c))
            && (forall c <- w.clusterNames, c' <- w.clusterNames ::
                  name in Members(w, c) && name in Members(w, c') ==> c == c')
  {
    RunKeeps(file, actions);
    hide Run, FreshRun, AimedRun, StoresInv, DestroysAimed;
    ListsPartition(Run(file, START, actions).w, name);
  }

  lemma ListsPartition(w: World, name: string)
    requires ListsAgree(w)
    ensures name in Registered(w) <==> exists c <- w.clusterNames :: name in Members(w, c)
    ensures forall c <- w.clusterNames, c' <- w.clusterNames ::
              name in Members(w, c) && name in Members(w, c') ==> c == c'
  {
    if name in Registered(w) {
      var c :| c in w.members && name in w.members[c];
      assert c in w.clusterNames && name in Members(w, c);
    }
  }

  // ---------- tasks complete ----------

  lemma RunThree(file: ClustersFile, s: State, a: Action, b: Action, c: Action)
    ensures Run(file, s, [a, b, c]) == Next(file, Next(file, Next(file, s, a), b), c)
  {
    var actions := [a, b, c];
    assert actions[..2] == [a, b] && actions[..2][..1] == [a] && actions[..1][..0] == [];
    assert Run(file, s, []) == s;
    assert Run(file, s, [a]) == Next(file, s, a);
    assert Run(file, s, [a, b]) == Next(file, Next(file, s, a), b);
  }

  /**
    From every state a create that is requested and gets both steps does what the uninterrupted
    task does: it finishes, and its machine is at the template's site, recorded and listed.
   */
  lemma CreateRuns(file: ClustersFile, s: State, t: nat, cluster: string, id: string)
    requires t !in s.tasks
    requires KnownCluster(file, cluster) && file.machines[file.clusters[cluster].machine].provider in file.providers
    ensures var s' := Run(file, s, [RequestCreate(t, cluster), RunProvider(t, id), RunRegistry(t)]);
            var template := file.machines[file.clusters[cluster].machine];
            var name := template.name + "-" + id;
            && s'.tasks == s.tasks[t := Finished]
            && Place(file.providers[template.provider], name) in s'.w.machines
            && name in s'.w.records
            && name in Members(s'.w, cluster)
            && CreatedAndRegistered(file, s.w, cluster, id).Some?
            && s'.w == CreatedAndRegistered(file, s.w, cluster, id).value.0
  {
    CreateCompletes(file, s.w, cluster, id);
    RunThree(file, s, RequestCreate(t, cluster), RunProvider(t, id), RunRegistry(t));
    hide Run, AgreeBut;
    var m := CreatedAndRegistered(file, s.w, cluster, id).value.1;
    assert s.tasks[t := ToCreate(cluster)][t := Created(cluster, m)][t := Finished] == s.tasks[t := Finished];
  }

  /** Likewise a destroy of a recorded machine at its cluster's site: machine, record and membership are gone. */
  lemma DestroyRuns(file: ClustersFile, s: State, t: nat, cluster: string, name: string, id: string)
    requires t !in s.tasks && name in s.w.records
    requires cluster in file.clusters && file.clusters[cluster].provider in file.providers
    requires Place(file.providers[file.clusters[cluster].provider], name) in s.w.machines
    ensures var s' := Run(file, s, [RequestDestroy(t, cluster, name), RunProvider(t, id), RunRegistry(t)]);
            && s'.tasks == s.tasks[t := Finished]
            && Place(file.providers[file.clusters[cluster].provider], name) !in s'.w.machines
            && (OnePlaceEach(s.w) ==> name !in Existing(s'.w))
            && name !in s'.w.records
            && name !in Members(s'.w, cluster)
            && DestroyedAndUnregistered(file, s.w, cluster, name) == Some(s'.w)
  {
    DestroyCompletes(file, s.w, cluster, name);
    RunThree(file, s, RequestDestroy(t, cluster, name), RunProvider(t, id), RunRegistry(t));
    hide Run;
    var tasks := s.tasks[t := ToDestroy(cluster, name)][t := Destroyed(cluster, name)];
    assert tasks[t := Finished] == s.tasks[t := Finished];
  }

  /**
    However the steps of other tasks are interleaved, the registry step completes the task it
    belongs to; a task that is not between its steps has none.
   */
  lemma RegistryCompletes(file: ClustersFile, s: State, t: nat)
    ensures var s' := Next(file, s, RunRegistry(t));
            if t in s.tasks && s.tasks[t].Created? then
              var m, c := s.tasks[t].machine, s.tasks[t].cluster;
              && s'.tasks == s.tasks[t := Finished]
              && s'.w.machines == s.w.machines
              && m.machineName in s'.w.records && s'.w.records[m.machineName] == m
              && m.machineName in Members(s'.w, c) && c in s'.w.clusterNames
            else if t in s.tasks && s.tasks[t].Destroyed? then
              && s'.tasks == s.tasks[t := Finished]
              && s'.w.machines == s.w.machines
              && s.tasks[t].name !in s'.w.records
              && s.tasks[t].name !in Members(s'.w, s.tasks[t].cluster)
            else s' == s
  {
  }

  /** A provider step takes its task between its steps exactly when the provider can do it, and else changes nothing. */
  lemma ProviderStepExactly(file: ClustersFile, s: State, t: nat, id: string)
    requires t in s.tasks && (s.tasks[t].ToCreate? || s.tasks[t].ToDestroy?)
    ensures var s' := Next(file, s, RunProvider(t, id));
            var cluster := s.tasks[t].cluster;
            var possible :=
              if s.tasks[t].ToCreate? then
                && cluster in file.clusters
                && file.clusters[cluster].machine in file.machines
                && file.machines[file.clusters[cluster].machine].provider in file.providers
              else
                && cluster in file.clusters
                && file.clusters[cluster].provider in file.providers
                && Place(file.providers[file.clusters[cluster].provider], s.tasks[t].name) in s.w.machines;
            && (Between(s'.tasks[t]).Some? <==> possible)
            && (!possible ==> s' == s)
            && s'.w.records == s.w.records && s'.w.members == s.w.members
  {
  }

  /** Giving up finishes exactly a task whose first step has not taken effect, and changes neither store. */
  lemma GivingUpExactly(file: ClustersFile, s: State, t: nat)
    requires t in s.tasks
    ensures var s' := Next(file, s, GiveUp(t));
            && s'.w == s.w
            && s'.tasks == s.tasks[t := if Between(s.tasks[t]).None? then Finished else s.tasks[t]]
  {
  }

  /** Requests change neither store; a destroy is enqueued exactly for a machine with a record. */
  lemma RequestsEnqueue(file: ClustersFile, s: State, t: nat, cluster: string, name: string)
    requires t !in s.tasks
    ensures Next(file, s, RequestCreate(t, cluster)) == State(s.w, s.tasks[t := ToCreate(cluster)])
    ensures Next(file, s, RequestDestroy(t, cluster, name)) ==
            if name in Registered(s.w) then State(s.w, s.tasks[t := ToDestroy(cluster, name)]) else s
  {
  }

  // ---------- where the promises matter ----------

  /** A destroy keeps the lists and the records in step exactly when it names the cluster that lists the machine. */
  lemma DestroyNamesItsCluster(file: ClustersFile, w: World, name: string, cluster: string)
    requires ListsAgree(w) && name in Registered(w)
    requires DestroyMachine(file, w, cluster, name).Some?
    ensures ListsAgree(Unregister(DestroyMachine(file, w, cluster, name).value, name, cluster)) <==>
            name in Members(w, cluster)
  {
    var w1 := DestroyMachine(file, w, cluster, name).value;
    var w2 := Unregister(w1, name, cluster);
    if name in Members(w, cluster) {
      UnregisterKeepsLists(w1, name, cluster);
    } else {
      var c :| c in w.members && name in w.members[c];
      assert c != cluster && name in w2.members[c] && name !in w2.records;
    }
  }

  /** A record whose machine is gone. */
  predicate Orphaned(s: State, name: string) {
    name in Registered(s.w) && name !in Existing(s.w)
  }

  /** The action neither resumes a destroy stopped between its steps for `name` nor creates `name` anew. */
  predicate LeavesAlone(file: ClustersFile, s: State, a: Action, name: string) {
    match a
    case RunRegistry(t) => t in s.tasks && s.tasks[t].Destroyed? ==> s.tasks[t].name != name
    case RunProvider(t, id) =>
      t in s.tasks && s.tasks[t].ToCreate? && KnownCluster(file, s.tasks[t].cluster) ==>
        MachineName(file, s.tasks[t].cluster, id) != name
    case _ => true
  }

  /**
    A destroy that crashed between its steps is never repaired: however many
    destroys of the machine are requested and run afterwards, each fails at the
    provider and the record stays.
   */
  lemma {:induction false} OrphansStay(file: ClustersFile, s: State, actions: seq<Action>, name: string)
    requires Orphaned(s, name)
    requires forall i | 0 <= i < |actions| :: LeavesAlone(file, Run(file, s, actions[..i]), actions[i], name)
    ensures Orphaned(Run(file, s, actions), name)
  {
    if actions != [] {
      var before := actions[..|actions| - 1];
      assert forall i | 0 <= i < |before| :: before[..i] == actions[..i];
      OrphansStay(file, s, before, name);
      OrphanStays(file, Run(file, s, before), actions[|actions| - 1], name);
    }
  }

  lemma OrphanStays(file: ClustersFile, s: State, a: Action, name: string)
    requires Orphaned(s, name) && LeavesAlone(file, s, a, name)
    ensures Orphaned(Next(file, s, a), name)
  {
    var s' := Next(file, s, a);
    assert forall p <- s'.w.machines :: p in s.w.machines || p.name != name;
    assert forall p <- s.w.machines :: p.name in Existing(s.w);
  }
}
