/**
  The client's labfile state, and pushing it to the server: `workflows_push` in
  its create mode, over the handlers of `WorkflowServer`.
 */
module WorkflowPush {
  import opened Wrappers
  import opened WorkflowServer

  type Workflows = map<string, WorkflowData>

  function DropKey(order: seq<string>, key: string): seq<string> {
    if order == [] then [] else (if order[0] == key then [] else [order[0]]) + DropKey(order[1..], key)
  }

  lemma {:induction false} DropKeyKeeps(order: seq<string>, key: string)
    requires forall i, j | 0 <= i < j < |order| :: order[i] != order[j]
    ensures var r := DropKey(order, key);
            && (forall k :: k in r <==> k in order && k != key)
            && (forall i, j | 0 <= i < j < |r| :: r[i] != r[j])
  {
    if order != [] {
      DropKeyKeeps(order[1..], key);
      assert order[0] !in order[1..];
      assert forall k :: k in order <==> k == order[0] || k in order[1..];
    }
  }

  /** Dropping a key closes the gap and moves nothing else. */
  lemma {:induction false} DropKeyCloses(order: seq<string>, key: string, i: nat)
    requires i < |order| && order[i] == key
    requires forall i, j | 0 <= i < j < |order| :: order[i] != order[j]
    ensures DropKey(order, key) == order[..i] + order[i + 1..]
  {
    if i == 0 {
      DropNothing(order[1..], key);
    } else {
      DropKeyCloses(order[1..], key, i - 1);
      assert order[..i] + order[i + 1..] == [order[0]] + (order[1..][..i - 1] + order[1..][i..]);
    }
  }

  lemma {:induction false} DropNothing(order: seq<string>, key: string)
    requires key !in order
    ensures DropKey(order, key) == order
  {
    if order != [] {
      DropNothing(order[1..], key);
    }
  }

  /** The labfile state: workflows by alias, in the order a dictionary keeps them. */
  class LabState {
    var project: string
    var workflows: Workflows
    var order: seq<string>

    constructor (project: string)
      ensures Valid() && this.project == project && workflows == map[]
    {
      this.project, workflows, order := project, map[], [];
    }

    ghost predicate Valid() reads this {
      && (forall k :: k in order <==> k in workflows)
      && (forall i, j | 0 <= i < j < |order| :: order[i] != order[j])
    }

    method AddWorkflow(wf: WorkflowData)
      requires Valid()
      modifies this`workflows, this`order
      ensures Valid() && workflows == old(workflows)[wf.alias := wf]
      ensures order == if wf.alias in old(workflows) then old(order) else old(order) + [wf.alias]
    {
      if wf.alias !in workflows {
        order := order + [wf.alias];
      }
      workflows := workflows[wf.alias := wf];
    }

    method DeleteWorkflow(alias: string) returns (ok: bool)
      requires Valid()
      modifies this`workflows, this`order
      ensures Valid() && ok == (alias in old(workflows)) && workflows == old(workflows) - {alias}
      ensures !ok ==> order == old(order)
      ensures forall i | 0 <= i < |old(order)| && old(order)[i] == alias ::
                order == old(order)[..i] + old(order)[i + 1..]
    {
      ok := alias in workflows;
      DropKeyKeeps(order, alias);
      if !ok {
        DropNothing(order, alias);
      }
      forall i | 0 <= i < |order| && order[i] == alias ensures DropKey(order, alias) == order[..i] + order[i + 1..] {
        DropKeyCloses(order, alias, i);
      }
      order := DropKey(order, alias);
      workflows := workflows - {alias};
    }

    /** The workflow at a position has the id, and none before it has. */
    ghost predicate IsFirstWith(i: int, wfid: Option<string>)
      requires Valid()
      reads this
    {
      && 0 <= i < |order|
      && workflows[order[i]].wfid == wfid
      && forall j | 0 <= j < i :: workflows[order[j]].wfid != wfid
    }

    /** The first workflow with the id, in the state's order. */
    method FindById(wfid: Option<string>) returns (r: Option<WorkflowData>)
      requires Valid()
      ensures r.Some? ==> exists i :: IsFirstWith(i, wfid) && r.value == workflows[order[i]]
      ensures r.None? <==> forall k <- workflows :: workflows[k].wfid != wfid
    {
      for i := 0 to |order|
        invariant forall j | 0 <= j < i :: workflows[order[j]].wfid != wfid
      {
        if workflows[order[i]].wfid == wfid {
          assert IsFirstWith(i, wfid);
          return Some(workflows[order[i]]);
        }
      }
      return None;
    }
  }

  // ---------- one workflow ----------

  /** What a push reports for a workflow the server created. */
  datatype Reported = Reported(alias: string, wfid: string)

  /** The two sides, and what was reported so far. */
  datatype Sides = Sides(db: Db, workflows: Workflows, created: seq<Reported>)

  function PushOne(s: Sides, project: string, wd: WorkflowData, drawn: string, refresh: bool): Sides {
    if !NoWfid(wd) then s
    else
      var (db, r) := Created(s.db, project, wd, drawn);
      if r.status != 201 then s.(db := db)
      else Sides(db, if refresh then s.workflows[wd.alias := wd.(wfid := r.wfid)] else s.workflows,
                 s.created + [Reported(wd.alias, drawn)])
  }

  /** The push of the workflows of a snapshot, one after the other; `draws` are the ids the server will draw. */
  function PushAll(s: Sides, project: string, wds: seq<WorkflowData>, draws: seq<string>, refresh: bool): Sides
    requires |draws| == |wds|
  {
    if wds == [] then s
    else
      var n := |wds| - 1;
      PushOne(PushAll(s, project, wds[..n], draws[..n], refresh), project, wds[n], draws[n], refresh)
  }

  /** The snapshot's workflows in dictionary order. */
  function InOrder(workflows: Workflows, order: seq<string>): seq<WorkflowData>
    requires forall k <- order :: k in workflows
  {
    seq(|order|, i requires 0 <= i < |order| => assert order[i] in order; workflows[order[i]])
  }

  /** A create answers "exists" or "created", never an error. */
  lemma CreateAnswers(db: Db, project: string, wd: WorkflowData, drawn: string)
    ensures Created(db, project, wd, drawn).1.status in {200, 201}
  {
  }

  lemma PushNothing(s: Sides, project: string, refresh: bool)
    ensures PushAll(s, project, [], [], refresh) == s
  {
  }

  lemma PushNext(s: Sides, project: string, wds: seq<WorkflowData>, draws: seq<string>, refresh: bool, i: nat)
    requires |draws| == |wds| && i < |wds|
    ensures PushAll(s, project, wds[..i + 1], draws[..i + 1], refresh) ==
            PushOne(PushAll(s, project, wds[..i], draws[..i], refresh), project, wds[i], draws[i], refresh)
  {
    assert wds[..i + 1][..i] == wds[..i] && draws[..i + 1][..i] == draws[..i];
  }

  /** `workflows_push` without `update`: with the server's own handlers no response is an error. */
  method WorkflowsPush(state: LabState, server: Server, refresh: bool, draws: seq<string>)
    returns (created: seq<Reported>, errors: seq<Reported>)
    requires state.Valid() && |draws| == |state.order|
    modifies state, server
    ensures state.Valid() && state.project == old(state.project)
    ensures var wds := InOrder(old(state.workflows), old(state.order));
            Sides(server.View(), state.workflows, created) ==
            PushAll(Sides(old(server.View()), old(state.workflows), []), old(state.project), wds, draws, refresh)
    ensures errors == []
  {
    hide Created, NoWfid, FreshDraws, PushAll, DropKey;
    var snapshot := InOrder(state.workflows, state.order);
    ghost var start := Sides(server.View(), state.workflows, []);
    created, errors := [], [];
    PushNothing(start, state.project, refresh);
    for i := 0 to |snapshot|
      invariant state.Valid() && state.project == old(state.project)
      invariant Sides(server.View(), state.workflows, created) ==
                PushAll(start, state.project, snapshot[..i], draws[..i], refresh)
      invariant errors == []
    {
      PushNext(start, state.project, snapshot, draws, refresh, i);
      var wd := snapshot[i];
      if NoWfid(wd) {
        CreateAnswers(server.View(), state.project, wd, draws[i]);
        var r := server.WorkflowCreate(state.project, wd, draws[i]);
        if r.status == 201 {
          created := created + [Reported(wd.alias, draws[i])];
          if refresh {
            state.AddWorkflow(wd.(wfid := r.wfid));
          }
        } else if r.status != 200 {
          errors := errors + [Reported(wd.alias, "")];
        }
      }
    }
    assert snapshot[..|snapshot|] == snapshot && draws[..|draws|] == draws;
  }

  // ---------- what a push does ----------

  predicate HasRow(rows: seq<Row>, project: string, alias: string, wfid: string) {
    exists r <- rows :: r.project == project && r.alias == alias && r.wfid == wfid
  }

  /** Everything reported as created is a new row, and the client holds its id if it asked to. */
  predicate Reflected(s0: Sides, s: Sides, project: string, refresh: bool) {
    && s0.db.rows <= s.db.rows
    && |s.db.rows| - |s0.db.rows| == |s.created| - |s0.created|
    && s0.created <= s.created
    && (forall i | |s0.created| <= i < |s.created| ::
          && HasRow(s.db.rows, project, s.created[i].alias, s.created[i].wfid)
          && (refresh ==>
                && s.created[i].alias in s.workflows
                && s.workflows[s.created[i].alias].wfid == Some(s.created[i].wfid)))
  }

  lemma ReflectedByOne(s0: Sides, s: Sides, project: string, wd: WorkflowData, drawn: string, refresh: bool)
    requires Reflected(s0, s, project, refresh)
    ensures Reflected(s0, PushOne(s, project, wd, drawn, refresh), project, refresh)
  {
    var s' := PushOne(s, project, wd, drawn, refresh);
    if |s'.created| > |s.created| {
      assert s'.db.rows[|s.db.rows|] in s'.db.rows;
      forall i | |s0.created| <= i < |s.created|
        ensures HasRow(s'.db.rows, project, s.created[i].alias, s.created[i].wfid)
        ensures s.created[i].alias != wd.alias
      {
        assert HasRow(s.db.rows, project, s.created[i].alias, s.created[i].wfid);
        var r :| r in s.db.rows && r.project == project && r.alias == s.created[i].alias && r.wfid == s.created[i].wfid;
        assert r in s'.db.rows;
      }
    }
  }

  /**
    A push adds exactly as many rows as it reports created, each reported id is
    the id of that alias's row, and with refreshing the client holds it.
   */
  lemma {:induction false} PushReflects(s: Sides, project: string, wds: seq<WorkflowData>,
                                        draws: seq<string>, refresh: bool)
    requires |draws| == |wds|
    ensures Reflected(s, PushAll(s, project, wds, draws, refresh), project, refresh)
  {
    if wds != [] {
      var n := |wds| - 1;
      PushReflects(s, project, wds[..n], draws[..n], refresh);
      ReflectedByOne(s, PushAll(s, project, wds[..n], draws[..n], refresh), project, wds[n], draws[n], refresh);
    }
  }

  /** The aliases reported created since `s0`. */
  function AliasesSince(s0: Sides, s: Sides): set<string> {
    set i | |s0.created| <= i < |s.created| :: s.created[i].alias
  }

  /** Refreshing adds the created aliases to the state's keys, and nothing else. */
  lemma {:induction false} PushKeys(s: Sides, project: string, wds: seq<WorkflowData>,
                                    draws: seq<string>, refresh: bool)
    requires |draws| == |wds|
    ensures var s' := PushAll(s, project, wds, draws, refresh);
            s'.workflows.Keys == s.workflows.Keys + (if refresh then AliasesSince(s, s') else {})
  {
    if wds != [] {
      var n := |wds| - 1;
      PushKeys(s, project, wds[..n], draws[..n], refresh);
      PushReflects(s, project, wds[..n], draws[..n], refresh);
      var before := PushAll(s, project, wds[..n], draws[..n], refresh);
      var after := PushAll(s, project, wds, draws, refresh);
      if |after.created| > |before.created| {
        assert AliasesSince(s, after) == AliasesSince(s, before) + {wds[n].alias} by {
          assert after.created[|before.created|].alias == wds[n].alias;
          forall a | a in AliasesSince(s, before) ensures a in AliasesSince(s, after) {
            var i :| |s.created| <= i < |before.created| && before.created[i].alias == a;
            assert after.created[i].alias == a;
          }
        }
      }
    }
  }

  /** Every workflow is filed under its own alias. */
  predicate Keyed(workflows: Workflows) {
    forall k <- workflows :: workflows[k].alias == k
  }

  /** A labfile keyed by alias keeps its keys, and stays keyed by alias. */
  lemma {:induction false} KeyedStatesKeepTheirKeys(s: Sides, project: string, wds: seq<WorkflowData>,
                                                    draws: seq<string>, refresh: bool)
    requires |draws| == |wds| && Keyed(s.workflows)
    requires forall wd <- wds :: wd.alias in s.workflows
    ensures var s' := PushAll(s, project, wds, draws, refresh);
            s'.workflows.Keys == s.workflows.Keys && Keyed(s'.workflows)
  {
    if wds != [] {
      var n := |wds| - 1;
      KeyedStatesKeepTheirKeys(s, project, wds[..n], draws[..n], refresh);
    }
  }

  /** A workflow is the one at a position of the snapshot, with the id drawn for it. */
  predicate PushedAt(wf: WorkflowData, wds: seq<WorkflowData>, draws: seq<string>, i: int)
    requires |draws| == |wds|
  {
    && 0 <= i < |wds|
    && wds[i].wfid in {None, Some("")}
    && wf.wfid == Some(draws[i])
    && wf.alias == wds[i].alias && wf.nbtask == wds[i].nbtask
    && wf.enabled == wds[i].enabled && wf.schedule == wds[i].schedule
  }

  /** A row of the project holds the workflow at a position of the snapshot, under the id drawn for it. */
  predicate StoredAt(row: Row, project: string, wds: seq<WorkflowData>, draws: seq<string>, i: int)
    requires |draws| == |wds|
  {
    && 0 <= i < |wds|
    && wds[i].wfid in {None, Some("")}
    && row.project == project && row.wfid == draws[i]
    && Holds(row, wds[i])
  }

  predicate PushedFrom(wf: WorkflowData, wds: seq<WorkflowData>, draws: seq<string>)
    requires |draws| == |wds|
  {
    exists i | 0 <= i < |wds| :: PushedAt(wf, wds, draws, i)
  }

  predicate StoredFrom(row: Row, project: string, wds: seq<WorkflowData>, draws: seq<string>)
    requires |draws| == |wds|
  {
    exists i | 0 <= i < |wds| :: StoredAt(row, project, wds, draws, i)
  }

  /** What a push writes: rows with workflows of the snapshot that had no id, and these workflows with their new id. */
  predicate Wrote(s: Sides, s': Sides, project: string, wds: seq<WorkflowData>, draws: seq<string>)
    requires |draws| == |wds|
  {
    && s.db.rows <= s'.db.rows
    && (forall n | |s.db.rows| <= n < |s'.db.rows| :: StoredFrom(s'.db.rows[n], project, wds, draws))
    && (forall k <- s.workflows :: k in s'.workflows)
    && (forall k <- s'.workflows ::
          || (k in s.workflows && s'.workflows[k] == s.workflows[k])
          || (s'.workflows[k].alias == k && PushedFrom(s'.workflows[k], wds, draws)))
  }

  lemma {:induction false} PushWrites(s: Sides, project: string, wds: seq<WorkflowData>,
                                      draws: seq<string>, refresh: bool)
    requires |draws| == |wds|
    ensures Wrote(s, PushAll(s, project, wds, draws, refresh), project, wds, draws)
    ensures !refresh ==> PushAll(s, project, wds, draws, refresh).workflows == s.workflows
  {
    if wds != [] {
      var n := |wds| - 1;
      PushWrites(s, project, wds[..n], draws[..n], refresh);
      var before := PushAll(s, project, wds[..n], draws[..n], refresh);
      hide PushAll;
      WroteMore(s, before, project, wds, draws, n);
      CreateWrites(before.db, project, wds[n], draws[n]);
      WroteOne(s, before, project, wds, draws, n, refresh);
      PushLast(s, project, wds, draws, refresh);
    }
  }

  lemma PushLast(s: Sides, project: string, wds: seq<WorkflowData>, draws: seq<string>, refresh: bool)
    requires |draws| == |wds| && wds != []
    ensures var n := |wds| - 1;
            PushAll(s, project, wds, draws, refresh) ==
            PushOne(PushAll(s, project, wds[..n], draws[..n], refresh), project, wds[n], draws[n], refresh)
  {
  }

  lemma WroteMore(s: Sides, s': Sides, project: string, wds: seq<WorkflowData>, draws: seq<string>, n: nat)
    requires |draws| == |wds| && n <= |wds| && Wrote(s, s', project, wds[..n], draws[..n])
    ensures Wrote(s, s', project, wds, draws)
  {
    forall row | StoredFrom(row, project, wds[..n], draws[..n]) ensures StoredFrom(row, project, wds, draws) {
      var i :| 0 <= i < n && StoredAt(row, project, wds[..n], draws[..n], i);
      assert StoredAt(row, project, wds, draws, i);
    }
    forall wf | PushedFrom(wf, wds[..n], draws[..n]) ensures PushedFrom(wf, wds, draws) {
      var i :| 0 <= i < n && PushedAt(wf, wds[..n], draws[..n], i);
      assert PushedAt(wf, wds, draws, i);
    }
    hide StoredFrom, PushedFrom;
  }

  lemma WroteOne(s: Sides, before: Sides, project: string, wds: seq<WorkflowData>, draws: seq<string>,
                 n: nat, refresh: bool)
    requires |draws| == |wds| && n < |wds| && Wrote(s, before, project, wds, draws)
    ensures Wrote(s, PushOne(before, project, wds[n], draws[n], refresh), project, wds, draws)
  {
    var after := PushOne(before, project, wds[n], draws[n], refresh);
    if after != before {
      StoredLast(before, project, wds, draws, n, refresh);
      hide StoredFrom, PushedFrom;
    }
  }

  lemma StoredLast(before: Sides, project: string, wds: seq<WorkflowData>, draws: seq<string>, n: nat, refresh: bool)
    requires |draws| == |wds| && n < |wds|
    ensures var after := PushOne(before, project, wds[n], draws[n], refresh);
            after != before ==>
              && |after.db.rows| == |before.db.rows| + 1
              && StoredFrom(after.db.rows[|before.db.rows|], project, wds, draws)
              && (refresh ==>
                    wds[n].alias in after.workflows && PushedFrom(after.workflows[wds[n].alias], wds, draws))
  {
    var after := PushOne(before, project, wds[n], draws[n], refresh);
    if after != before {
      assert StoredAt(after.db.rows[|before.db.rows|], project, wds, draws, n);
      if refresh {
        assert PushedAt(after.workflows[wds[n].alias], wds, draws, n);
      }
    }
  }

  // ---------- pushing again ----------

  /** No create of `wd` can succeed any more. */
  predicate Settled(db: Db, project: string, wd: WorkflowData) {
    NoWfid(wd) ==> project !in db.projects || HasAlias(db.rows, project, wd.alias)
  }

  /** The ids drawn during a push are new and differ from each other. */
  predicate FreshDraws(rows: seq<Row>, draws: seq<string>) {
    && (forall d <- draws :: d != "" && !HasWfid(rows, d))
    && (forall i, j | 0 <= i < j < |draws| :: draws[i] != draws[j])
  }

  /** With fresh draws every workflow of the snapshot is settled afterwards, and so is every workflow of the state. */
  lemma {:induction false} PushSettles(s: Sides, project: string, wds: seq<WorkflowData>,
                                       draws: seq<string>, refresh: bool)
    requires |draws| == |wds| && FreshDraws(s.db.rows, draws)
    ensures var s' := PushAll(s, project, wds, draws, refresh);
            && s'.db.projects == s.db.projects && s.db.rows <= s'.db.rows
            && (forall wd <- wds :: Settled(s'.db, project, wd))
            && (forall r <- s'.db.rows :: r in s.db.rows || r.wfid in draws)
            && (forall k <- s'.workflows ::
                  NoWfid(s'.workflows[k]) ==> k in s.workflows && s'.workflows[k] == s.workflows[k])
  {
    if wds != [] {
      var n := |wds| - 1;
      assert forall d <- draws[..n] :: d in draws;
      PushSettles(s, project, wds[..n], draws[..n], refresh);
      var before := PushAll(s, project, wds[..n], draws[..n], refresh);
      var after := PushAll(s, project, wds, draws, refresh);
      assert draws[n] in draws && draws[n] !in draws[..n];
      assert !HasWfid(before.db.rows, draws[n]);
      if after.db != before.db {
        assert after.db.rows[|before.db.rows|] in after.db.rows;
      }
      assert Settled(after.db, project, wds[n]);
      forall wd | wd in wds[..n] ensures Settled(after.db, project, wd) {
        if HasAlias(before.db.rows, project, wd.alias) {
          var r :| r in before.db.rows && r.project == project && r.alias == wd.alias;
          assert r in after.db.rows;
        }
      }
    }
  }

  /** Pushing settled workflows does nothing, whatever the server draws. */
  lemma {:induction false} SettledPushIsIdle(s: Sides, project: string, wds: seq<WorkflowData>,
                                             draws: seq<string>, refresh: bool)
    requires |draws| == |wds|
    requires forall wd <- wds :: Settled(s.db, project, wd)
    ensures PushAll(s, project, wds, draws, refresh) == s
  {
    if wds != [] {
      var n := |wds| - 1;
      SettledPushIsIdle(s, project, wds[..n], draws[..n], refresh);
      assert wds[n] in wds;
    }
  }

  /** A second push of the resulting state creates nothing and changes neither side. */
  lemma SecondPushIsIdle(s: Sides, project: string, order: seq<string>, draws: seq<string>, refresh: bool,
                         order': seq<string>, draws': seq<string>)
    requires forall k :: k in order <==> k in s.workflows
    requires |draws| == |order| && FreshDraws(s.db.rows, draws)
    requires var s' := PushAll(s, project, InOrder(s.workflows, order), draws, refresh);
             (forall k :: k in order' <==> k in s'.workflows) && |draws'| == |order'|
    ensures var s' := PushAll(s, project, InOrder(s.workflows, order), draws, refresh);
            PushAll(s', project, InOrder(s'.workflows, order'), draws', refresh) == s'
  {
    var wds := InOrder(s.workflows, order);
    PushSettles(s, project, wds, draws, refresh);
    var s' := PushAll(s, project, wds, draws, refresh);
    var again := InOrder(s'.workflows, order');
    forall i | 0 <= i < |again| ensures Settled(s'.db, project, again[i]) {
      var k := order'[i];
      assert k in order';
      if NoWfid(s'.workflows[k]) {
        assert k in order;
        var j :| 0 <= j < |order| && order[j] == k;
        assert wds[j] == s'.workflows[k] && wds[j] in wds;
      }
    }
    SettledPushIsIdle(s', project, again, draws', refresh);
  }
}
