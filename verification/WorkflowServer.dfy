/**
  The workflow handlers of the server: a table with two uniqueness constraints
  and a job store, changed by create, update and delete.
 */
module WorkflowServer {
  import opened Wrappers

  datatype NBTask = NBTask(nbName: string, cluster: string, machine: string)
  datatype Schedule = Schedule(interval: Option<string>, cron: Option<string>, repeat: Option<int>)

  /** A workflow as the client describes it. */
  datatype WorkflowData = WorkflowData(
    alias: string, nbtask: NBTask, enabled: bool, wfid: Option<string>, schedule: Option<Schedule>)

  datatype Row = Row(
    wfid: string, project: string, alias: string, nbtask: NBTask, enabled: bool, schedule: Option<Schedule>)

  datatype Job = Job(queue: string, project: string, nbtask: NBTask, schedule: Schedule)

  /** The known projects, the workflow table and the job store, keyed by job id. */
  datatype Db = Db(projects: set<string>, rows: seq<Row>, jobs: map<string, Job>)

  datatype Response = Response(status: int, wfid: Option<string>)

  /** `not wd.wfid`: absent or empty. */
  predicate NoWfid(wd: WorkflowData) { wd.wfid == None || wd.wfid == Some("") }

  predicate HasWfid(rows: seq<Row>, wfid: string) { exists r <- rows :: r.wfid == wfid }

  predicate HasAlias(rows: seq<Row>, project: string, alias: string) {
    exists r <- rows :: r.project == project && r.alias == alias
  }

  function JobFor(project: string, wd: WorkflowData): Job
    requires wd.schedule.Some?
  {
    Job(wd.nbtask.cluster + "." + wd.nbtask.machine, project, wd.nbtask, wd.schedule.value)
  }

  // ---------- the handlers ----------

  /** The table refuses an unknown project, a taken alias of the project or a taken wfid. */
  predicate Refused(db: Db, project: string, alias: string, wfid: string) {
    project !in db.projects || HasAlias(db.rows, project, alias) || HasWfid(db.rows, wfid)
  }

  /** `workflow_create`, with the wfid drawn by the server. */
  function Created(db: Db, project: string, wd: WorkflowData, wfid: string): (Db, Response) {
    if Refused(db, project, wd.alias, wfid) then (db, Response(200, None))
    else
      var row := Row(wfid, project, wd.alias, wd.nbtask, wd.enabled, wd.schedule);
      var jobs := if wd.schedule.Some? then db.jobs[wfid := JobFor(project, wd)] else db.jobs;
      (db.(rows := db.rows + [row], jobs := jobs), Response(201, Some(wfid)))
  }

  function UpdatedRow(r: Row, wd: WorkflowData): Row {
    if wd.wfid == Some(r.wfid) then
      r.(nbtask := wd.nbtask, schedule := wd.schedule, alias := wd.alias, enabled := wd.enabled)
    else r
  }

  /** `UPDATE ... WHERE wfid = ...`: the project of the request plays no part. */
  function UpdatedRows(rows: seq<Row>, wd: WorkflowData): (r: seq<Row>)
    ensures |r| == |rows|
    ensures forall i | 0 <= i < |rows| :: r[i] == UpdatedRow(rows[i], wd)
  {
    seq(|rows|, i requires 0 <= i < |rows| => UpdatedRow(rows[i], wd))
  }

  predicate Unique(rows: seq<Row>) {
    forall i, j | 0 <= i < j < |rows| ::
      rows[i].wfid != rows[j].wfid && (rows[i].project != rows[j].project || rows[i].alias != rows[j].alias)
  }

  /** `workflow_update`: a violated constraint is an unhandled error that rolls the session back. */
  function Updated(db: Db, project: string, wd: WorkflowData): (Db, Response) {
    if NoWfid(wd) then (db, Response(400, None))
    else if !Unique(UpdatedRows(db.rows, wd)) then (db, Response(500, None))
    else
      var jobs := if wd.schedule.Some? then db.jobs[wd.wfid.value := JobFor(project, wd)] else db.jobs;
      (db.(rows := UpdatedRows(db.rows, wd), jobs := jobs), Response(201, wd.wfid))
  }

  function Without(rows: seq<Row>, project: string, wfid: string): seq<Row> {
    if rows == [] then []
    else
      (if rows[0].project == project && rows[0].wfid == wfid then [] else [rows[0]])
      + Without(rows[1..], project, wfid)
  }

  /** `workflow_delete`: the job goes whoever asks, the row only for its own project. */
  function Deleted(db: Db, project: string, wfid: string): Db {
    db.(rows := Without(db.rows, project, wfid), jobs := db.jobs - {wfid})
  }

  class Server {
    const projects: set<string>
    var rows: seq<Row>
    var jobs: map<string, Job>

    constructor (projects: set<string>)
      ensures View() == Db(projects, [], map[])
    {
      this.projects := projects;
      rows, jobs := [], map[];
    }

    function View(): Db reads this { Db(projects, rows, jobs) }

    method RegisterJob(project: string, wd: WorkflowData, wfid: string)
      requires wd.schedule.Some?
      modifies this`jobs
      ensures jobs == old(jobs)[wfid := JobFor(project, wd)]
    {
      jobs := jobs[wfid := Job(wd.nbtask.cluster + "." + wd.nbtask.machine, project, wd.nbtask, wd.schedule.value)];
    }

    method WorkflowCreate(project: string, wd: WorkflowData, wfid: string) returns (r: Response)
      modifies this
      ensures (View(), r) == Created(old(View()), project, wd, wfid)
    {
      var conflict := project !in projects;
      for i := 0 to |rows|
        invariant conflict <==>
                  project !in projects || HasAlias(rows[..i], project, wd.alias) || HasWfid(rows[..i], wfid)
      {
        assert rows[..i + 1] == rows[..i] + [rows[i]];
        if (rows[i].project == project && rows[i].alias == wd.alias) || rows[i].wfid == wfid {
          conflict := true;
        }
      }
      assert rows[..|rows|] == rows;
      if conflict {
        return Response(200, None);
      }
      rows := rows + [Row(wfid, project, wd.alias, wd.nbtask, wd.enabled, wd.schedule)];
      if wd.schedule.Some? {
        RegisterJob(project, wd, wfid);
      }
      return Response(201, Some(wfid));
    }

    method WorkflowUpdate(project: string, wd: WorkflowData) returns (r: Response)
      modifies this
      ensures (View(), r) == Updated(old(View()), project, wd)
    {
      if wd.wfid == None || wd.wfid == Some("") {
        return Response(400, None);
      }
      var updated := UpdatedRows(rows, wd);
      if !Unique(updated) {
        return Response(500, None);
      }
      rows := updated;
      if wd.schedule.Some? {
        RegisterJob(project, wd, wd.wfid.value);
      }
      return Response(201, wd.wfid);
    }

    method WorkflowDelete(project: string, wfid: string) returns (r: Response)
      modifies this
      ensures View() == Deleted(old(View()), project, wfid) && r == Response(200, None)
    {
      jobs := jobs - {wfid};
      rows := Without(rows, project, wfid);
      return Response(200, None);
    }
  }

  // ---------- what a handler writes, field by field ----------

  /** The job of a scheduled workflow: its queue is named after the cluster and the machine. */
  predicate IsJobOf(job: Job, project: string, wd: WorkflowData) {
    && wd.schedule == Some(job.schedule)
    && job.project == project
    && job.nbtask == wd.nbtask
    && job.queue == wd.nbtask.cluster + "." + wd.nbtask.machine
  }

  /** With a schedule the workflow's job is stored under its id, without one nothing is; no other job changes. */
  predicate JobWritten(jobs: map<string, Job>, jobs': map<string, Job>,
                       project: string, wd: WorkflowData, wfid: string)
  {
    && (forall j <- jobs' :: j != wfid ==> j in jobs && jobs'[j] == jobs[j])
    && (forall j <- jobs :: j in jobs' && (j != wfid || wd.schedule.None? ==> jobs'[j] == jobs[j]))
    && (wd.schedule.Some? ==> wfid in jobs' && IsJobOf(jobs'[wfid], project, wd))
    && (wfid in jobs' && wd.schedule.None? ==> wfid in jobs)
  }

  /** A row holds the request, apart from its own id and project. */
  predicate Holds(row: Row, wd: WorkflowData) {
    row.alias == wd.alias && row.nbtask == wd.nbtask && row.enabled == wd.enabled && row.schedule == wd.schedule
  }

  /**
    A create is refused, with 200 and no change, for an unknown project, an alias the project
    has or an id in use. Otherwise it answers 201 with the id and adds one row with the request.
   */
  lemma CreateWrites(db: Db, project: string, wd: WorkflowData, wfid: string)
    ensures var (db', r) := Created(db, project, wd, wfid);
            if project !in db.projects
               || exists row <- db.rows :: (row.project == project && row.alias == wd.alias) || row.wfid == wfid
            then db' == db && r == Response(200, None)
            else
              && r == Response(201, Some(wfid))
              && db'.projects == db.projects
              && |db'.rows| == |db.rows| + 1 && db.rows <= db'.rows
              && db'.rows[|db.rows|].wfid == wfid && db'.rows[|db.rows|].project == project
              && Holds(db'.rows[|db.rows|], wd)
              && JobWritten(db.jobs, db'.jobs, project, wd, wfid)
  {
  }

  /** The alias of the request belongs to another workflow of the project of the one updated. */
  predicate AliasTaken(rows: seq<Row>, wd: WorkflowData) {
    exists i, j | 0 <= i < |rows| && 0 <= j < |rows| && i != j ::
      wd.wfid == Some(rows[i].wfid) && rows[j].project == rows[i].project && rows[j].alias == wd.alias
  }

  lemma UpdateConflictsExactly(rows: seq<Row>, wd: WorkflowData)
    requires Unique(rows)
    ensures Unique(UpdatedRows(rows, wd)) <==> !AliasTaken(rows, wd)
  {
    var rows' := UpdatedRows(rows, wd);
    assert forall i | 0 <= i < |rows| :: rows'[i].wfid == rows[i].wfid && rows'[i].project == rows[i].project;
    assert forall i | 0 <= i < |rows| ::
             rows'[i].alias == if wd.wfid == Some(rows[i].wfid) then wd.alias else rows[i].alias;
    hide UpdatedRows, UpdatedRow;
    if i, j :| 0 <= i < |rows| && 0 <= j < |rows| && i != j &&
               wd.wfid == Some(rows[i].wfid) && rows[j].project == rows[i].project && rows[j].alias == wd.alias {
      assert rows'[i].alias == rows'[j].alias && rows'[i].project == rows'[j].project;
    } else {
      assert Unique(rows');
    }
  }

  /**
    An update answers 400 without an id, 500 when its alias is taken, and else 201. Only then it
    changes anything: every row with the id holds the request and keeps its id and project, and
    every other row is as it was.
   */
  lemma UpdateWrites(db: Db, project: string, wd: WorkflowData)
    requires Unique(db.rows)
    ensures var (db', r) := Updated(db, project, wd);
            && r.status == (if wd.wfid in {None, Some("")} then 400 else if AliasTaken(db.rows, wd) then 500 else 201)
            && (r.status != 201 ==> db' == db && r.wfid == None)
            && (r.status == 201 ==>
                  && r.wfid == wd.wfid
                  && db'.projects == db.projects && |db'.rows| == |db.rows|
                  && (forall i | 0 <= i < |db.rows| ::
                        if db.rows[i].wfid == wd.wfid.value then
                          && db'.rows[i].wfid == db.rows[i].wfid && db'.rows[i].project == db.rows[i].project
                          && Holds(db'.rows[i], wd)
                        else db'.rows[i] == db.rows[i])
                  && JobWritten(db.jobs, db'.jobs, project, wd, wd.wfid.value))
  {
    UpdateConflictsExactly(db.rows, wd);
    hide Unique, AliasTaken;
  }

  /** A delete takes away the job, whoever asks, and the row of the asking project, and nothing else. */
  lemma DeleteWrites(db: Db, project: string, wfid: string)
    ensures var db' := Deleted(db, project, wfid);
            && db'.projects == db.projects
            && (forall r :: r in db'.rows <==> r in db.rows && !(r.project == project && r.wfid == wfid))
            && db'.jobs.Keys == db.jobs.Keys - {wfid}
            && (forall j <- db'.jobs :: db'.jobs[j] == db.jobs[j])
  {
    var db' := Deleted(db, project, wfid);
    forall r: Row ensures r in db'.rows <==> r in db.rows && !(r.project == project && r.wfid == wfid) {
      WithoutKeeps(db.rows, project, wfid, r);
    }
  }

  // ---------- every handler keeps the constraints ----------

  /** Every job is the job of a stored workflow. */
  predicate JobsFollowRows(db: Db) {
    forall j <- db.jobs :: HasWfid(db.rows, j)
  }

  lemma {:induction false} WithoutKeeps(rows: seq<Row>, project: string, wfid: string, r: Row)
    ensures r in Without(rows, project, wfid) <==> r in rows && !(r.project == project && r.wfid == wfid)
  {
    if rows != [] {
      WithoutKeeps(rows[1..], project, wfid, r);
      assert r in rows <==> r == rows[0] || r in rows[1..];
    }
  }

  /** Uniqueness in terms of the rows rather than their positions. */
  lemma {:induction false} WithoutKeepsUnique(rows: seq<Row>, project: string, wfid: string)
    requires Unique(rows)
    ensures Unique(Without(rows, project, wfid))
  {
    if rows != [] {
      WithoutKeepsUnique(rows[1..], project, wfid);
      var rest := Without(rows[1..], project, wfid);
      forall j | 0 <= j < |rest|
        ensures rows[0].wfid != rest[j].wfid && (rows[0].project != rest[j].project || rows[0].alias != rest[j].alias)
      {
        WithoutKeeps(rows[1..], project, wfid, rest[j]);
        var k :| 0 <= k < |rows| - 1 && rows[1..][k] == rest[j];
        assert rows[k + 1] == rest[j];
      }
    }
  }

  /** One alias per project and one row per wfid, after every handler. */
  lemma HandlersKeepUnique(db: Db, project: string, wd: WorkflowData, wfid: string)
    requires Unique(db.rows)
    ensures Unique(Created(db, project, wd, wfid).0.rows)
    ensures Unique(Updated(db, project, wd).0.rows)
    ensures Unique(Deleted(db, project, wfid).rows)
  {
    WithoutKeepsUnique(db.rows, project, wfid);
  }

  lemma CreateKeepsJobs(db: Db, project: string, wd: WorkflowData, wfid: string)
    requires JobsFollowRows(db)
    ensures JobsFollowRows(Created(db, project, wd, wfid).0)
  {
    var db' := Created(db, project, wd, wfid).0;
    assert forall r <- db.rows :: r in db'.rows;
    if db' != db {
      assert db'.rows[|db.rows|].wfid == wfid;
    }
  }

  lemma UpdateKeepsWfids(rows: seq<Row>, wd: WorkflowData, wfid: string)
    ensures HasWfid(UpdatedRows(rows, wd), wfid) <==> HasWfid(rows, wfid)
  {
    var rows' := UpdatedRows(rows, wd);
    if HasWfid(rows, wfid) {
      var i :| 0 <= i < |rows| && rows[i].wfid == wfid;
      assert rows'[i].wfid == wfid;
    }
    if HasWfid(rows', wfid) {
      var i :| 0 <= i < |rows'| && rows'[i].wfid == wfid;
      assert rows[i].wfid == wfid;
    }
  }

  /** An update keeps the jobs on stored workflows exactly when it has no id, no schedule, or a stored id. */
  lemma UpdateKeepsJobsExactly(db: Db, project: string, wd: WorkflowData)
    requires JobsFollowRows(db) && Unique(db.rows)
    ensures JobsFollowRows(Updated(db, project, wd).0) <==>
            NoWfid(wd) || wd.schedule.None? || HasWfid(db.rows, wd.wfid.value)
  {
    var db' := Updated(db, project, wd).0;
    forall w: string ensures HasWfid(UpdatedRows(db.rows, wd), w) <==> HasWfid(db.rows, w) {
      UpdateKeepsWfids(db.rows, wd, w);
    }
    if !NoWfid(wd) && wd.schedule.Some? && !HasWfid(db.rows, wd.wfid.value) {
      assert UpdatedRows(db.rows, wd) == db.rows;
      assert wd.wfid.value in db'.jobs;
    }
  }

  /** A delete keeps them too, and leaves neither row nor job exactly when the row, if any, is the project's own. */
  lemma DeleteKeepsJobs(db: Db, project: string, wfid: string)
    requires JobsFollowRows(db)
    ensures JobsFollowRows(Deleted(db, project, wfid))
    ensures wfid !in Deleted(db, project, wfid).jobs
    ensures !HasWfid(Deleted(db, project, wfid).rows, wfid) <==>
            forall r <- db.rows :: r.wfid == wfid ==> r.project == project
  {
    var db' := Deleted(db, project, wfid);
    forall r: Row ensures r in db'.rows <==> r in db.rows && !(r.project == project && r.wfid == wfid) {
      WithoutKeeps(db.rows, project, wfid, r);
    }
    forall j | j in db'.jobs ensures HasWfid(db'.rows, j) {
      var r :| r in db.rows && r.wfid == j;
      assert r in db'.rows;
    }
  }

  // ---------- runs ----------

  datatype Request =
    | Create(project: string, wd: WorkflowData, drawn: string)
    | Update(project: string, wd: WorkflowData)
    | Delete(project: string, wfid: string)

  function Handled(db: Db, q: Request): Db {
    match q
    case Create(p, wd, drawn) => Created(db, p, wd, drawn).0
    case Update(p, wd) => Updated(db, p, wd).0
    case Delete(p, wfid) => Deleted(db, p, wfid)
  }

  function HandledAll(db: Db, qs: seq<Request>): Db {
    if qs == [] then db else Handled(HandledAll(db, qs[..|qs| - 1]), qs[|qs| - 1])
  }

  lemma {:induction false} RunsKeepUnique(db: Db, qs: seq<Request>)
    requires Unique(db.rows)
    ensures Unique(HandledAll(db, qs).rows)
  {
    if qs != [] {
      RunsKeepUnique(db, qs[..|qs| - 1]);
      hide Unique, HandledAll;
      HandledKeepsUnique(HandledAll(db, qs[..|qs| - 1]), qs[|qs| - 1]);
      HandledLast(db, qs);
    }
  }

  lemma HandledLast(db: Db, qs: seq<Request>)
    requires qs != []
    ensures HandledAll(db, qs) == Handled(HandledAll(db, qs[..|qs| - 1]), qs[|qs| - 1])
  {
  }

  lemma HandledKeepsUnique(db: Db, q: Request)
    requires Unique(db.rows)
    ensures Unique(Handled(db, q).rows)
  {
    hide Unique;
    match q
    case Create(p, wd, drawn) => HandlersKeepUnique(db, p, wd, drawn);
    case Update(p, wd) => HandlersKeepUnique(db, p, wd, "");
    case Delete(p, wfid) => WithoutKeepsUnique(db.rows, p, wfid);
  }

  /** A property holds all through a run. */
  predicate Always(good: Db -> bool, db: Db, qs: seq<Request>) {
    forall i | 0 <= i <= |qs| :: good(HandledAll(db, qs[..i]))
  }

  /** Each request of a run meets a condition at its moment. */
  predicate Each(allowed: (Db, Request) -> bool, db: Db, qs: seq<Request>) {
    forall i | 0 <= i < |qs| :: allowed(HandledAll(db, qs[..i]), qs[i])
  }

  /** From the exact condition of one handler to that of a run. */
  lemma {:induction false} RunsExactly(good: Db -> bool, allowed: (Db, Request) -> bool, db: Db, qs: seq<Request>)
    requires Unique(db.rows) && good(db)
    requires forall d: Db, q: Request :: Unique(d.rows) && good(d) ==> (good(Handled(d, q)) <==> allowed(d, q))
    ensures Always(good, db, qs) <==> Each(allowed, db, qs)
  {
    hide Unique, Handled, Always, Each;
    if qs == [] {
      NoRequests(good, allowed, db);
    } else {
      var n := |qs| - 1;
      RunsExactly(good, allowed, db, qs[..n]);
      RunsKeepUnique(db, qs[..n]);
      AlwaysLast(good, db, qs, n);
      EachLast(allowed, db, qs, n);
      HandledLast(db, qs);
    }
  }

  lemma NoRequests(good: Db -> bool, allowed: (Db, Request) -> bool, db: Db)
    ensures (Always(good, db, []) <==> good(db)) && Each(allowed, db, [])
  {
    var none: seq<Request> := [];
    assert none[..0] == none;
  }

  lemma AlwaysLast(good: Db -> bool, db: Db, qs: seq<Request>, n: nat)
    requires |qs| == n + 1
    ensures Always(good, db, qs) <==> Always(good, db, qs[..n]) && good(HandledAll(db, qs))
    ensures Always(good, db, qs[..n]) ==> good(HandledAll(db, qs[..n]))
  {
    hide HandledAll;
    var before := qs[..n];
    assert forall i | 0 <= i <= n :: before[..i] == qs[..i];
    assert qs[..n + 1] == qs && before[..n] == before;
  }

  lemma EachLast(allowed: (Db, Request) -> bool, db: Db, qs: seq<Request>, n: nat)
    requires |qs| == n + 1
    ensures Each(allowed, db, qs) <==> Each(allowed, db, qs[..n]) && allowed(HandledAll(db, qs[..n]), qs[n])
  {
    hide HandledAll;
    var before := qs[..n];
    assert forall i | 0 <= i < n :: before[..i] == qs[..i] && before[i] == qs[i];
  }

  /** An update schedules no workflow that is not stored. */
  predicate KeepsJobs(db: Db, q: Request) {
    q.Update? ==> NoWfid(q.wd) || q.wd.schedule.None? || HasWfid(db.rows, q.wd.wfid.value)
  }

  lemma HandlerKeepsJobsExactly(db: Db, q: Request)
    requires JobsFollowRows(db) && Unique(db.rows)
    ensures JobsFollowRows(Handled(db, q)) <==> KeepsJobs(db, q)
  {
    hide JobsFollowRows, Unique;
    match q
    case Create(p, wd, drawn) => CreateKeepsJobs(db, p, wd, drawn);
    case Update(p, wd) => UpdateKeepsJobsExactly(db, p, wd);
    case Delete(p, wfid) => DeleteKeepsJobs(db, p, wfid);
  }

  /**
    Over any run the table stays unique, and all through it every job is that of a stored
    workflow exactly when no update schedules a workflow that is not stored at its moment.
   */
  lemma RunsKeepTable(db: Db, qs: seq<Request>)
    requires Unique(db.rows) && JobsFollowRows(db)
    ensures Unique(HandledAll(db, qs).rows)
    ensures Always(JobsFollowRows, db, qs) <==> Each(KeepsJobs, db, qs)
  {
    hide Unique;
    RunsKeepUnique(db, qs);
    forall d: Db, q: Request | Unique(d.rows) && JobsFollowRows(d)
      ensures JobsFollowRows(Handled(d, q)) <==> KeepsJobs(d, q)
    {
      HandlerKeepsJobsExactly(d, q);
    }
    RunsExactly(JobsFollowRows, KeepsJobs, db, qs);
  }

  // ---------- the stronger agreement the handlers do not keep ----------

  /** The jobs are exactly those of the scheduled workflows. */
  predicate JobsAreSchedules(db: Db) {
    && (forall j <- db.jobs :: exists r <- db.rows :: r.wfid == j && r.schedule.Some?)
    && (forall r <- db.rows :: r.schedule.Some? ==> r.wfid in db.jobs)
  }

  lemma CreateKeepsSchedules(db: Db, project: string, wd: WorkflowData, wfid: string)
    requires JobsAreSchedules(db)
    ensures JobsAreSchedules(Created(db, project, wd, wfid).0)
  {
    var db' := Created(db, project, wd, wfid).0;
    assert forall r <- db.rows :: r in db'.rows;
    if db' != db {
      assert db'.rows[|db.rows|] in db'.rows;
    }
  }

  /** An update that is refused, keeps or sets the schedule of a stored workflow, or sets none of an unscheduled one. */
  predicate SchedulesUpdate(db: Db, wd: WorkflowData) {
    || NoWfid(wd)
    || !Unique(UpdatedRows(db.rows, wd))
    || if HasWfid(db.rows, wd.wfid.value) then wd.schedule.Some? || wd.wfid.value !in db.jobs else wd.schedule.None?
  }

  /**
    Dropping a schedule by update leaves its job behind, and scheduling a workflow
    that is not stored makes a job of its own: exactly then the agreement breaks.
   */
  lemma UpdateKeepsSchedulesExactly(db: Db, project: string, wd: WorkflowData)
    requires JobsAreSchedules(db) && Unique(db.rows)
    ensures JobsAreSchedules(Updated(db, project, wd).0) <==> SchedulesUpdate(db, wd)
  {
    if !NoWfid(wd) && Unique(UpdatedRows(db.rows, wd)) {
      if HasWfid(db.rows, wd.wfid.value) {
        UpdateOfStored(db, project, wd);
      } else {
        UpdateOfUnstored(db, project, wd);
      }
    }
  }

  lemma UpdateOfUnstored(db: Db, project: string, wd: WorkflowData)
    requires JobsAreSchedules(db) && Unique(db.rows)
    requires !NoWfid(wd) && !HasWfid(db.rows, wd.wfid.value)
    ensures JobsAreSchedules(Updated(db, project, wd).0) <==> wd.schedule.None?
  {
    assert UpdatedRows(db.rows, wd) == db.rows;
    var db' := Updated(db, project, wd).0;
    if wd.schedule.Some? {
      assert wd.wfid.value in db'.jobs;
      assert forall r <- db'.rows :: r.wfid != wd.wfid.value;
    } else {
      assert db' == db;
    }
  }

  lemma UpdateOfStored(db: Db, project: string, wd: WorkflowData)
    requires JobsAreSchedules(db) && Unique(db.rows)
    requires !NoWfid(wd) && HasWfid(db.rows, wd.wfid.value) && Unique(UpdatedRows(db.rows, wd))
    ensures JobsAreSchedules(Updated(db, project, wd).0) <==> wd.schedule.Some? || wd.wfid.value !in db.jobs
  {
    var db' := Updated(db, project, wd).0;
    var w := wd.wfid.value;
    var k :| 0 <= k < |db.rows| && db.rows[k].wfid == w;
    assert db'.rows[k] == UpdatedRow(db.rows[k], wd);
    assert forall i | 0 <= i < |db.rows| && i != k :: db'.rows[i] == db.rows[i] && db.rows[i].wfid != w;
    if wd.schedule.Some? || w !in db.jobs {
      forall j | j in db'.jobs ensures exists r <- db'.rows :: r.wfid == j && r.schedule.Some? {
        JobStaysScheduled(db, db', k, j);
      }
    } else {
      assert w in db'.jobs;
      assert forall r <- db'.rows :: r.wfid == w ==> r.schedule.None?;
    }
  }

  lemma JobStaysScheduled(db: Db, db': Db, k: nat, j: string)
    requires |db.rows| == |db'.rows| && k < |db.rows|
    requires forall i | 0 <= i < |db.rows| && i != k :: db'.rows[i] == db.rows[i]
    requires if j == db'.rows[k].wfid then db'.rows[k].schedule.Some?
             else db'.rows[k].wfid == db.rows[k].wfid && exists r <- db.rows :: r.wfid == j && r.schedule.Some?
    ensures exists r <- db'.rows :: r.wfid == j && r.schedule.Some?
  {
    if j == db'.rows[k].wfid {
      assert db'.rows[k] in db'.rows;
    } else {
      var r :| r in db.rows && r.wfid == j && r.schedule.Some?;
      var i :| 0 <= i < |db.rows| && db.rows[i] == r;
      assert db'.rows[i] == r;
    }
  }

  /** A foreign delete drops the job and keeps the row: exactly then, if it is scheduled, the agreement breaks. */
  lemma DeleteKeepsSchedulesExactly(db: Db, project: string, wfid: string)
    requires JobsAreSchedules(db)
    ensures JobsAreSchedules(Deleted(db, project, wfid)) <==>
            forall r <- db.rows :: r.wfid == wfid && r.schedule.Some? ==> r.project == project
  {
    var db' := Deleted(db, project, wfid);
    forall r: Row ensures r in db'.rows <==> r in db.rows && !(r.project == project && r.wfid == wfid) {
      WithoutKeeps(db.rows, project, wfid, r);
    }
    forall j | j in db'.jobs ensures exists r <- db'.rows :: r.wfid == j && r.schedule.Some? {
      var r :| r in db.rows && r.wfid == j && r.schedule.Some?;
      assert r in db'.rows;
    }
  }

  /** The condition of each handler. */
  predicate KeepsSchedules(db: Db, q: Request) {
    match q
    case Create(_, _, _) => true
    case Update(_, wd) => SchedulesUpdate(db, wd)
    case Delete(p, wfid) => forall r <- db.rows :: r.wfid == wfid && r.schedule.Some? ==> r.project == p
  }

  lemma HandlerKeepsSchedulesExactly(db: Db, q: Request)
    requires JobsAreSchedules(db) && Unique(db.rows)
    ensures JobsAreSchedules(Handled(db, q)) <==> KeepsSchedules(db, q)
  {
    match q
    case Create(p, wd, drawn) => CreateKeepsSchedules(db, p, wd, drawn);
    case Update(p, wd) => UpdateKeepsSchedulesExactly(db, p, wd);
    case Delete(p, wfid) => DeleteKeepsSchedulesExactly(db, p, wfid);
  }

  /** All through a run jobs and schedules agree exactly when every request meets its handler's condition. */
  lemma RunsKeepSchedulesExactly(db: Db, qs: seq<Request>)
    requires Unique(db.rows) && JobsAreSchedules(db)
    ensures Always(JobsAreSchedules, db, qs) <==> Each(KeepsSchedules, db, qs)
  {
    hide Unique;
    forall d: Db, q: Request | Unique(d.rows) && JobsAreSchedules(d)
      ensures JobsAreSchedules(Handled(d, q)) <==> KeepsSchedules(d, q)
    {
      HandlerKeepsSchedulesExactly(d, q);
    }
    RunsExactly(JobsAreSchedules, KeepsSchedules, db, qs);
  }
}
