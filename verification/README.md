# Labfunctions: verified protocols and algorithms

Labfunctions runs notebooks on a cluster of agents. This project models, in Dafny, the parts of
it whose correctness ranges over whole runs or unbounded inputs, and proves what they promise:

- **Events.** An execution publishes events to a Redis stream; the server's listen loop reads the
  stream from a cursor and prints server-sent events; the client buffers lines and parses.
  `Sse.dfy` is one message, `SseClient.dfy` a response body and the client, `EventSource.dfy` an
  independent reader written from sections 9.2.5 and 9.2.6 of the WHATWG HTML Living Standard,
  `EventStream.dfy` the streams and the event manager, and `EventSession.dfy` the listen loop and
  the end-to-end theorems. Publications by others are interleaved with every read: a schedule says
  what is published, on any channel, while the i-th read is served. `SecureName.dfy` is the naming
  of channels.
- **Instances.** `Cluster.dfy` holds the four steps of a machine's life over two stores, the
  provider's machines and the registry; `ClusterRuns.dfy` interleaves any number of create and
  destroy tasks step by step, each of which may stop for good between its two steps.
- **Heartbeat.** `Heartbeat.dfy` interleaves the heartbeat thread, `unregister` and the passing of
  time over one key with a time to live.
- **Workflows.** `WorkflowServer.dfy` is the server's table with its two uniqueness constraints and
  the job store; `WorkflowPush.dfy` is the client's labfile state and the push.
- **Tokens.** `RefreshTokens.dfy` is the single-use token store over runs of logins and refreshes;
  `Scopes.dfy` is the scope language and the access decision.
- **Agents.** `AgentRegister.dfy` is the registry of agents (several Redis sets that index the same
  facts) and the idle times.
- **Text and arithmetic.** `ByteFormat.dfy`, `Hash96.dfy`, `Paging.dfy` and `Secrets.dfy`;
  `Text.dfy` has the Python string operations they share.

Code that changes state is modelled by classes and methods, each tied by its `ensures` to a function
on values; the properties over runs are proved of those functions. A Redis pipeline is one atomic
step. Random ids, tokens, clocks and what other processes do are parameters.

`dafny verify dfyconfig.toml` checks the project.

## Where the code differs from what it says

- `format_bytes` documents at most ten characters below 2^60; it prints eleven from
  1125894277343089729 on (`ByteFormat.WidthExactly`).
- `HeartbeatThread.unregister` deletes the key before it sets the flag, so a SET between the two
  brings the key back for one time to live (`Heartbeat.GoneForGoodExactly`, `Heartbeat.ResurrectedKey`).
  The server settings sleep 300 s with a time to live of 240 s (`Heartbeat.ShippedSettings`).
- A machine is created at the provider of its machine template and destroyed at the provider of its
  cluster; if these keep their machines at different sites the destroy fails
  (`Cluster.DestroyUndoesCreate`). A destroy that stopped between its steps cannot be repeated (`ClusterRuns.OrphansStay`).
- Project ids that clients choose are not checked against the project alphabet, and a channel joins
  two names with a dot that both may hold; `SecureName.ChannelsMeetExactly` says exactly which
  projects can share a channel.
- A workflow update neither checks that the workflow is stored nor that it is the project's, and
  leaves the job of a dropped schedule behind (`WorkflowServer.UpdateKeepsJobsExactly`,
  `WorkflowServer.UpdateKeepsSchedulesExactly`). A delete by another project drops the job and keeps
  the row (`WorkflowServer.DeleteKeepsSchedulesExactly`). Creating in an unknown project answers
  "already exists".
- Granting a scope can take access away, because the last scope of a namespace replaces the earlier
  ones (`Scopes.GrantingIsMonotoneExactly`). `require_all_actions` is never read, and the test of the
  empty intersection without `require_all` compares a set with 0.
- An access token whose user is null validates while nothing is stored for it; the refresh then fails
  when it stores the null user (`RefreshTokens.NullUserValidatesExactly`).
- A configured audience is put into every access token but reaches the decoding library as `aud`, where
  `audience` is expected; the library then refuses every token with an audience, so nothing granted
  can be refreshed (`RefreshTokens.EncodedDecodesExactly`, `RefreshTokens.AudienceEndsRotation`).
- The token store accepts a time to live and ignores it, so refresh tokens never expire.
- `AgentRegister.remove` leaves the cluster sets alone (`AgentRegister.RemoveExactly`); agents with a dot
  in their name never have workers (`IdleAgents.DottedAgentsAreNeverFound`).
- The event standard also dispatches events with empty data, so the agreement with it needs no
  assumption about data; it needs ids without NUL.

## Model

| member | source | states |
|---|---|---|
| Sse.FromSse2Event | labfunctions/events.py:80-92 | The parser loop returns the trimmed value of the last line of each field; without a data line it is rejected. |
| Sse.MessageRoundTrip | labfunctions/events.py:65-92 | Parsing undoes printing if and only if every field present is a trimmed single line. |
| SseClient.EventsListen | labfunctions/client/base.py:264-274 | The line-buffer loop over a whole body equals the client machine: what it yields and whether it ended by "exit", end of body or a rejected message. |
| SseClient.CutBody | labfunctions/client/base.py:265-274 | For a body cut after any number of characters, with clean events up to the cut or the first "exit", the client yields exactly the whole messages before the cut, up to that "exit". |
| SseClient.StreamRoundTrip | labfunctions/client/base.py:264-274 | Over a whole body whose events are clean up to and including the first "exit", whatever follows, the client returns exactly the events before it, or all if there is none. |
| SseClient.StreamRoundTripExact | labfunctions/events.py:65-92 | For lists without "exit" the list comes back unchanged if and only if all its fields are clean. |
| SseClient.UpToExitStops | labfunctions/client/base.py:271-272 | What is yielded is a prefix without any "exit", and is cut only right before one. |
| EventSource.StandardReading | labfunctions/events.py:65-78 | A reader following the WHATWG standard dispatches one message for each event printed, with its data, type and last event id. |
| EventSource.ClientAgreesWithStandard | labfunctions/client/base.py:264-274 | On clean events that reader and this client understand the same messages. |
| EventStream.BuildEvents | labfunctions/events.py:35-44 | The read loop turns each stream entry into one event with its id, in order. |
| EventStream.EventManager.Publish | labfunctions/events.py:47-57 | Appends one entry with a fresh greater id to its channel and changes no other channel; `EntriesArePublications` says what the entry holds. |
| EventStream.EventManager.Read | labfunctions/events.py:29-45 | A blocking read serves exactly the entries above the cursor once others have published; nothing means a timeout, a malformed cursor is refused. |
| EventStream.CursorRoundTrip | labfunctions/web/events_bp.py:42-49 | The id printed for an entry is read back as the cursor after that entry. |
| EventStream.AfterMeansGreater | labfunctions/events.py:29-33 | In an ordered stream the entries served after a cursor are exactly those with a greater id. |
| EventStream.PublicationsExtend | labfunctions/events.py:47-57 | Over any run of publications every stream stays ordered, only grows, and grows by its own publications alone. |
| EventStream.EntriesArePublications | labfunctions/events.py:51-54 | After any run of publications the k-th entry added to a channel has the data and the event type of the k-th publication on that channel, an absent type as "". |
| EventStream.NextIdIsLeast | labfunctions/events.py:53 | The id of a new entry is the least above the newest one that is not before the clock. |
| EventStream.AcceptedCursors | labfunctions/events.py:32-33 | A read accepts exactly "$", digits, or digits, a hyphen and digits. |
| EventStream.MillisecondsAlone | labfunctions/events.py:32-33 | Milliseconds alone stand for the first id of that moment. |
| EventSession.SendBatch | labfunctions/web/events_bp.py:44-48 | The inner loop prints the whole batch and notices a control exit anywhere in it. |
| EventSession.ListenLoop | labfunctions/web/events_bp.py:40-51 | The loop is the step machine run to its end, and the body is what it sent. |
| EventSession.RunKeepsListening | labfunctions/web/events_bp.py:40-51 | After any number of turns, whatever is published between them, exactly the entries above the start cursor have been sent, once each and in order, and the cursor is the newest entry. |
| EventSession.EventListen | labfunctions/web/events_bp.py:30-53 | The response carries exactly the entries above the start cursor in the log when it ends; it ends after a batch with an event of type "control" and data "exit", or when a read finds nothing. |
| EventSession.Session | labfunctions/client/base.py:253-274 | End to end, for every schedule of publications: without a cursor the client yields exactly what is published on its channel during the session, data for data and type for type, in order and once each, up to the first "exit"; with the id of an entry, exactly the entries behind it; whenever what it reads up to there is clean. |
| EventSession.LaterPublications | labfunctions/web/events_bp.py:41-53 | What a session yielded is final once an "exit" was among the entries, and otherwise a prefix of what a longer session yields. |
| EventSession.CutYields | labfunctions/client/base.py:264-274 | A listen cut after any character, of entries that are clean up to the cut or the first "exit", yields the first entries above its cursor, no "exit" among them. |
| EventSession.Resume | labfunctions/client/base.py:258-274 | Cut a listen anywhere, let the stream grow, reconnect with the id of the last event yielded: both parts together are the uninterrupted run, whenever the entries above the start cursor are clean up to and including the first "exit". |
| EventSession.EventsPublish | labfunctions/client/base.py:276-286 | A non-empty message is published once on the execution's channel; an empty one publishes nothing. |
| SecureName.SecureFilename | labfunctions/utils.py:197-217 | The result has only allowed characters and no "." or "_" at an edge. |
| SecureName.SecureFixedPoints | labfunctions/utils.py:197-217 | A name is left unchanged if and only if it is already of that form. |
| SecureName.SecureIdempotent | labfunctions/utils.py:197-217 | Securing twice is securing once; the result holds no separator, whitespace or edge "." or "_". |
| SecureName.PathsAreFlattened | labfunctions/utils.py:200-205 | Secure names between slashes or whitespace become one name with underscores between them. |
| SecureName.SeparatorsCollapse | labfunctions/utils.py:203 | Runs of separators count once, and separators at the edges do not count. |
| SecureName.NonAsciiIsDropped | labfunctions/utils.py:198 | Characters outside ASCII are dropped, wherever they are. |
| SecureName.KeptCharacters | labfunctions/utils.py:203 | Inside a name exactly the ASCII letters and digits, "_", "." and "-" are kept. |
| SecureName.ChannelsMeetExactly | labfunctions/events.py:59-63 | For all project ids: some executions share a channel if and only if the secured ids are equal or one extends the other by a dot and what may begin a name. |
| SecureName.ChannelsAreDisjoint | labfunctions/events.py:59-63 | For all names: unless one secured project id extends the other, channels are equal if and only if the secured project and execution ids are; over the project alphabet if and only if the project ids and the secured execution ids are. |
| SecureName.DottedProjectsCollide | labfunctions/defaults.py:62 | An instance of the condition: two ids over the alphabet joined by a dot, which is not in it, share a channel with the first. |
| Cluster.ClusterControl.CreateInstance | labfunctions/cluster/control.py:132-143 | Creates the machine at the site of its template's provider or, for an unknown cluster, machine or provider, changes nothing. |
| Cluster.ClusterControl.RegisterInstance | labfunctions/cluster/control.py:151-161 | Adds the record, the cluster name and the membership, and nothing else. |
| Cluster.ClusterControl.DestroyInstance | labfunctions/cluster/control.py:145-149 | Removes the machine at the site of the cluster's provider; an unknown cluster or missing machine changes nothing. |
| Cluster.ClusterControl.UnregisterInstance | labfunctions/cluster/control.py:163-168 | Removes the record, and the name from the given cluster's set only. |
| Cluster.ClusterControl.ListInstances | labfunctions/cluster/control.py:170-173 | Lists exactly the members of the cluster. |
| Cluster.ClusterControl.GetInstance | labfunctions/cluster/control.py:175-179 | Finds exactly the recorded machines. |
| Cluster.ClusterControl.ListMachines | labfunctions/cluster/providers/local.py:59-71 | Lists every machine at the provider's site once. |
| Cluster.ClusterControl.CreateTask | labfunctions/control/tasks.py:84-122 | Uninterrupted, a create ends with machine and record, or changes nothing. |
| Cluster.ClusterControl.DestroyTask | labfunctions/control/tasks.py:125-145 | Uninterrupted, a destroy removes machine and record; a failure at the provider leaves the registry alone. |
| Cluster.CreateCompletes | labfunctions/cluster/control.py:103-161 | Both steps of a create fail exactly for an unknown cluster, template or provider; else the machine, made from the template field by field, is at the template's site, recorded and listed, and nothing else changes. |
| Cluster.DestroyCompletes | labfunctions/cluster/control.py:145-168 | Both steps of a destroy fail exactly for an unknown cluster or provider or without the machine at that site; else machine, record and membership are gone, and nothing else changes. |
| Cluster.DestroyUndoesCreate | labfunctions/cluster/control.py:132-168 | For a fresh name, destroying what was created restores machines, records and memberships, and leaves the cluster listed, if and only if both providers keep their machines at one site; otherwise the destroy fails. |
| ClusterRuns.RunKeeps | labfunctions/control/tasks.py:84-145 | For every clusters file, in every reachable state of interleaved and crashed tasks with fresh machine names the two stores differ exactly by the tasks between their steps; if destroys also name the listing cluster, the lists agree with the records. |
| ClusterRuns.CreateRuns | labfunctions/control/tasks.py:84-122 | From every state, request, provider step and registry step of a create finish the task and do what the uninterrupted task does: the machine is at the template's site, recorded and listed. |
| ClusterRuns.DestroyRuns | labfunctions/control/tasks.py:125-145 | Likewise for a destroy of a recorded machine at its cluster's site: machine, record and membership are gone. |
| ClusterRuns.RegistryCompletes | labfunctions/control/tasks.py:106 | However tasks are interleaved, the registry step of a task between its steps finishes it with its record and membership in place, or gone. |
| ClusterRuns.ProviderStepExactly | labfunctions/control/tasks.py:105 | The provider step takes its task between its steps exactly when the provider can do it, changes nothing else, and otherwise changes nothing at all. |
| ClusterRuns.RequestsEnqueue | labfunctions/web/clusters_bp.py:58-67 | Requests change neither store; a destroy is enqueued exactly for a machine with a record. |
| ClusterRuns.GivingUpExactly | labfunctions/control/tasks.py:105-106 | A task can be given up exactly while its first step has not taken effect; neither store changes. |
| ClusterRuns.StoresDifferByHalfTasks | labfunctions/control/tasks.py:84-145 | For every clusters file and with fresh machine names, whatever cluster a destroy names: a machine exists unregistered if and only if a create stopped between its steps, and is registered but gone if and only if a destroy did; with none such the stores name the same machines. |
| ClusterRuns.ListingIsThePartition | labfunctions/cluster/control.py:151-173 | With fresh names and destroys that name the listing cluster, in every reachable state each registered machine is listed by exactly one cluster. |
| ClusterRuns.DestroyNamesItsCluster | labfunctions/web/clusters_bp.py:58-67 | A destroy keeps lists and records in step if and only if it names the cluster that lists the machine; the endpoint checks only that there is a record. |
| ClusterRuns.OrphansStay | labfunctions/control/tasks.py:143-144 | The record of a machine whose destroy stopped between its steps stays, however many destroys follow. |
| Heartbeat.RunKeeps | labfunctions/control_plane/heartbeat.py:21-32 | What every interleaving keeps: the thread is on time, and the key expires one time to live after the last SET. |
| Heartbeat.NeverMissedExactly | labfunctions/control_plane/heartbeat.py:21-26 | Under all interleavings the key is present from the first SET until the delete if and only if sleep plus lag is below the time to live. |
| Heartbeat.ShippedSettings | labfunctions/types/config.py:86-87 | The class defaults tolerate a lag below 5 s; the server settings tolerate none. |
| Heartbeat.SetsKeepTheirDistance | labfunctions/control_plane/heartbeat.py:23-26 | Two SETs are at least the sleep apart and, while the agent lives, at most the sleep and the lag; each gives the key its full time to live. |
| Heartbeat.DeletedBeforeFlag | labfunctions/control_plane/heartbeat.py:31-32 | `unregister` has returned only after a step that left the key absent and a later one that set the flag. |
| Heartbeat.OneLateSet | labfunctions/control_plane/heartbeat.py:23-32 | Once the flag is set at most one more SET occurs, only if the thread was past its test, and within the lag. |
| Heartbeat.GoneInTime | labfunctions/control_plane/heartbeat.py:23-32 | The key is absent for good once lag plus time to live have passed since the flag was set. |
| Heartbeat.ThreadLeaves | labfunctions/control_plane/heartbeat.py:23-32 | Once the sleep and two lags have passed after the flag was set, the loop is left. |
| Heartbeat.GoneForGoodExactly | labfunctions/control_plane/heartbeat.py:28-32 | After `unregister` the key is never seen again if and only if it is absent then and the thread is not between its test and its SET. |
| Heartbeat.ResurrectedKey | labfunctions/control_plane/heartbeat.py:28-32 | From every reachable state in which `unregister` has not begun, some interleaving has it return with the key absent and then brings the key back. |
| WorkflowServer.Server.WorkflowCreate | labfunctions/web/workflows_bp.py:91-116 | The new table, job store and answer are those of a create, whose content `CreateWrites` states. |
| WorkflowServer.Server.WorkflowUpdate | labfunctions/web/workflows_bp.py:126-154 | The new table, job store and answer are those of an update, whose content `UpdateWrites` states. |
| WorkflowServer.Server.WorkflowDelete | labfunctions/web/workflows_bp.py:161-173 | Drops the job whoever asks and the row of the asking project. |
| WorkflowServer.Server.RegisterJob | labfunctions/control/scheduler.py:44-64 | Stores one job under the workflow's id. |
| WorkflowServer.CreateWrites | labfunctions/managers/workflows_mg.py:148-168 | A create answers 200 and changes nothing for an unknown project, an alias the project has or an id in use; else 201, one row with the request field by field, and with a schedule its job in the queue of cluster and machine. |
| WorkflowServer.UpdateWrites | labfunctions/managers/workflows_mg.py:38-57 | An update answers 400 without an id, 500 when its alias is taken, else 201; only then every row with the id holds the request's task, alias, flag and schedule under its own id and project, all other rows and jobs are as they were, and a schedule's job is written. |
| WorkflowServer.UpdateConflictsExactly | labfunctions/models.py:184-192 | An update breaks uniqueness if and only if another workflow of the updated one's project has the alias. |
| WorkflowServer.DeleteWrites | labfunctions/managers/workflows_mg.py:171-177 | A delete takes away the job, whoever asks, the row of the asking project, and nothing else. |
| WorkflowServer.HandlersKeepUnique | labfunctions/models.py:184-192 | Every handler keeps one alias per project and one row per wfid. |
| WorkflowServer.CreateKeepsJobs | labfunctions/web/workflows_bp.py:102-116 | A create keeps every job on a stored workflow. |
| WorkflowServer.UpdateKeepsJobsExactly | labfunctions/managers/workflows_mg.py:139-146 | An update keeps every job on a stored workflow if and only if it is refused for want of an id, has no schedule, or names a stored id. |
| WorkflowServer.DeleteKeepsJobs | labfunctions/managers/workflows_mg.py:171-177 | A delete keeps it too, leaves no job, and leaves no row if and only if the row, if any, is the asking project's. |
| WorkflowServer.RunsKeepTable | labfunctions/web/workflows_bp.py:91-173 | Over any run of handlers the table stays unique, and all through it every job is that of a stored workflow if and only if every scheduling update is of a stored workflow at its moment. |
| WorkflowServer.CreateKeepsSchedules | labfunctions/web/workflows_bp.py:102-116 | A create keeps the jobs exactly those of the scheduled workflows. |
| WorkflowServer.UpdateKeepsSchedulesExactly | labfunctions/web/workflows_bp.py:141-154 | Any update keeps that if and only if it is refused, is of a stored workflow and has a schedule or finds no job, or is of an unstored one and has no schedule. |
| WorkflowServer.DeleteKeepsSchedulesExactly | labfunctions/control/scheduler.py:66-69 | A delete keeps that if and only if the scheduled row with the id, if any, is the asking project's. |
| WorkflowServer.RunsKeepSchedulesExactly | labfunctions/web/workflows_bp.py:91-173 | All through any run of handlers the jobs are exactly those of the scheduled workflows if and only if every request meets its handler's condition at its moment. |
| WorkflowPush.LabState.AddWorkflow | labfunctions/client/labstate.py:79-80 | Files the workflow under its alias, in place if the alias is known and else at the end. |
| WorkflowPush.LabState.DeleteWorkflow | labfunctions/client/labstate.py:82-83 | Drops exactly the alias and keeps the order of the others; an unknown one is an error that changes nothing. |
| WorkflowPush.LabState.FindById | labfunctions/client/labstate.py:85-89 | Finds the first workflow with the id in the state's order, if and only if there is one. |
| WorkflowPush.WorkflowsPush | labfunctions/client/workflows_client.py:68-106 | The create-mode push over the snapshot is the fold of single creates over both sides, and against these handlers reports no errors. |
| WorkflowPush.PushReflects | labfunctions/client/workflows_client.py:73-91 | A push adds exactly as many rows as it reports created; each reported id is the id of that alias's row, and with refreshing the client holds it. |
| WorkflowPush.PushWrites | labfunctions/client/workflows_client.py:74-88 | Every row a push adds holds a workflow of the snapshot that had no id, under the id drawn for it; every workflow of the client is as before or such a one, with the new id and all else kept; without refreshing none changes. |
| WorkflowPush.PushKeys | labfunctions/client/workflows_client.py:84-88 | Refreshing adds exactly the created aliases to the state's keys. |
| WorkflowPush.KeyedStatesKeepTheirKeys | labfunctions/client/labstate.py:79-80 | A state keyed by alias keeps its key set and stays keyed by alias. |
| WorkflowPush.PushSettles | labfunctions/client/workflows_client.py:74-88 | With fresh ids every pushed workflow is afterwards one that no create can add again, and no row is lost. |
| WorkflowPush.SecondPushIsIdle | labfunctions/client/workflows_client.py:68-106 | A second push of the resulting state creates nothing and changes neither side. |
| RefreshTokens.PayloadPreserves | labfunctions/security/authentication.py:50-63 | Encoding keeps every claim except the expiry and a given or configured issuer or audience; without an override the expiry is the configured time from now. |
| RefreshTokens.PayloadWrites | labfunctions/security/authentication.py:50-63 | Encoding writes the expiry, 60 seconds for each configured minute from now unless given, and an issuer and an audience that are given or else configured. |
| RefreshTokens.EncodedDecodesExactly | labfunctions/security/authentication.py:90-109 | What was encoded decodes again if and only if neither the payload nor the configuration has an audience. |
| RefreshTokens.RedisTokenStore.Put | labfunctions/security/redis_tokens.py:20-22 | Stores the value under the prefixed key, without an expiry. |
| RefreshTokens.RedisTokenStore.Get | labfunctions/security/redis_tokens.py:24-30 | Finds a value if and only if something is stored under the prefixed key, and then that value. |
| RefreshTokens.RedisTokenStore.Delete | labfunctions/security/redis_tokens.py:32-33 | Removes the prefixed key alone. |
| RefreshTokens.Auth.StoreRefreshToken | labfunctions/security/authentication.py:133-138 | Issues the drawn token under the key user, dot, token with the user as value. |
| RefreshTokens.Auth.ValidateRefreshToken | labfunctions/security/authentication.py:140-146 | Raises exactly for a token that is not genuine, lacks an expiry or a user or has an audience; else accepts if and only if the stored value equals the user, where an absent value equals a null user. |
| RefreshTokens.Auth.RefreshToken | labfunctions/security/authentication.py:148-158 | The new store and outcome are those of a refresh, whose conditions and content `GrantsExactly` and `GrantWrites` state. |
| RefreshTokens.GrantsExactly | labfunctions/security/authentication.py:140-158 | A refresh grants if and only if the token is genuine, has an expiry and no audience, names a text user, and that user and refresh token are stored; else it changes nothing, and it raises exactly for a token that does not decode or has no user, and for a null user whom nothing is stored for. |
| RefreshTokens.GrantWrites | labfunctions/security/authentication.py:148-157 | A granted refresh removes the redeemed key, stores the user under the key of the drawn token and touches nothing else; the new access token is genuine, names the user and expires the configured minutes from now. |
| RefreshTokens.SlotsAreDistinct | labfunctions/security/authentication.py:136 | For tokens without dots the keys of different pairs differ, even with dots in user names. |
| RefreshTokens.StoreRepresentsLive | labfunctions/security/authentication.py:133-158 | Over any run of logins and refreshes with fresh tokens the store holds exactly the live pairs, each with its user as value. |
| RefreshTokens.AcceptedExactlyLive | labfunctions/security/authentication.py:140-146 | A pair is accepted if and only if it is live, whatever string is presented. |
| RefreshTokens.AcceptedIffIssuedNotRedeemed | labfunctions/security/authentication.py:133-158 | After any run of logins and refreshes a pair is accepted if and only if it was issued and not yet redeemed. |
| RefreshTokens.RefreshKeepsCounts | labfunctions/security/authentication.py:148-158 | A failed refresh leaves the store unchanged; every refresh keeps every user's number of live tokens. |
| RefreshTokens.Rotation | labfunctions/security/authentication.py:148-158 | The granted token is live for the same user, the redeemed one is refused, the other claims are kept, and the granted access token names the user if and only if no audience is configured. |
| RefreshTokens.AudienceEndsRotation | labfunctions/security/authentication.py:90-109 | A granted pair can be refreshed in turn if and only if no audience is configured; with one the refresh raises and changes nothing. |
| RefreshTokens.NullUserValidatesExactly | labfunctions/security/authentication.py:140-146 | Over all runs and for every refresh token presented, a token with a null user validates if and only if no live pair, joined by a dot, spells "None", a dot and that refresh token; refreshing it never grants or changes anything. |
| RefreshTokens.NullUserExample | labfunctions/security/authentication.py:143-145 | A token with a null user that an empty store validates. |
| Scopes.Scope2Dict | labfunctions/security/scopes.py:4-18 | The last scope of each namespace decides its actions; an empty namespace, or no action, stands for "any". |
| Scopes.Validate | labfunctions/security/scopes.py:21-49 | Accepts if and only if (all required namespaces are held, or "any" is required, or `require_all` is off) and some shared namespace shares an action or requires "any". |
| Scopes.PermittedMeans | labfunctions/security/scopes.py:4-18 | With distinct namespaces every scope stands for itself and nothing else is permitted. |
| Scopes.ScopeReads | labfunctions/security/scopes.py:10-17 | A scope's actions are exactly those listed after its namespace; without a colon it stands for "any" action, without a namespace for the namespace "any". |
| Scopes.OneScopeOfOne | labfunctions/security/scopes.py:42-49 | One scope asked of one scope is granted if and only if the namespaces agree and the actions do or "any" is asked for. |
| Scopes.OrderIsIrrelevant | labfunctions/security/scopes.py:4-49 | With distinct namespaces the order of scopes changes no permission, hence no decision. |
| Scopes.RequireAllIsStricter | labfunctions/security/scopes.py:36-40 | What is accepted with `require_all` is accepted without it; the difference is exactly that all required namespaces are held, and none when "any" is required. |
| Scopes.GrantingIsMonotoneExactly | labfunctions/security/scopes.py:9-18 | One more granted scope turns no accept into a reject if and only if its namespace is new to the user or it repeats every action held there other than "any". |
| Scopes.GrantHurts | labfunctions/security/scopes.py:15-17 | Otherwise, the request that is accepted before and rejected after the grant. |
| AgentRegister.Register.RegisterAgent | labfunctions/control_plane/register.py:49-60 | Adds the record, the agent, its cluster and the membership. |
| AgentRegister.Register.UnregisterAgent | labfunctions/control_plane/register.py:62-70 | Removes the record, the agent, and the name from the given cluster's set only. |
| AgentRegister.Register.Remove | labfunctions/control_plane/register.py:98-104 | Removes the record and the agent, and no membership. |
| AgentRegister.Register.Get | labfunctions/control_plane/register.py:72-80 | Finds the record if and only if the name has one; in every reachable state that is if and only if the agent is listed, and the record bears the name and a cluster whose set holds it. |
| AgentRegister.Register.ListAgents | labfunctions/control_plane/register.py:109-119 | Lists all agents, or the members of a cluster. |
| AgentRegister.AlwaysIndexed | labfunctions/control_plane/register.py:49-104 | In every reachable state the agent list is the set of recorded names, and every recorded agent is in its own cluster's set and its cluster in the cluster list. |
| AgentRegister.RecordsAreHistory | labfunctions/control_plane/register.py:49-104 | Over any run an agent's record is exactly what it was last registered with, unless it left since. |
| AgentRegister.ClustersAreHistory | labfunctions/control_plane/register.py:56 | The cluster list holds exactly the clusters that ever had an agent. |
| AgentRegister.RegisterExactly | labfunctions/control_plane/register.py:49-60 | Registering keeps the cluster sets exact if and only if the agent does not change cluster. |
| AgentRegister.UnregisterExactly | labfunctions/control_plane/register.py:62-70 | Unregistering keeps them exact if and only if it names the recorded cluster or there is no record. |
| AgentRegister.RemoveExactly | labfunctions/control_plane/register.py:98-104 | Removing by name keeps them exact if and only if there was no record. |
| AgentRegister.FaithfulRunsAreExact | labfunctions/control_plane/register.py:49-119 | All through a run each cluster set is exactly the recorded agents of that cluster if and only if agents never change cluster and leave only by `unregister`, with the recorded cluster. |
| IdleAgents.AgentOfMeansPrefix | labfunctions/control_plane/register.py:16 | For an agent name without dots, its workers are those called like it or like it followed by a dot. |
| IdleAgents.Workers2Dict | labfunctions/control_plane/register.py:13-21 | Each agent with workers is mapped to its workers in order, and no other key exists. |
| IdleAgents.GroupsKeepOrder | labfunctions/control_plane/register.py:13-21 | Grouping a list is grouping its parts, one after the other. |
| IdleAgents.GroupsPartition | labfunctions/control_plane/register.py:13-21 | The groups partition the workers: every worker occurs in its agent's group as often as in the list, and in no other. |
| IdleAgents.Least | labfunctions/control_plane/register.py:163-164 | The first of the sorted times is an attained minimum. |
| IdleAgents.InSomeQueue | labfunctions/control_plane/register.py:154-157 | The workers collected are exactly those of the queues. |
| IdleAgents.IdleTimes | labfunctions/control_plane/register.py:149-166 | Fails if and only if some agent has no worker; otherwise gives for exactly the agents asked the attained minimum inactive time over all queues, in minutes. |
| IdleAgents.DottedAgentsAreNeverFound | labfunctions/control_plane/register.py:16 | An agent whose name holds a dot never has a worker. |
| ByteFormat.FormatBytes | labfunctions/utils.py:127-136 | The table search with early return prints the format of the largest unit reached. |
| ByteFormat.ThresholdIsNineTenths | labfunctions/utils.py:134 | Comparing with the double 0.9 times a unit decides like nine tenths of it, for every natural. |
| ByteFormat.ReadsAsShown | labfunctions/utils.py:135-136 | The text read back gives the printed hundredths times the unit. |
| ByteFormat.PrintedInOrder | labfunctions/utils.py:127-136 | The magnitudes shown are monotone in n, also across a change of unit, and what is printable is downward closed. |
| ByteFormat.Accuracy | labfunctions/utils.py:134-136 | What is shown is within k/200 of n, plus half the spacing of doubles above 2^53. |
| ByteFormat.TiesToEven | labfunctions/utils.py:135 | Between two neighbouring hundredths the even one is printed. |
| ByteFormat.OverflowsExactly | labfunctions/utils.py:135 | Printing fails exactly when the quotient by 2^50, as a double, would reach 2^1024. |
| ByteFormat.DocumentedSizes | labfunctions/utils.py:111-123 | The documented examples, and two ties. |
| ByteFormat.PrintableTo60 | labfunctions/utils.py:125 | Every size up to 2^60 is printed; only far larger ones overflow a double. |
| ByteFormat.WidthExactly | labfunctions/utils.py:125-136 | The text has at most 10 characters if and only if n < 1125894277343089729, and exactly 11 from there up to 2^60. |
| Hash96.OrIsSum | labfunctions/hashes.py:41 | Packing by shift and or is adding. |
| Hash96.OrBit | labfunctions/hashes.py:41 | A bit of the result of or is set exactly if it is set in either number. |
| Hash96.BytesRoundTrip | labfunctions/hashes.py:42-43 | The hex digits of the bytes read back as the number. |
| Hash96.IdRoundTrip | labfunctions/hashes.py:37-45 | An id exists if and only if the time is below 2^41; it has 24 hex digits that decode to the time and the random number. |
| Hash96.EveryNumberIsDrawn | labfunctions/hashes.py:40 | Every number below 2^55 can be drawn from 90 random bytes. |
| Hash96.HexOrder | labfunctions/hashes.py:22-24 | Among hex strings of one length the order of strings is the order of numbers. |
| Hash96.IdsSortByTime | labfunctions/hashes.py:20-45 | Ids sort as strings by time first and by the random number within a second, and are equal only if both are. |
| Paging.SameWindow | labfunctions/db/utils.py:42-59 | `pagination` and `calculate_page` give the same window and next page for all arguments. |
| Paging.EachWindow | labfunctions/db/utils.py:53-59 | The windows visited by following `next_page` are those of consecutive pages, and -1 is reached exactly on the last. |
| Paging.WindowCount | labfunctions/db/utils.py:55-58 | The number of pages is the least that reaches the total, and at least one. |
| Paging.WindowsTile | labfunctions/db/utils.py:42-50 | The windows from any page on are adjacent and cover all rows up to the end of the last. |
| Paging.PagesTile | labfunctions/db/utils.py:42-50 | From page 1 the windows are all the rows, once each and in order, if and only if the last window reaches the end; a total not below the number of rows suffices. |
| Paging.EndsExactly | labfunctions/db/utils.py:53-59 | Some page is the last if and only if the limit is positive, or limit and total are both 0. |
| Secrets.OpenVarsFile | labfunctions/secrets.py:24-39 | The loop gives the last value of each key; a line without "=" is an error and a missing file is empty. |
| Secrets.PlainFileReads | labfunctions/secrets.py:14-35 | A file of plain or quoted values holds the last value of each of its keys, without the quotes, and no other key. |
| Secrets.LoadFailsExactly | labfunctions/secrets.py:42-58 | Loading raises an index error exactly on a line without "=", else rejects exactly when some value does not decrypt, else decrypts the value of every key; a missing file is an empty one. |
| Secrets.FailsExactly | labfunctions/secrets.py:19-33 | Reading lines fails if and only if one of them has no "=". |
| Secrets.SecretsRoundTrip | labfunctions/secrets.py:90-98 | Encrypting, writing, reading and decrypting gives the same dictionary if and only if no key holds "=" or a line break. |
| Secrets.BundledVarsSurvive | labfunctions/runtimes/bundler.py:23-31 | Whatever a readable variables file holds comes back unchanged from the secrets file bundled for it. |
| Secrets.FileKeysArePlain | labfunctions/secrets.py:14-21 | No key read from any file holds "=" or a line break. |

## Left out

- EventStream.EventManager.Publish: the expiry of a whole stream after its time to live, stream ids beyond 64 bits, and trimming.
- EventStream.EventManager.Read: resumption with "$" starts at the newest entry of the moment, so a client that reconnects with it may miss entries; `EventSession.Resume` is about an explicit id.
- SseClient.EventsListen: how the HTTP library cuts a body into chunks and decodes bytes; a lone carriage return is taken as a line end, as the decoder of httpx below 0.22 does.
- EventSession.Session: says nothing when the client reads an entry that the message format cannot carry before the first "exit" is over; `SseClient.StreamRoundTripExact` says when that is. The serialisation of a dictionary to JSON before publishing is a parameter.
- EventSource.StandardReading: a byte order mark at the start of a stream and the `retry` field.
- Cluster.ClusterControl.CreateInstance: volumes, images, SSH keys, networks, IP addresses and the random choice of a name; a name is a parameter and freshness an assumption of the run theorems.
- Cluster.ClusterControl.CreateTask: the deployment of an agent after registration.
- ClusterRuns: the queue that runs tasks; a task whose first step failed may be retried any number of times or given up.
- Heartbeat: steps of the thread take no time of their own; the lag of the thread is bounded by one constant.
- WorkflowServer.Server.WorkflowCreate: validation of the JSON body, and failures of the job store or of the commit after a successful flush.
- WorkflowServer.Server.RegisterJob: the enqueuing of the job right after it is stored, and the context of the task.
- WorkflowServer.Server.WorkflowDelete: what the job store does when there is no job to remove; deletion of a project, which sets the project of its workflows to null.
- WorkflowPush.WorkflowsPush: the update mode and writing the labfile; error responses, which these handlers never give to a create.
- RefreshTokens.Auth.ValidateRefreshToken: signing, key selection, and the checks of the JWT library other than of "exp" and "aud"; PyJWT is not part of this model, and an empty "aud" claim is taken as an audience. Concurrent refreshes of one token.
- RefreshTokens.PayloadWrites: the clock; the code takes UTC for local time, so the moment called now is off by the server's time zone.
- RefreshTokens.AcceptedIffIssuedNotRedeemed: tokens are assumed to be drawn fresh and without dots.
- Scopes.GrantingIsMonotoneExactly: the wish that a grant never hurts holds only under the stated condition.
- SecureName.SecureFilename: the Unicode normalisation before the ASCII filter, and the device names of Windows.
- AgentRegister: the queue lookups, which prefix the cluster twice, and machine records.
- IdleAgents.IdleTimes: inactive times are whole seconds and the division by 60 is exact.
- Hash96: the source of randomness; any bytes are allowed.
- Paging: the SQL that counts rows; the total is any number.
- Secrets.SecretsRoundTrip: Fernet itself, and that `load` returns the decrypted values as bytes while `_open_vars_file` returns text; the file is read and written in one encoding.
- Secrets.OpenVarsFile: `load` without a private key and without a base path, which returns an unbound variable.
- Autoscaling policies, the notebook cache, the legacy scheduler, history and project queries: they would add easy members or no theorem holds of them.
