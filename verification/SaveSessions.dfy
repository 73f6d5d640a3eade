/** The sessions of the agent and the objects behind the save protocol: enqueuing, the
    worker's loop, and the release of a session. */
module SaveSessions {
  import opened Options
  import opened SaveWorker

  /** The steps of a save request, without and with a release. */
  function EnqueueSteps<T>(content: T): seq<Step<T>> { [Store(content, false), SendWake] }

  function ReleaseSteps<T>(content: Option<T>): seq<Step<T>> {
    match content
    case Some(c) => [Store(c, true), SendWake, Detach, DropSession]
    case None => [ReleaseEmpty, Detach, DropSession]
  }

  class SessionSave<T> {
    var pendingSave: Option<Save<T>>
    var version: nat
    var seen: nat
    var closed: bool
    var detached: bool
    var row: Option<T>
    ghost var front: Front
    ghost var worker: Worker<T>
    ghost var enqueued: seq<T>
    ghost var attempted: seq<nat>
    ghost var persisted: seq<nat>
    var count: nat

    ghost function Value(): State<T>
      reads this
    {
      State(enqueued, pendingSave, version, seen, closed, detached, front, worker, attempted, persisted, row)
    }

    ghost predicate Valid()
      reads this
    {
      count == |enqueued| && Inv(Value())
    }

    constructor ()
      ensures Valid() && Value() == Start<T>()
    {
      pendingSave, version, seen, closed, detached, row := None, 0, 0, false, false, None;
      front, worker, enqueued, attempted, persisted, count := Idle, Waiting, [], [], [], 0;
    }

    /** Overwrites the slot and wakes the worker. */
    method EnqueueSave(content: T)
      requires Valid() && front.Idle?
      modifies this
      ensures Valid() && front.Idle?
      ensures Allowed(old(Value()), EnqueueSteps(content)) && Value() == Run(old(Value()), EnqueueSteps(content))
    {
      hide Inv, Allowed, Run, EnqueueSteps;
      ghost var s := Value();
      FollowEnqueue(s, content);
      pendingSave := Some(Save(count, content));
      enqueued, count := enqueued + [content], count + 1;
      version := version + 1;
      assert Value() == Run(s, EnqueueSteps(content));
    }

    /** Enqueues a last save if there is anything to save, lets the worker outlive the
        session, and drops the session with its end of the channel. */
    method Release(content: Option<T>)
      requires Valid() && front.Idle?
      modifies this
      ensures Valid() && front.Gone?
      ensures Allowed(old(Value()), ReleaseSteps(content)) && Value() == Run(old(Value()), ReleaseSteps(content))
    {
      hide Inv, Allowed, Run, ReleaseSteps;
      ghost var s := Value();
      FollowRelease(s, content);
      match content {
        case Some(c) =>
          pendingSave := Some(Save(count, c));
          enqueued, count := enqueued + [c], count + 1;
          version := version + 1;
        case None =>
      }
      detached := true;
      closed, front := true, Gone;
      assert Value() == Run(s, ReleaseSteps(content));
    }

    /** Waits for a wake; the outcome is whether the channel ended. */
    method Changed() returns (ended: bool)
      requires Valid() && worker.Waiting? && (version != seen || closed)
      modifies `seen, `worker
      ensures Valid() && worker == Woken(ended) && Value() == Apply(old(Value()), Notice)
    {
      KeepsInv(Value(), Notice);
      ended := version == seen;
      seen, worker := version, Woken(ended);
    }

    /** Empties the slot. */
    method TakePending() returns (payload: Option<Save<T>>)
      requires Valid() && worker.Woken?
      modifies `pendingSave, `worker
      ensures Valid() && payload == old(pendingSave) && Value() == Apply(old(Value()), Take)
      ensures worker == if payload.Some? then Writing(payload.value, old(worker.closed))
                        else NextRound(old(worker.closed))
    {
      KeepsInv(Value(), Take);
      payload := pendingSave;
      pendingSave := None;
      match payload {
        case Some(save) => worker := Writing(save, worker.closed);
        case None => worker := NextRound(worker.closed);
      }
    }

    /** Writes the snapshot to the database; an error is logged and otherwise ignored. */
    method SaveThread(save: Save<T>, db: Database)
      requires Valid() && worker.Writing? && worker.save == save
      modifies `row, `worker, `attempted, `persisted
      ensures Valid() && worker == NextRound(old(worker.closed))
      ensures Value() == Apply(old(Value()), Finish(db(save.number)))
      ensures row == if db(save.number) then Some(save.content) else old(row)
    {
      KeepsInv(Value(), Finish(db(save.number)));
      if db(save.number) {
        row := Some(save.content);
        persisted := persisted + [save.number];
      }
      attempted := attempted + [save.number];
      worker := NextRound(worker.closed);
    }

    /** The worker's loop, up to where it would wait for the next wake. */
    method RunSaveWorker(db: Database)
      requires Valid() && worker.Waiting?
      modifies this
      ensures Valid() && StepsLeft(Value()) == 0
      ensures Value() == Outcome(old(Value()), db)
    {
      hide Inv, Drained, Run, Apply, Outcome, StepsLeft;
      ghost var final := Outcome(Value(), db);
      while version != seen || closed
        invariant Valid() && worker.Waiting? && Outcome(Value(), db) == final
        decreases StepsLeft(Value())
      {
        OutcomeStep(Value(), db);
        var ended := Changed();
        OutcomeStep(Value(), db);
        var payload := TakePending();
        if payload.Some? {
          OutcomeStep(Value(), db);
          SaveThread(payload.value, db);
        }
        if ended {
          break;
        }
      }
      OutcomeReached(Value(), db);
    }
  }

  /** The state in which the worker, running alone, can go no further. */
  ghost function Outcome<T>(s: State<T>, db: Database): State<T>
    requires Inv(s)
  {
    Run(s, Drained(s, db))
  }

  lemma OutcomeReached<T>(s: State<T>, db: Database)
    requires Inv(s)
    requires s.worker.Stopped? || (s.worker.Waiting? && s.version == s.seen && !s.closed)
    ensures StepsLeft(s) == 0 && Outcome(s, db) == s
  {}

  lemma OutcomeStep<T>(s: State<T>, db: Database)
    requires Inv(s) && !s.worker.Stopped? && Enabled(s, WorkerStep(s, db))
    ensures Inv(Apply(s, WorkerStep(s, db)))
    ensures Outcome(Apply(s, WorkerStep(s, db)), db) == Outcome(s, db)
    ensures StepsLeft(Apply(s, WorkerStep(s, db))) < StepsLeft(s)
  {
    WorkerProgress(s, db);
    KeepsInv(s, WorkerStep(s, db));
    hide Inv, Apply, Enabled, StepsLeft;
    assert Drained(s, db)[1..] == Drained(Apply(s, WorkerStep(s, db)), db);
  }

  lemma FollowEnqueue<T>(s: State<T>, content: T)
    requires Inv(s) && s.front.Idle?
    ensures Allowed(s, EnqueueSteps(content)) && Inv(Run(s, EnqueueSteps(content)))
    ensures Run(s, EnqueueSteps(content)) ==
      s.(enqueued := s.enqueued + [content], pending := Some(Save(|s.enqueued|, content)), version := s.version + 1)
  {
    hide Inv;
    var s1 := Apply(s, Store(content, false));
    var s2 := Apply(s1, SendWake);
    assert EnqueueSteps(content)[1..] == [SendWake] && [Step<T>.SendWake][1..] == [];
    assert Allowed(s2, []) && Run(s2, []) == s2;
    assert Allowed(s1, [SendWake]) && Run(s1, [SendWake]) == s2;
    RunKeepsInv(s, EnqueueSteps(content));
  }

  lemma FollowRelease<T>(s: State<T>, content: Option<T>)
    requires Inv(s) && s.front.Idle?
    ensures Allowed(s, ReleaseSteps(content)) && Inv(Run(s, ReleaseSteps(content)))
    ensures Run(s, ReleaseSteps(content)) ==
      match content
      case Some(c) =>
        s.(enqueued := s.enqueued + [c], pending := Some(Save(|s.enqueued|, c)), version := s.version + 1,
           detached := true, closed := true, front := Gone)
      case None => s.(detached := true, closed := true, front := Gone)
  {
    hide Inv;
    var tail := [Step<T>.Detach, DropSession];
    if content.Some? {
      var s1 := Apply(s, Store(content.value, true));
      var s2 := Apply(s1, SendWake);
      FollowDrop(s2);
      assert ReleaseSteps(content)[1..] == [SendWake] + tail && ([Step<T>.SendWake] + tail)[1..] == tail;
      assert Allowed(s1, [SendWake] + tail) && Run(s1, [SendWake] + tail) == Run(s2, tail);
    } else {
      var s1 := Apply(s, ReleaseEmpty);
      FollowDrop(s1);
      assert ReleaseSteps(content)[1..] == tail;
    }
    RunKeepsInv(s, ReleaseSteps(content));
  }

  lemma FollowDrop<T>(s: State<T>)
    requires s.front.MustDetach?
    ensures Allowed(s, [Detach, DropSession])
    ensures Run(s, [Detach, DropSession]) == s.(detached := true, closed := true, front := Gone)
  {}

  // ---- The sessions of the agent ---------------------------------------------------------------------

  type SessionId = string
  type EntityId = nat

  datatype Session<T> = Session(acpThread: EntityId, projectId: EntityId, save: SessionSave<T>)

  predicate UsesProject<T>(sessions: map<SessionId, Session<T>>, project: EntityId) {
    exists id :: id in sessions && sessions[id].projectId == project
  }

  class NativeAgent<T> {
    var sessions: map<SessionId, Session<T>>
    var projects: set<EntityId>

    /** Releases the session that holds this thread; a stale release changes nothing. */
    method ReleaseSession(sessionId: SessionId, acpThread: EntityId, content: Option<T>)
      requires sessionId in sessions ==> sessions[sessionId].save.Valid() && sessions[sessionId].save.front.Idle?
      modifies this, if sessionId in sessions then {sessions[sessionId].save} else {}
      ensures sessionId !in old(sessions) || old(sessions)[sessionId].acpThread != acpThread ==>
        unchanged(this) && (sessionId in sessions ==> unchanged(sessions[sessionId].save))
      ensures sessionId in old(sessions) && old(sessions)[sessionId].acpThread == acpThread ==>
        var released := old(sessions)[sessionId];
        && sessions == old(sessions) - {sessionId}
        && projects == old(projects) - (if UsesProject(sessions, released.projectId) then {} else {released.projectId})
        && released.save.Valid()
        && Allowed(old(released.save.Value()), ReleaseSteps(content))
        && released.save.Value() == Run(old(released.save.Value()), ReleaseSteps(content))
    {
      if sessionId !in sessions || sessions[sessionId].acpThread != acpThread {
        return;
      }
      var session := sessions[sessionId];
      session.save.Release(content);
      sessions := sessions - {sessionId};
      if !UsesProject(sessions, session.projectId) {
        projects := projects - {session.projectId};
      }
    }
  }

  /** A session's project stays open as long as some session uses it, and projects are
      closed with their last session: releasing keeps exactly the projects in use. */
  lemma ReleaseKeepsProjectsInUse<T>(
      sessions: map<SessionId, Session<T>>, projects: set<EntityId>, id: SessionId, project: EntityId)
    requires id in sessions
    requires forall p :: p in projects <==> UsesProject(sessions, p)
    ensures var after := sessions - {id};
      var released := sessions[id].projectId;
      project in (projects - (if UsesProject(after, released) then {} else {released})) <==> UsesProject(after, project)
  {
    var after, released := sessions - {id}, sessions[id].projectId;
    if UsesProject(after, project) {
      var other :| other in after && after[other].projectId == project;
      assert sessions[other].projectId == project;
    }
    if UsesProject(sessions, project) && project != released {
      var other :| other in sessions && sessions[other].projectId == project;
      assert other in after && after[other].projectId == project;
    }
  }
}
