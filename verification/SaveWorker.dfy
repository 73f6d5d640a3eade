/** The coalescing save of a thread: a one-slot mailbox of the latest snapshot, a wake
    channel, and one worker that drains them.  Storing and waking are two separate steps
    and every interleaving with the worker is a run. */
module SaveWorker {
  import opened Options

  /** A snapshot to persist, numbered in the order of the save requests. */
  datatype Save<T> = Save(number: nat, content: T)

  /** Where the code that enqueues and releases stands. */
  datatype Front = Idle | MustWake(releasing: bool) | MustDetach | MustDrop | Gone

  /** Where the worker stands; `closed` is the outcome of its last wait. */
  datatype Worker<T> = Waiting | Woken(closed: bool) | Writing(save: Save<T>, closed: bool) | Stopped | Cancelled

  datatype State<T> = State(
    enqueued: seq<T>,          // every snapshot stored so far
    pending: Option<Save<T>>,  // the slot
    version: nat,              // of the wake channel
    seen: nat,                 // the version the worker saw last
    closed: bool,              // the sender of the channel was dropped
    detached: bool,            // the worker no longer dies with the session
    front: Front,
    worker: Worker<T>,
    attempted: seq<nat>,       // the numbers of the writes that ran to their end
    persisted: seq<nat>,       // of those, the ones that succeeded
    row: Option<T>)            // what the database holds

  function Start<T>(): State<T> {
    State([], None, 0, 0, false, false, Idle, Waiting, [], [], None)
  }

  datatype Step<T> =
    | Store(content: T, releasing: bool)
    | SendWake
    | ReleaseEmpty
    | Detach
    | DropSession
    | Notice
    | Take
    | Finish(ok: bool)

  predicate Enabled<T>(s: State<T>, step: Step<T>) {
    match step
    case Store(_, _) => s.front.Idle?
    case ReleaseEmpty => s.front.Idle?
    case SendWake => s.front.MustWake?
    case Detach => s.front.MustDetach?
    case DropSession => s.front.MustDrop?
    case Notice => s.worker.Waiting? && (s.version != s.seen || s.closed)
    case Take => s.worker.Woken?
    case Finish(_) => s.worker.Writing?
  }

  /** The end of a round of the worker's loop. */
  function NextRound<T>(closed: bool): Worker<T> {
    if closed then Stopped else Waiting
  }

  function Apply<T>(s: State<T>, step: Step<T>): State<T>
    requires Enabled(s, step)
  {
    match step
    case Store(content, releasing) =>
      s.(enqueued := s.enqueued + [content], pending := Some(Save(|s.enqueued|, content)), front := MustWake(releasing))
    case SendWake =>
      s.(version := s.version + 1, front := if s.front.releasing then MustDetach else Idle)
    case ReleaseEmpty => s.(front := MustDetach)
    case Detach => s.(detached := true, front := MustDrop)
    case DropSession =>
      s.(closed := true, front := Gone,
         worker := if s.detached || s.worker.Stopped? then s.worker else Cancelled)
    case Notice =>
      if s.version != s.seen then s.(seen := s.version, worker := Woken(false)) else s.(worker := Woken(true))
    case Take =>
      (match s.pending
       case Some(save) => s.(pending := None, worker := Writing(save, s.worker.closed))
       case None => s.(worker := NextRound(s.worker.closed)))
    case Finish(ok) =>
      var save := s.worker.save;
      var done := s.(attempted := s.attempted + [save.number], worker := NextRound(s.worker.closed));
      if ok then done.(persisted := s.persisted + [save.number], row := Some(save.content)) else done
  }

  predicate Allowed<T>(s: State<T>, steps: seq<Step<T>>)
    decreases steps
  {
    steps == [] || (Enabled(s, steps[0]) && Allowed(Apply(s, steps[0]), steps[1..]))
  }

  function Run<T>(s: State<T>, steps: seq<Step<T>>): State<T>
    requires Allowed(s, steps)
    decreases steps
  {
    if steps == [] then s else Run(Apply(s, steps[0]), steps[1..])
  }

  // ---- What every step keeps -------------------------------------------------------------------------

  predicate Ascending(s: seq<nat>) {
    forall i, j :: 0 <= i < j < |s| ==> s[i] < s[j]
  }

  function Last(s: seq<nat>): int { if s == [] then -1 else s[|s| - 1] }

  /** The number of the save the worker took last, finished or not; -1 before the first. */
  function Taken<T>(s: State<T>): int {
    if s.worker.Writing? then s.worker.save.number else Last(s.attempted)
  }

  ghost predicate Genuine<T>(s: State<T>, save: Save<T>) {
    save.number < |s.enqueued| && s.enqueued[save.number] == save.content
  }

  /** The history: writes are attempted in order, each of a snapshot that was stored, and
      the row is the last one that succeeded. */
  ghost predicate History<T>(s: State<T>) {
    && Ascending(s.attempted) && Ascending(s.persisted)
    && (forall k :: 0 <= k < |s.attempted| ==> s.attempted[k] < |s.enqueued|)
    && (forall k :: 0 <= k < |s.persisted| ==> s.persisted[k] in s.attempted)
    && Last(s.persisted) <= Last(s.attempted)
    && (s.row.Some? <==> s.persisted != [])
    && (s.row.Some? ==> Last(s.persisted) < |s.enqueued| && s.row.value == s.enqueued[Last(s.persisted)])
    && (s.worker.Writing? ==> Genuine(s, s.worker.save) && Last(s.attempted) < s.worker.save.number)
  }

  /** The mailbox: the slot holds the newest snapshot, and when it is empty the newest one
      was taken; a filled slot is always followed by a wake the worker has yet to see. */
  ghost predicate Mailbox<T>(s: State<T>) {
    && s.seen <= s.version
    && (s.pending.Some? ==> Genuine(s, s.pending.value) && s.pending.value.number == |s.enqueued| - 1
                            && Taken(s) < s.pending.value.number)
    && (s.pending.None? ==> Taken(s) == |s.enqueued| - 1)
    && (s.pending.Some? ==> s.front.MustWake? || s.version != s.seen || s.worker.Woken?)
  }

  /** The release: the channel closes last, after the worker was detached. */
  predicate Lifetime<T>(s: State<T>) {
    && (s.closed <==> s.front.Gone?)
    && (s.front.MustDrop? || s.front.Gone? ==> s.detached)
    && (s.worker.Woken? || s.worker.Writing? ==> s.worker.closed ==> s.closed && s.version == s.seen)
    && (s.worker.Writing? && s.worker.closed ==> s.pending.None?)
    && (s.worker.Stopped? ==> s.closed && s.pending.None?)
    && !s.worker.Cancelled?
  }

  ghost predicate Inv<T>(s: State<T>) { History(s) && Mailbox(s) && Lifetime(s) }

  lemma FinishKeepsHistory<T>(s: State<T>, ok: bool)
    requires Inv(s) && s.worker.Writing?
    ensures History(Apply(s, Finish(ok)))
  {}

  lemma StepKeepsHistory<T>(s: State<T>, step: Step<T>)
    requires Inv(s) && Enabled(s, step)
    ensures History(Apply(s, step))
  {
    if step.Finish? {
      FinishKeepsHistory(s, step.ok);
    } else {
      hide Ascending;
    }
  }

  lemma StepKeepsMailbox<T>(s: State<T>, step: Step<T>)
    requires Inv(s) && Enabled(s, step)
    ensures Mailbox(Apply(s, step))
  {}

  lemma StepKeepsLifetime<T>(s: State<T>, step: Step<T>)
    requires Inv(s) && Enabled(s, step)
    ensures Lifetime(Apply(s, step))
  {}

  lemma KeepsInv<T>(s: State<T>, step: Step<T>)
    requires Inv(s) && Enabled(s, step)
    ensures Inv(Apply(s, step))
  {
    StepKeepsHistory(s, step);
    StepKeepsMailbox(s, step);
    StepKeepsLifetime(s, step);
  }

  lemma {:induction false} RunKeepsInv<T>(s: State<T>, steps: seq<Step<T>>)
    requires Inv(s) && Allowed(s, steps)
    ensures Inv(Run(s, steps))
    decreases steps
  {
    if steps != [] {
      hide Inv, Apply, Enabled;
      KeepsInv(s, steps[0]);
      RunKeepsInv(Apply(s, steps[0]), steps[1..]);
    }
  }

  // ---- What every run promises -------------------------------------------------------------------------

  /** The worker has stopped, or it waits and no wake is on its way. */
  predicate Quiet<T>(s: State<T>) {
    || s.worker.Stopped?
    || (s.worker.Waiting? && s.version == s.seen && !s.front.MustWake?)
  }

  /** In every run the database writes are an in-order subsequence of the stored snapshots,
      the row is the last that succeeded, and a write that was started is never cancelled. */
  lemma RunPersistsInOrder<T>(steps: seq<Step<T>>)
    requires Allowed(Start<T>(), steps)
    ensures var s := Run(Start<T>(), steps);
      && Ascending(s.persisted)
      && (forall k :: 0 <= k < |s.persisted| ==> s.persisted[k] < |s.enqueued|)
      && (s.persisted != [] ==> s.row == Some(s.enqueued[s.persisted[|s.persisted| - 1]]))
      && !s.worker.Cancelled?
  {
    RunKeepsInv(Start<T>(), steps);
  }

  /** Once the worker is quiet, the last snapshot stored was the last one written. */
  lemma QuietLosesNothing<T>(steps: seq<Step<T>>)
    requires Allowed(Start<T>(), steps) && Quiet(Run(Start<T>(), steps))
    ensures var s := Run(Start<T>(), steps);
      && s.pending.None?
      && Last(s.attempted) == |s.enqueued| - 1
      && (s.enqueued != [] && Last(s.persisted) == Last(s.attempted) ==> s.row == Some(s.enqueued[|s.enqueued| - 1]))
  {
    RunKeepsInv(Start<T>(), steps);
  }

  /** The database's answer to each write, by the number of the snapshot. */
  type Database = nat -> bool

  /** The writes of the run end as the database answers them. */
  predicate Answered<T>(s: State<T>, steps: seq<Step<T>>, db: Database)
    requires Allowed(s, steps)
    decreases steps
  {
    steps == [] ||
    ((steps[0].Finish? ==> steps[0].ok == db(s.worker.save.number)) && Answered(Apply(s, steps[0]), steps[1..], db))
  }

  /** What was persisted is what was attempted and accepted. */
  ghost predicate Recorded<T>(s: State<T>, db: Database) {
    forall n :: n in s.persisted <==> n in s.attempted && db(n)
  }

  lemma FinishRecords<T>(s: State<T>, db: Database)
    requires s.worker.Writing? && Recorded(s, db) && Inv(s)
    ensures Recorded(Apply(s, Finish(db(s.worker.save.number))), db)
  {}

  lemma {:induction false} AnsweredRun<T>(s: State<T>, steps: seq<Step<T>>, db: Database)
    requires Inv(s) && Allowed(s, steps) && Answered(s, steps, db) && Recorded(s, db)
    ensures Recorded(Run(s, steps), db)
    decreases steps
  {
    if steps != [] {
      hide Inv, Recorded;
      var next := Apply(s, steps[0]);
      assert Recorded(next, db) by {
        if steps[0].Finish? { FinishRecords(s, db); } else { StillRecorded(s, steps[0], db); }
      }
      KeepsInv(s, steps[0]);
      AnsweredRun(next, steps[1..], db);
    }
  }

  lemma StillRecorded<T>(s: State<T>, step: Step<T>, db: Database)
    requires Recorded(s, db) && Enabled(s, step) && !step.Finish?
    ensures Recorded(Apply(s, step), db)
  {}

  lemma LastPersisted<T>(s: State<T>, db: Database)
    requires History(s) && Recorded(s, db) && s.attempted != []
    ensures Last(s.persisted) == Last(s.attempted) <==> db(s.attempted[|s.attempted| - 1])
  {
    assert s.attempted[|s.attempted| - 1] in s.attempted;
    if s.attempted[|s.attempted| - 1] in s.persisted {
      var k :| 0 <= k < |s.persisted| && s.persisted[k] == s.attempted[|s.attempted| - 1];
    }
  }

  /** Whatever fails in between, a quiet worker leaves the last snapshot stored in the row
      exactly if the database accepted that one. */
  lemma QuietRowIsLatest<T>(steps: seq<Step<T>>, db: Database)
    requires Allowed(Start<T>(), steps) && Answered(Start<T>(), steps, db) && Quiet(Run(Start<T>(), steps))
    ensures var s := Run(Start<T>(), steps);
      if s.enqueued == [] then s.row == None
      else var last := |s.enqueued| - 1;
        && (db(last) <==> s.persisted != [] && s.persisted[|s.persisted| - 1] == last)
        && (db(last) ==> s.row == Some(s.enqueued[last]))
  {
    hide Allowed, Run, Answered, Recorded;
    QuietLosesNothing(steps);
    StartRecorded<T>(db);
    StartInv<T>();
    AnsweredRun(Start<T>(), steps, db);
    RunKeepsInv(Start<T>(), steps);
    var s := Run(Start<T>(), steps);
    if s.enqueued != [] { LastPersisted(s, db); }
  }

  lemma StartRecorded<T>(db: Database)
    ensures Recorded(Start<T>(), db)
  {}

  // ---- The worker gets there -----------------------------------------------------------------------------

  /** The worker's own next step. */
  function WorkerStep<T>(s: State<T>, db: Database): Step<T> {
    if s.worker.Waiting? then Notice
    else if s.worker.Writing? then Finish(db(s.worker.save.number))
    else Take
  }

  /** How many steps the worker can take before it needs the front to act. */
  function StepsLeft<T>(s: State<T>): nat {
    (if s.worker.Woken? then 2 else if s.worker.Writing? then 1 else 0)
    + (if s.version != s.seen && !s.worker.Stopped? then 3 else 0)
    + (if s.closed && (s.worker.Waiting? || ((s.worker.Woken? || s.worker.Writing?) && !s.worker.closed)) then 3 else 0)
  }

  lemma WorkerProgress<T>(s: State<T>, db: Database)
    requires Inv(s)
    ensures StepsLeft(s) <= 8
    ensures StepsLeft(s) > 0 <==> !s.worker.Stopped? && Enabled(s, WorkerStep(s, db))
    ensures StepsLeft(s) > 0 ==> StepsLeft(Apply(s, WorkerStep(s, db))) < StepsLeft(s)
    ensures StepsLeft(s) == 0 && !s.front.MustWake? ==> Quiet(s)
  {}

  /** The worker running alone until it can go no further. */
  ghost function Drained<T>(s: State<T>, db: Database): (steps: seq<Step<T>>)
    requires Inv(s)
    ensures Allowed(s, steps) && |steps| <= StepsLeft(s) && Answered(s, steps, db)
    ensures StepsLeft(Run(s, steps)) == 0
    ensures Run(s, steps).front == s.front && Run(s, steps).enqueued == s.enqueued
    decreases StepsLeft(s)
  {
    WorkerProgress(s, db);
    if StepsLeft(s) == 0 then []
    else
      var step := WorkerStep(s, db);
      KeepsInv(s, step);
      [step] + Drained(Apply(s, step), db)
  }

  lemma {:induction false} RunAppend<T>(s: State<T>, a: seq<Step<T>>, b: seq<Step<T>>)
    requires Allowed(s, a) && Allowed(Run(s, a), b)
    ensures Allowed(s, a + b) && Run(s, a + b) == Run(Run(s, a), b)
    decreases a
  {
    if a == [] {
      assert a + b == b;
    } else {
      assert (a + b)[1..] == a[1..] + b;
      RunAppend(Apply(s, a[0]), a[1..], b);
    }
  }

  lemma {:induction false} AnsweredAppend<T>(s: State<T>, a: seq<Step<T>>, b: seq<Step<T>>, db: Database)
    requires Allowed(s, a) && Allowed(Run(s, a), b) && Answered(s, a, db) && Answered(Run(s, a), b, db)
    ensures Allowed(s, a + b) && Answered(s, a + b, db)
    decreases a
  {
    RunAppend(s, a, b);
    if a == [] {
      assert a + b == b;
    } else {
      assert (a + b)[1..] == a[1..] + b;
      AnsweredAppend(Apply(s, a[0]), a[1..], b, db);
    }
  }

  /** The last snapshot stored is in the row exactly if the database accepts it, and after a
      release the worker has stopped. */
  ghost predicate Delivered<T>(s: State<T>, db: Database) {
    && (if s.enqueued == [] then s.row == None
        else var last := |s.enqueued| - 1;
          && (db(last) <==> s.persisted != [] && s.persisted[|s.persisted| - 1] == last)
          && (db(last) ==> s.row == Some(s.enqueued[last])))
    && (s.closed ==> s.worker.Stopped?)
  }

  /** From any state of any run, whatever writes failed, once no wake is outstanding at most
      eight steps of the worker alone bring the last snapshot stored into the row if the
      database accepts that one; after a release the worker stops. */
  lemma LatestGetsPersisted<T>(steps: seq<Step<T>>, db: Database)
    requires Allowed(Start<T>(), steps) && Answered(Start<T>(), steps, db)
    requires !Run(Start<T>(), steps).front.MustWake?
    ensures var s := Run(Start<T>(), steps);
      exists more: seq<Step<T>> ::
        && |more| <= 8 && Allowed(s, more) && Answered(s, more, db)
        && Run(s, more).enqueued == s.enqueued && Delivered(Run(s, more), db)
  {
    hide Allowed, Run, Inv, Quiet, StepsLeft, Answered;
    var s := Run(Start<T>(), steps);
    StartInv<T>();
    RunKeepsInv(Start<T>(), steps);
    WorkerProgress(s, db);
    var more := Drained(s, db);
    var t := Run(s, more);
    RunKeepsInv(s, more);
    WorkerProgress(t, db);
    RunAppend(Start<T>(), steps, more);
    AnsweredAppend(Start<T>(), steps, more, db);
    QuietRowIsLatest(steps + more, db);
    ClosedStops(t);
  }

  lemma StartInv<T>()
    ensures Inv(Start<T>())
  {}

  lemma ClosedStops<T>(s: State<T>)
    requires Inv(s) && StepsLeft(s) == 0
    ensures s.closed ==> s.worker.Stopped?
  {}
}
