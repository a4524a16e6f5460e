/** The asynchronous radio: a client, a driver task that owns the protocol engine, two bounded channels and one-shot
    reply slots, as steps between the points where the driver task or the client awaits something. */
module Actor {
  import opened Bytes
  import opened Types
  import CommandLine
  import Decode
  import opened Machine
  import History
  import opened Discipline
  import Abandoned
  import Chunking

  const CMD_QUEUE: nat := 8
  const EVENT_QUEUE: nat := 64

  datatype Job = Job(id: nat, cmd: Command)

  datatype Reply = Replied(response: Response) | CoreError(error: Error) | IoError | TimedOut | PortClosed

  datatype Task =
    | Select                                    // waits for a job or for bytes
    | Polling(job: Job)                         // about to poll for a job
    | Writing(job: Job, bytes: seq<u8>)         // awaits write_all
    | Reading(job: Job)                         // awaits bytes or the job's deadline
    | Sending(event: Event, back: Option<Job>)  // awaits room in the event channel
    | Draining                                  // about to poll after an idle read
    | Stopped

  datatype Client = AtRest | Queueing(cmd: Command) | Waiting(id: nat)

  datatype Filled = Filled(id: nat, reply: Reply)

  datatype Resolved = Resolved(job: Job, response: Response)

  datatype System = System(
    core: Core,
    task: Task,
    client: Client,
    jobs: seq<Job>,            // command channel
    events: seq<Event>,        // event channel
    queued: seq<Job>,          // all jobs ever put in the channel
    started: seq<Job>,         // all jobs ever taken out
    slots: seq<Filled>,        // reply slots filled, in order
    resolved: seq<Resolved>,   // responses polled, with the job whose command they freed
    owner: Option<Job>,        // the job whose command is in the driver's slot
    polled: seq<Event>,        // events polled
    returned: seq<Event>,      // events returned by next_event
    results: seq<Filled>,      // what the requests returned, in order
    written: seq<u8>,          // bytes the port has taken in whole writes
    intact: bool)              // no write has failed

  const BOOT: System := System(FRESH, Select, AtRest, [], [], [], [], [], [], None, [], [], [], [], true)

  datatype Action =
    | Request(cmd: Command)    // the client calls a command method
    | Enqueue                  // its job goes into the channel
    | TakeReply                // it finds its slot filled
    | GiveUp                   // its deadline passes
    | NextEvent                // it receives an event
    | TakeJob                  // the driver task picks a job
    | PollForJob
    | WriteDone
    | WriteFailed
    | SendDone                 // the event channel has room
    | ReadForJob(bytes: seq<u8>)
    | ReadEnded                // end of file, for a job or idle
    | ReadFailed
    | JobDeadline
    | IdleRead(bytes: seq<u8>)
    | PollIdle

  /** The job the driver task is processing. */
  function Current(t: Task): Option<Job> {
    match t
    case Polling(job) => Some(job)
    case Writing(job, _) => Some(job)
    case Reading(job) => Some(job)
    case Sending(_, job) => job
    case _ => None
  }

  predicate Enabled(s: System, a: Action) {
    match a
    case Request(_) => s.client.AtRest?
    case Enqueue => s.client.Queueing? && |s.jobs| < CMD_QUEUE && !s.task.Stopped?
    case TakeReply => s.client.Waiting? && s.client.id < |s.slots|
    case GiveUp => s.client.Waiting?
    case NextEvent => s.client.AtRest? && s.events != []
    case TakeJob => s.task.Select? && s.jobs != []
    case PollForJob => s.task.Polling?
    case WriteDone => s.task.Writing?
    case WriteFailed => s.task.Writing?
    case SendDone => s.task.Sending? && |s.events| < EVENT_QUEUE
    case ReadForJob(bytes) => s.task.Reading? && 0 < |bytes| <= READ_BUF
    case ReadEnded => s.task.Reading? || s.task.Select?
    case ReadFailed => s.task.Reading? || s.task.Select?
    case JobDeadline => s.task.Reading?
    case IdleRead(bytes) => s.task.Select? && 0 < |bytes| <= READ_BUF
    case PollIdle => s.task.Draining?
  }

  /** The driver task ends its job and fills the job's slot; nobody may be waiting for it any more. */
  function Finish(s: System, job: Job, reply: Reply): System {
    s.(task := Select, slots := s.slots + [Filled(job.id, reply)])
  }

  function Act(s: System, a: Action): System
    requires Bounded(s.core) && Enabled(s, a)
  {
    match a
    case Request(cmd) => s.(client := Queueing(cmd))
    case Enqueue =>
      var job := Job(|s.queued|, s.client.cmd);
      s.(client := Waiting(job.id), jobs := s.jobs + [job], queued := s.queued + [job])
    case TakeReply => s.(client := AtRest, results := s.results + [s.slots[s.client.id]])
    case GiveUp => s.(client := AtRest, results := s.results + [Filled(s.client.id, TimedOut)])
    case NextEvent => s.(events := s.events[1..], returned := s.returned + [s.events[0]])
    case TakeJob => Take(s)
    case PollForJob => PollJob(s)
    case WriteDone =>
      s.(core := AckTx(s.core, |s.task.bytes|), task := Polling(s.task.job), written := s.written + s.task.bytes)
    case WriteFailed => Finish(s, s.task.job, IoError).(intact := false)
    case SendDone =>
      s.(events := s.events + [s.task.event],
         task := if s.task.back.Some? then Polling(s.task.back.value) else Draining)
    case ReadForJob(bytes) => s.(core := PushRx(s.core, bytes).0, task := Polling(s.task.job))
    case ReadEnded => if s.task.Reading? then Finish(s, s.task.job, PortClosed) else s.(task := Stopped)
    case ReadFailed => if s.task.Reading? then Finish(s, s.task.job, IoError) else s
    case JobDeadline => Finish(s, s.task.job, TimedOut)
    case IdleRead(bytes) => s.(core := PushRx(s.core, bytes).0, task := Draining)
    case PollIdle => PollDrain(s)
  }

  function Take(s: System): System
    requires s.jobs != []
  {
    var job := s.jobs[0];
    var (core, r) := Submit(s.core, job.cmd);
    var taken := s.(core := core, jobs := s.jobs[1..], started := s.started + [job]);
    if r.Success? then taken.(task := Polling(job), owner := Some(job))
    else Finish(taken, job, CoreError(r.error))
  }

  /** What a poll does to the driver and to who owns its slot. */
  function Polls(s: System, p: Polled): System {
    s.(core := p.core,
       owner := if p.core.state.Idle? then None else s.owner,
       polled := if p.out.Noticed? then s.polled + [p.out.event] else s.polled,
       resolved := if p.out.Responded? && s.owner.Some?
                   then s.resolved + [Resolved(s.owner.value, p.out.response)] else s.resolved)
  }

  function PollJob(s: System): System
    requires s.task.Polling?
  {
    var job, p := s.task.job, PollOnce(s.core);
    match p.out
    case NeedTx(bytes) => Polls(s, p).(task := Writing(job, bytes))
    case Responded(r) => Finish(Polls(s, p), job, Replied(r))
    case Noticed(e) => Polls(s, p).(task := Sending(e, Some(job)))
    case Idle => Polls(s, p).(task := Reading(job))
    case Crash => s.(task := Stopped)
  }

  /** After an idle read only events are kept; anything else ends the drain. */
  function PollDrain(s: System): System
    requires s.task.Draining?
  {
    var p := PollOnce(s.core);
    match p.out
    case Noticed(e) => Polls(s, p).(task := Sending(e, None))
    case Crash => s.(task := Stopped)
    case _ => Polls(s, p).(task := Select)
  }

  // ---- What every step keeps ---------------------------------------------------

  predicate Bounds(s: System) {
    |s.jobs| <= CMD_QUEUE && |s.events| <= EVENT_QUEUE
  }

  /** Jobs leave the channel in the order they entered it, and the slots are filled in that order, each
      once: the slots filled are those of the jobs started, but for the one still being processed. */
  ghost predicate JobsInOrder(s: System) {
    && s.queued == s.started + s.jobs
    && (forall i :: 0 <= i < |s.queued| ==> s.queued[i].id == i)
    && (forall i :: 0 <= i < |s.slots| ==> s.slots[i].id == i)
    && (s.client.Waiting? ==> s.client.id < |s.queued|)
    && (match Current(s.task)
        case Some(job) => s.started != [] && s.started[|s.started| - 1] == job && |s.slots| == |s.started| - 1
        case None => |s.slots| == |s.started| || (s.task.Stopped? && |s.slots| == |s.started| - 1))
  }

  /** Requests return in the order they were made, each once, with what their own slot was filled with, or with
      nothing but a timeout. */
  ghost predicate ResultsInOrder(s: System) {
    && (s.client.Waiting? ==> s.client.id == |s.results|)
    && |s.queued| == |s.results| + (if s.client.Waiting? then 1 else 0)
    && (forall k :: 0 <= k < |s.results| ==>
          s.results[k] == Filled(k, TimedOut) || (k < |s.slots| && s.results[k] == s.slots[k]))
  }

  function InHand(t: Task): seq<Event> {
    if t.Sending? then [t.event] else []
  }

  /** No event is lost, repeated or overtaken between the driver and the client. */
  predicate EventsInOrder(s: System) {
    s.returned + s.events + InHand(s.task) == s.polled
  }

  lemma BoundsKept(s: System, a: Action)
    requires Bounded(s.core) && Enabled(s, a) && Bounds(s)
    ensures Bounds(Act(s, a))
  {
    hide PollOnce, Submit, PushRx, AckTx;
  }

  lemma FinishInOrder(s: System, job: Job, reply: Reply)
    requires JobsInOrder(s) && Current(s.task) == Some(job)
    ensures JobsInOrder(Finish(s, job, reply))
  {
    assert s.queued[|s.started| - 1] == s.started[|s.started| - 1];
  }

  lemma TakeInOrder(s: System)
    requires JobsInOrder(s) && s.task.Select? && s.jobs != []
    ensures JobsInOrder(Take(s))
  {
    hide Submit, Finish;
    var job := s.jobs[0];
    assert s.queued[|s.started|] == job;
    assert s.started + s.jobs == (s.started + [job]) + s.jobs[1..];
    var core := Submit(s.core, job.cmd).0;
    var taken := s.(core := core, jobs := s.jobs[1..], started := s.started + [job], task := Polling(job));
    assert JobsInOrder(taken);
    var r := Submit(s.core, job.cmd).1;
    if r.Failure? {
      FinishInOrder(taken, job, CoreError(r.error));
      FinishIgnoresTask(taken.(task := s.task), taken, job, CoreError(r.error));
    }
  }

  lemma FinishIgnoresTask(s: System, t: System, job: Job, reply: Reply)
    requires t == s.(task := t.task)
    ensures Finish(s, job, reply) == Finish(t, job, reply)
  {
  }

  lemma PollJobInOrder(s: System)
    requires JobsInOrder(s) && s.task.Polling?
    ensures JobsInOrder(PollJob(s))
  {
    hide PollOnce, Finish;
    var p := PollOnce(s.core);
    if p.out.Responded? {
      FinishInOrder(Polls(s, p), s.task.job, Replied(p.out.response));
    }
  }

  lemma PollDrainInOrder(s: System)
    requires JobsInOrder(s) && s.task.Draining?
    ensures JobsInOrder(PollDrain(s))
  {
    hide PollOnce;
  }

  lemma JobsKept(s: System, a: Action)
    requires Bounded(s.core) && Enabled(s, a) && JobsInOrder(s)
    ensures JobsInOrder(Act(s, a))
  {
    hide PollOnce, Submit, PushRx, AckTx, Finish, Take, PollJob, PollDrain;
    match a
    case Enqueue => Associate(s.started, s.jobs, [Job(|s.queued|, s.client.cmd)]);
    case TakeJob => TakeInOrder(s);
    case PollForJob => PollJobInOrder(s);
    case PollIdle => PollDrainInOrder(s);
    case WriteFailed => FinishInOrder(s, s.task.job, IoError);
    case ReadEnded => if s.task.Reading? { FinishInOrder(s, s.task.job, PortClosed); }
    case ReadFailed => if s.task.Reading? { FinishInOrder(s, s.task.job, IoError); }
    case JobDeadline => FinishInOrder(s, s.task.job, TimedOut);
    case _ =>
  }

  lemma ResultsKept(s: System, a: Action)
    requires Bounded(s.core) && Enabled(s, a) && JobsInOrder(s) && ResultsInOrder(s)
    ensures ResultsInOrder(Act(s, a))
  {
    hide PollOnce, Submit, PushRx, AckTx;
    SlotsGrow(s, a);
    hide Take, PollJob, PollDrain, Finish;
  }

  lemma SlotsGrow(s: System, a: Action)
    requires Bounded(s.core) && Enabled(s, a)
    ensures s.slots <= Act(s, a).slots
    ensures !a.TakeReply? && !a.GiveUp? ==> Act(s, a).results == s.results
    ensures !a.Enqueue? ==> Act(s, a).queued == s.queued
    ensures !(a.Request? || a.Enqueue? || a.TakeReply? || a.GiveUp?) ==> Act(s, a).client == s.client
  {
    hide PollOnce, Submit, PushRx, AckTx;
  }

  lemma EventsKept(s: System, a: Action)
    requires Bounded(s.core) && Enabled(s, a) && EventsInOrder(s)
    ensures EventsInOrder(Act(s, a))
  {
    hide PollOnce, Submit, PushRx, AckTx;
  }

  // ---- Whose reply it is ----------------------------------------------------------

  /** The driver's transmit side between steps: only a write in progress has bytes handed out, and nothing
      is left to hand out except to the job about to be polled for. */
  ghost predicate Neat(s: System) {
    && Bounded(s.core)
    && (!s.task.Polling? ==> Chunking.HandedOut(s.core))
    && (s.intact ==> Tidy(s.core))
    && (s.intact && s.task.Writing? ==>
          s.core.state.SendingTx? && s.core.inFlight == |s.core.tx| && s.task.bytes == s.core.tx)
    && (s.intact && !s.task.Writing? ==> s.core.inFlight == 0)
  }

  /** A poll in a neat state. */
  lemma NeatPoll(s: System)
    requires Neat(s) && (s.task.Polling? || s.task.Draining?)
    ensures var p := PollOnce(s.core);
      && Bounded(p.core) && Chunking.HandedOut(p.core)
      && (s.task.Draining? ==> !p.out.NeedTx?)
      && (p.out.Crash? ==> Chunking.HandedOut(s.core))
      && (s.intact ==> Tidy(p.core))
      && (p.out.NeedTx? ==> s.intact ==> p.out.bytes == p.core.tx && p.core.state.SendingTx?)
      && (!p.out.NeedTx? ==> s.intact ==> p.core.inFlight == 0)
  {
    hide PollOnce;
    PollTx(s.core);
    PollShrinks(s.core);
    if s.intact {
      PollKeepsTidy(s.core);
    }
  }

  lemma StepsNeat(c: Core, cmd: Command, bytes: seq<u8>, n: nat)
    requires Bounded(c)
    ensures Bounded(Submit(c, cmd).0) && Bounded(PushRx(c, bytes).0) && Bounded(AckTx(c, n))
    ensures Tidy(c) ==> Tidy(Submit(c, cmd).0) && Tidy(PushRx(c, bytes).0) && Tidy(AckTx(c, n))
    ensures Submit(c, cmd).0.inFlight == c.inFlight == PushRx(c, bytes).0.inFlight
    ensures AckTx(c, n).inFlight == c.inFlight - Acked(c, n)
    ensures Chunking.HandedOut(c) ==> Chunking.HandedOut(PushRx(c, bytes).0) && Chunking.HandedOut(AckTx(c, n))
    ensures Submit(c, cmd).1.Failure? ==> Submit(c, cmd).0.tx == c.tx
  {
    hide CommandLine.Line;
    if Tidy(c) {
      OtherStepsKeepTidy(c, cmd, bytes, n);
    }
  }

  lemma NeatKept(s: System, a: Action)
    requires Enabled(s, a) && Neat(s)
    ensures Neat(Act(s, a))
  {
    hide PollOnce, Submit, PushRx, AckTx, Tidy;
    match a
    case TakeJob => StepsNeat(s.core, s.jobs[0].cmd, [], 0);
    case PollForJob => NeatPoll(s);
    case PollIdle => NeatPoll(s);
    case WriteDone => StepsNeat(s.core, Ping, [], |s.task.bytes|);
    case ReadForJob(bytes) => StepsNeat(s.core, Ping, bytes, 0);
    case IdleRead(bytes) => StepsNeat(s.core, Ping, bytes, 0);
    case _ =>
  }

  /** The driver's slot belongs to the job that submitted the command in it; while the driver task processes a
      job, that is this job; and whenever a command or a job is about, nothing is mistaken for its reply. */
  ghost predicate Owned(s: System) {
    && (s.owner.None? <==> s.core.state.Idle?)
    && (s.owner.Some? ==> s.owner.value.id < |s.started| && s.started[s.owner.value.id] == s.owner.value)
    && (s.owner.Some? && Current(s.task).Some? ==> s.owner == Current(s.task))
    && (s.owner.Some? ==> InFlight(s.core) == Some(KindOf(s.owner.value.cmd)))
    && (s.owner.Some? || Current(s.task).Some? ==> Wary(s.core))
    && (s.owner.Some? && s.core.readyAsOk ==> s.owner.value.cmd.FactoryReset?)
  }

  /** Each job's command is answered at most once, in the order of the jobs, by a response that suits it;
      and a reply handed to a job is the response to its own command. */
  ghost predicate AnsweredOnce(s: System) {
    && (forall i :: 0 <= i < |s.resolved| ==>
          s.resolved[i].job.id < |s.started| && s.started[s.resolved[i].job.id] == s.resolved[i].job)
    && (forall i, j :: 0 <= i < j < |s.resolved| ==> s.resolved[i].job.id < s.resolved[j].job.id)
    && (s.owner.Some? ==> forall i :: 0 <= i < |s.resolved| ==> s.resolved[i].job.id < s.owner.value.id)
    && (forall i :: 0 <= i < |s.resolved| ==> Answers(KindOf(s.resolved[i].job.cmd), s.resolved[i].response))
    && (forall i :: 0 <= i < |s.slots| && i < |s.started| && s.slots[i].reply.Replied? ==>
          Resolved(s.started[i], s.slots[i].reply.response) in s.resolved)
  }

  /** The driver owes an acknowledgement for more than the write in progress, and waits for no reply. */
  predicate Orphaned(s: System) {
    !s.core.state.Awaiting? && s.core.inFlight > if s.task.Writing? then |s.task.bytes| else 0
  }

  lemma OrphanedPoll(s: System)
    requires Bounded(s.core) && Orphaned(s) && (s.task.Polling? || s.task.Draining?)
    ensures Orphaned(if s.task.Polling? then PollJob(s) else PollDrain(s))
    ensures PollOnce(s.core).out.Responded? ==> PollOnce(s.core).out.response == Ok && s.core.readyAsOk
  {
    hide PollOnce;
    PollTx(s.core);
    Abandoned.StalePoll(s.core);
  }

  lemma OrphanedKept(s: System, a: Action)
    requires Bounded(s.core) && Enabled(s, a) && Orphaned(s)
    ensures Orphaned(Act(s, a))
  {
    hide PollOnce, PollJob, PollDrain, CommandLine.Line;
    if a.PollForJob? || a.PollIdle? {
      OrphanedPoll(s);
    }
  }

  lemma FailedWriteOrphans(s: System)
    requires Neat(s) && s.task.Writing? && s.intact
    ensures Orphaned(Act(s, WriteFailed))
  {
  }

  /** Once a write has failed, the driver task is orphaned for good. */
  lemma IntactKept(s: System, a: Action)
    requires Enabled(s, a) && Neat(s) && (s.intact || Orphaned(s))
    ensures Act(s, a).intact || Orphaned(Act(s, a))
  {
    hide Neat, Orphaned, PollOnce, Submit, PushRx, AckTx;
    if Orphaned(s) {
      assert Bounded(s.core) by { NeatBounded(s); }
      OrphanedKept(s, a);
    } else if a.WriteFailed? {
      FailedWriteOrphans(s);
    }
  }

  lemma NeatBounded(s: System)
    requires Neat(s)
    ensures Bounded(s.core)
  {
  }

  ghost predicate Inv(s: System) {
    && Bounds(s) && JobsInOrder(s) && EventsInOrder(s) && Neat(s) && Owned(s) && AnsweredOnce(s)
    && (s.intact || Orphaned(s)) && ResultsInOrder(s)
  }

  lemma OwnedPoll(s: System)
    requires Owned(s) && (s.task.Polling? || s.task.Draining?)
    ensures var p := PollOnce(s.core); Owned(Polls(s, p))
    ensures var p := PollOnce(s.core);
      && (p.out.Responded? && s.task.Polling? ==> s.owner.Some?)
      && (p.out.Responded? && s.owner.Some? ==> Answers(KindOf(s.owner.value.cmd), p.out.response))
  {
    hide PollOnce, Answers, Wary, KindOf;
    PollFlight(s.core);
    if Wary(s.core) {
      WaryPoll(s.core);
    }
  }

  lemma OwnedTake(s: System)
    requires Bounded(s.core) && JobsInOrder(s) && Owned(s) && Enabled(s, TakeJob)
    ensures Owned(Take(s))
  {
    hide CommandLine.Line, Wary, KindOf;
    WarySteps(s.core, s.jobs[0].cmd, [], 0);
    assert s.queued[|s.started|] == s.jobs[0];
  }

  lemma OwnedKept(s: System, a: Action)
    requires Enabled(s, a) && Bounded(s.core) && JobsInOrder(s) && Owned(s)
    ensures Owned(Act(s, a))
  {
    hide PollOnce, Submit, Tidy, Take, Owned, AckTx, PushRx, InFlight, Wary;
    match a
    case TakeJob => OwnedTake(s);
    case PollForJob =>
      OwnedPoll(s);
      OwnedFrame(if PollOnce(s.core).out.Crash? then s else Polls(s, PollOnce(s.core)), Act(s, a));
    case PollIdle =>
      OwnedPoll(s);
      OwnedFrame(if PollOnce(s.core).out.Crash? then s else Polls(s, PollOnce(s.core)), Act(s, a));
    case WriteDone =>
      WarySteps(s.core, Ping, [], |s.task.bytes|);
      OwnedFrame(s, Act(s, a));
    case ReadForJob(bytes) =>
      WarySteps(s.core, Ping, bytes, 0);
      OwnedFrame(s, Act(s, a));
    case IdleRead(bytes) =>
      WarySteps(s.core, Ping, bytes, 0);
      OwnedFrame(s, Act(s, a));
    case _ => OwnedFrame(s, Act(s, a));
  }

  /** Ownership depends on the slot, its owner, the jobs started and the job in hand only. */
  lemma OwnedFrame(s: System, t: System)
    requires InFlight(t.core) == InFlight(s.core) && (t.core.state.Idle? <==> s.core.state.Idle?)
    requires (Wary(s.core) ==> Wary(t.core)) && (t.core.readyAsOk ==> s.core.readyAsOk)
    requires t.owner == s.owner && t.started == s.started
    requires Current(t.task).None? || Current(t.task) == Current(s.task)
    ensures Owned(s) ==> Owned(t)
  {
    hide KindOf, InFlight, Wary;
  }

  lemma AnsweredTake(s: System)
    requires JobsInOrder(s) && Owned(s) && AnsweredOnce(s) && Enabled(s, TakeJob)
    ensures AnsweredOnce(Take(s))
  {
    hide CommandLine.Line, Answers, Wary;
    assert s.queued[|s.started|] == s.jobs[0];
  }

  /** Polling for a job or on an idle read records the response against the owner of the slot. */
  lemma AnsweredPoll(s: System)
    requires Owned(s) && AnsweredOnce(s) && (s.task.Polling? || s.task.Draining?)
    ensures AnsweredOnce(Polls(s, PollOnce(s.core)))
    ensures var p := PollOnce(s.core); p.out.Responded? && s.task.Polling? ==>
      s.owner.Some? && Resolved(s.owner.value, p.out.response) in Polls(s, p).resolved
  {
    hide PollOnce, Answers, Wary;
    OwnedPoll(s);
    PollFlight(s.core);
    ResponseFrees(s.core);
    var p := PollOnce(s.core);
    if p.out.Responded? && s.owner.Some? {
      assert Polls(s, p).resolved[|s.resolved|] == Resolved(s.owner.value, p.out.response);
    }
  }

  lemma FinishReplied(s: System, job: Job, response: Response)
    requires AnsweredOnce(s)
    requires |s.slots| < |s.started| ==> Resolved(s.started[|s.slots|], response) in s.resolved
    ensures AnsweredOnce(Finish(s, job, Replied(response)))
  {
    hide Answers;
  }

  lemma AnsweredPollJob(s: System)
    requires JobsInOrder(s) && Owned(s) && AnsweredOnce(s) && s.task.Polling?
    ensures AnsweredOnce(PollJob(s))
  {
    hide PollOnce, Answers, Finish, AnsweredOnce, Wary;
    AnsweredPoll(s);
    var p := PollOnce(s.core);
    AnsweredFrame(Polls(s, p), Polls(s, p).(task := PollJob(s).task));
    AnsweredFrame(s, s.(task := Stopped));
    if p.out.Responded? {
      FinishReplied(Polls(s, p), s.task.job, p.out.response);
    }
  }

  /** The invariant speaks of four fields only. */
  lemma AnsweredFrame(s: System, t: System)
    requires AnsweredOnce(s)
    requires t.started == s.started && t.slots == s.slots && t.resolved == s.resolved && t.owner == s.owner
    ensures AnsweredOnce(t)
  {
    hide Answers;
  }

  lemma FinishAnswered(s: System, job: Job, reply: Reply)
    requires AnsweredOnce(s) && !reply.Replied?
    ensures AnsweredOnce(Finish(s, job, reply)) && AnsweredOnce(Finish(s, job, reply).(intact := false))
  {
    hide Answers;
  }

  lemma AnsweredKept(s: System, a: Action)
    requires Enabled(s, a) && Bounded(s.core) && JobsInOrder(s) && Owned(s) && AnsweredOnce(s)
    ensures AnsweredOnce(Act(s, a))
  {
    hide PollOnce, Submit, Tidy, Take, PollJob, Answers, Finish, AnsweredOnce, Owned, PushRx, AckTx;
    match a
    case TakeJob => AnsweredTake(s);
    case PollForJob => AnsweredPollJob(s);
    case PollIdle =>
      AnsweredPoll(s);
      AnsweredFrame(Polls(s, PollOnce(s.core)), Polls(s, PollOnce(s.core)).(task := Act(s, a).task));
      AnsweredFrame(s, s.(task := Stopped));
    case WriteFailed => FinishAnswered(s, s.task.job, IoError);
    case ReadEnded =>
      FinishAnswered(s, if s.task.Reading? then s.task.job else Job(0, Ping), PortClosed);
      AnsweredFrame(s, s.(task := Stopped));
    case ReadFailed => FinishAnswered(s, if s.task.Reading? then s.task.job else Job(0, Ping), IoError);
    case JobDeadline => FinishAnswered(s, s.task.job, TimedOut);
    case _ => AnsweredFrame(s, Act(s, a));
  }

  lemma ActInv(s: System, a: Action)
    requires Enabled(s, a) && Inv(s)
    ensures Inv(Act(s, a))
  {
    hide Act, Bounds, JobsInOrder, EventsInOrder, Owned, AnsweredOnce, Enabled, Tidy, Orphaned, ResultsInOrder;
    BoundsKept(s, a);
    JobsKept(s, a);
    EventsKept(s, a);
    NeatKept(s, a);
    OwnedKept(s, a);
    AnsweredKept(s, a);
    IntactKept(s, a);
    ResultsKept(s, a);
  }

  lemma BootInv()
    ensures Inv(BOOT)
  {
  }

  /** Any interleaving of client, driver task and port; actions that are not enabled do not happen. */
  function After(actions: seq<Action>): (s: System)
    ensures Bounded(s.core)
  {
    if actions == [] then BOOT
    else
      var s := After(actions[..|actions| - 1]);
      var a := actions[|actions| - 1];
      if Enabled(s, a) then ActBounded(s, a); Act(s, a) else s
  }

  lemma ActBounded(s: System, a: Action)
    requires Bounded(s.core) && Enabled(s, a)
    ensures Bounded(Act(s, a).core)
  {
    hide PollOnce, CommandLine.Line;
    PollTx(s.core);
    PollShrinks(s.core);
  }

  lemma {:induction false} AfterInv(actions: seq<Action>)
    ensures Inv(After(actions))
  {
    hide Inv, Act, Enabled;
    if actions == [] {
      BootInv();
    } else {
      var s, a := After(actions[..|actions| - 1]), actions[|actions| - 1];
      AfterInv(actions[..|actions| - 1]);
      if Enabled(s, a) {
        ActInv(s, a);
      }
    }
  }

  // ---- The driver inside ------------------------------------------------------------

  /** What an action makes the driver task do to its driver. */
  function Ops(s: System, a: Action): seq<History.Op>
    requires Enabled(s, a)
  {
    match a
    case TakeJob => [History.DoSubmit(s.jobs[0].cmd)]
    case PollForJob => [History.DoPoll]
    case PollIdle => [History.DoPoll]
    case WriteDone => [History.DoAck(|s.task.bytes|)]
    case ReadForJob(bytes) => [History.DoPush(bytes)]
    case IdleRead(bytes) => [History.DoPush(bytes)]
    case _ => []
  }

  /** The operations performed on the driver in an interleaving. */
  function Trace(actions: seq<Action>): seq<History.Op> {
    if actions == [] then []
    else
      var before, a := actions[..|actions| - 1], actions[|actions| - 1];
      Trace(before) + (if Enabled(After(before), a) then Ops(After(before), a) else [])
  }

  /** This history is that of the driver in this system. */
  ghost predicate Traced(s: System, h: History.Hist) {
    && h.core == s.core && (h.crashed ==> s.task.Stopped?)
    && History.EventsIn(h.outs) == s.polled && (s.intact ==> h.acked == s.written)
  }

  lemma TracedPoll(s: System, h: History.Hist)
    requires Bounded(s.core) && Traced(s, h) && (s.task.Polling? || s.task.Draining?)
    ensures Traced(if s.task.Polling? then PollJob(s) else PollDrain(s), History.Step(h, History.DoPoll))
  {
    hide PollOnce, History.EventsIn;
    History.EventsInMore(h.outs, PollOnce(s.core).out);
  }

  lemma TracedStep(s: System, a: Action, h: History.Hist)
    requires Neat(s) && Enabled(s, a) && Traced(s, h)
    ensures Ops(s, a) == [] ==> Traced(Act(s, a), h)
    ensures Ops(s, a) != [] ==> Ops(s, a) == [Ops(s, a)[0]] && Traced(Act(s, a), History.Step(h, Ops(s, a)[0]))
  {
    hide PollOnce, PollJob, PollDrain, PushRx, AckTx, Tidy, CommandLine.Line, History.EventsIn, History.PollStep;
    if a.PollForJob? || a.PollIdle? {
      TracedPoll(s, h);
    }
    assert s.core.tx[..|s.core.tx|] == s.core.tx;
  }

  /** The driver in the driver task has gone through a run, so whatever holds of every run holds of it. */
  lemma {:induction false} DriverRuns(actions: seq<Action>)
    ensures Traced(After(actions), History.Run(Trace(actions)))
  {
    hide Act, Enabled, Ops, Traced, Neat, JobsInOrder, Owned, AnsweredOnce, ResultsInOrder, History.Step;
    if actions == [] {
      BootTraced();
    } else {
      var before, a := actions[..|actions| - 1], actions[|actions| - 1];
      var s := After(before);
      DriverRuns(before);
      AfterInv(before);
      if Enabled(s, a) {
        TracedStep(s, a, History.Run(Trace(before)));
        if Ops(s, a) != [] {
          RunOneMore(Trace(before), Ops(s, a)[0]);
        } else {
          assert Trace(before) + [] == Trace(before);
        }
      } else {
        assert Trace(before) + [] == Trace(before);
      }
    }
  }

  lemma BootTraced()
    ensures Traced(BOOT, History.Run([]))
  {
  }

  // ---- Nothing is left lying --------------------------------------------------------

  /** What the driver task does next is what the last operation on the driver calls for: it waits for a job or for
      bytes only when the last bytes read have been polled and the last poll brought no event. */
  ghost predicate KeepsUp(t: Task, ops: seq<History.Op>) {
    if ops == [] then t.Select? || t.Stopped?
    else
      var last, out := ops[|ops| - 1], PollOnce(History.Run(ops[..|ops| - 1]).core).out;
      match t
      case Select => last.DoSubmit? || (last.DoPoll? && !out.Noticed?)
      case Polling(_) => !last.DoPoll? || out.Noticed?
      case Writing(_, bytes) => last.DoPoll? && out == NeedTx(bytes)
      case Reading(_) => last.DoPoll? && out.Idle?
      case Sending(e, _) => last.DoPoll? && out == Noticed(e)
      case Draining => last.DoPush? || (last.DoPoll? && out.Noticed?)
      case Stopped => true
  }

  lemma KeepsUpStep(s: System, a: Action, ops: seq<History.Op>)
    requires Neat(s) && Enabled(s, a) && Traced(s, History.Run(ops)) && KeepsUp(s.task, ops)
    ensures KeepsUp(Act(s, a).task, ops + Ops(s, a))
  {
    hide PollOnce, PushRx, AckTx, Submit, Tidy, PollJob, PollDrain, History.Run, History.EventsIn;
    if a.PollForJob? || a.PollIdle? {
      KeepsUpPoll(s, ops);
    } else if Ops(s, a) == [] {
      assert ops + [] == ops;
    } else {
      assert (ops + Ops(s, a))[..|ops|] == ops;
    }
  }

  lemma KeepsUpPoll(s: System, ops: seq<History.Op>)
    requires Neat(s) && Traced(s, History.Run(ops)) && (s.task.Polling? || s.task.Draining?)
    ensures KeepsUp(if s.task.Polling? then PollJob(s).task else PollDrain(s).task, ops + [History.DoPoll])
  {
    hide PollOnce, Tidy, History.Run, History.EventsIn;
    NeatPoll(s);
    assert (ops + [History.DoPoll])[..|ops|] == ops;
  }

  lemma {:induction false} TaskKeepsUp(actions: seq<Action>)
    ensures KeepsUp(After(actions).task, Trace(actions))
  {
    hide Act, Enabled, Ops, Traced, KeepsUp, Neat, JobsInOrder, Owned, AnsweredOnce, ResultsInOrder;
    if actions == [] {
      BootKeepsUp();
    } else {
      var before, a := actions[..|actions| - 1], actions[|actions| - 1];
      TaskKeepsUp(before);
      AfterInv(before);
      DriverRuns(before);
      if Enabled(After(before), a) {
        KeepsUpStep(After(before), a, Trace(before));
      } else {
        assert Trace(before) + [] == Trace(before);
      }
    }
  }

  lemma BootKeepsUp()
    ensures KeepsUp(BOOT.task, [])
  {
  }

  lemma IdleReadStep(s: System, line: seq<u8>)
    requires Bounded(s.core) && s.task.Select? && s.core.rx == [] && |line| <= 254
    ensures Enabled(s, IdleRead(line + CRLF))
    ensures Act(s, IdleRead(line + CRLF)) == s.(core := s.core.(rx := line + CRLF), task := Draining)
  {
    assert (line + CRLF)[..|line + CRLF|] == line + CRLF;
    assert [] + (line + CRLF) == line + CRLF;
  }

  lemma IdlePollStep(s: System, line: seq<u8>)
    requires Bounded(s.core) && Chunking.HandedOut(s.core) && s.task.Draining? && s.core.rx == line + CRLF
    requires CR !in line && |line| <= 254 && Decode.ParseEvent(line).Good?
    requires !(s.core.readyAsOk && line == Decode.READY)
    ensures Enabled(s, PollIdle)
    ensures var t := Act(s, PollIdle); var e := Decode.ParseEvent(line).value;
      && t.task == Sending(e, None) && t.core.rx == []
      && t.returned == s.returned && t.events == s.events && t.client == s.client
  {
    hide PollOnce, Decode.ParseEvent;
    assert line + CRLF == line + CRLF + [];
    PollOfParsed(s.core, line, []);
  }

  lemma SendAndReturn(s: System, e: Event)
    requires Bounded(s.core) && s.task == Sending(e, None) && s.events == [] && s.client.AtRest?
    ensures Enabled(s, SendDone) && Bounded(Act(s, SendDone).core) && Enabled(Act(s, SendDone), NextEvent)
    ensures Act(Act(s, SendDone), NextEvent).returned == s.returned + [e]
  {
  }

  /** A packet that arrives while no job is running reaches a client that asks for it. */
  lemma IdleEventReturned(actions: seq<Action>, line: seq<u8>)
    requires var s := After(actions); s.task.Select? && s.core.rx == [] && s.client.AtRest? && s.events == []
    requires CR !in line && |line| <= 254 && Decode.ParseEvent(line).Good?
    requires !(After(actions).core.readyAsOk && line == Decode.READY)
    ensures After(actions + [IdleRead(line + CRLF)] + [PollIdle] + [SendDone] + [NextEvent]).returned
         == After(actions).returned + [Decode.ParseEvent(line).value]
  {
    hide After, Act, Enabled, Decode.ParseEvent, JobsInOrder, Owned, AnsweredOnce, ResultsInOrder, EventsInOrder, Tidy;
    var a1 := actions + [IdleRead(line + CRLF)];
    var a2 := a1 + [PollIdle];
    var a3 := a2 + [SendDone];
    AfterInv(actions);
    AfterOneMore(actions, IdleRead(line + CRLF));
    IdleReadStep(After(actions), line);
    AfterOneMore(a1, PollIdle);
    IdlePollStep(After(a1), line);
    AfterOneMore(a2, SendDone);
    SendAndReturn(After(a2), Decode.ParseEvent(line).value);
    AfterOneMore(a3, NextEvent);
  }

  // ---- Theorems about every interleaving -------------------------------------------

  /** Events: those returned, then those queued, then the one being sent are what the lines taken from the port
      say, in order. At most 64 events and 8 jobs are queued, and whoever adds one waits exactly while there are. */
  lemma EventFifo(actions: seq<Action>)
    ensures var s := After(actions);
      && s.returned + s.events + InHand(s.task) == History.Heard(History.START, History.Run(Trace(actions)).items)
      && |s.events| <= 64 && (s.task.Sending? ==> (Enabled(s, SendDone) <==> |s.events| < 64))
      && |s.jobs| <= 8 && (s.client.Queueing? && !s.task.Stopped? ==> (Enabled(s, Enqueue) <==> |s.jobs| < 8))
  {
    hide After, Trace, JobsInOrder, Neat, Owned, AnsweredOnce, History.Run, History.Heard;
    AfterInv(actions);
    DriverRuns(actions);
    History.RunReportsEvents(Trace(actions));
  }

  /** Jobs: taken in the order they were queued; slot number i is filled at most once, as the i-th, by the
      i-th job; only the job being processed has no filled slot yet, unless the driver task has died on it. */
  lemma JobFifo(actions: seq<Action>)
    ensures var s := After(actions);
      && s.started <= s.queued
      && |s.slots| <= |s.started| <= |s.slots| + 1
      && (forall i :: 0 <= i < |s.slots| ==> s.slots[i].id == s.queued[i].id == i)
      && (|s.slots| < |s.started| ==> s.task.Stopped? || Current(s.task) == Some(s.started[|s.started| - 1]))
  {
    hide After, Neat, Owned, AnsweredOnce, EventsInOrder, Bounds;
    AfterInv(actions);
    var s := After(actions);
  }

  /** Replies: whatever reads and writes do, a response handed to a job is the one that freed the slot of
      that job's own command; no command is answered twice; and the response is of the variant the
      command asks for, so the client's arm for any other variant is never taken. */
  lemma OwnReply(actions: seq<Action>, i: nat)
    requires var s := After(actions); i < |s.slots| && s.slots[i].reply.Replied?
    ensures var s := After(actions); var response := s.slots[i].reply.response;
      && i < |s.started| && s.started[i].id == i
      && (exists k :: 0 <= k < |s.resolved| && s.resolved[k] == Resolved(s.started[i], response)
            && forall j :: 0 <= j < |s.resolved| && s.resolved[j].job == s.started[i] ==> j == k)
      && ReplyTo(s.started[i].cmd, response)
  {
    hide After, Neat, Owned, EventsInOrder, Bounds, Answers, ReplyTo;
    AfterInv(actions);
    var s := After(actions);
    KindAsksForReply(s.started[i].cmd, s.slots[i].reply.response);
    var r := Resolved(s.started[i], s.slots[i].reply.response);
    assert r in s.resolved;
    var k :| 0 <= k < |s.resolved| && s.resolved[k] == r;
    assert s.started[i] == s.queued[i];
    forall j | 0 <= j < |s.resolved| && s.resolved[j].job == s.started[i]
      ensures j == k
    {
      assert s.resolved[j].job.id == s.resolved[k].job.id;
    }
  }

  /** Requests: the k-th returns what the k-th slot was filled with, or a timeout; so a response is the one the
      radio gave to this very command. */
  lemma OwnResult(actions: seq<Action>, k: nat)
    requires k < |After(actions).results|
    ensures var s := After(actions); var result := s.results[k];
      && k < |s.queued| && s.queued[k].id == result.id == k
      && (result.reply.TimedOut? || (k < |s.slots| && result == s.slots[k]))
      && (result.reply.Replied? ==> ReplyTo(s.queued[k].cmd, result.reply.response))
  {
    hide After, Neat, Owned, EventsInOrder, Bounds, Answers, ReplyTo, AnsweredOnce;
    AfterInv(actions);
    if After(actions).results[k].reply.Replied? {
      OwnReply(actions, k);
      JobFifo(actions);
    }
  }

  /** How a job ends, and what it leaves in its slot. */
  lemma JobEndsExactly(actions: seq<Action>, a: Action)
    requires var s := After(actions); Enabled(s, a) && Current(s.task).Some?
    ensures var s := After(actions); var t, out := Act(s, a), PollOnce(s.core).out;
      if a.PollForJob? && out.Crash? then t.task.Stopped? && t.slots == s.slots
      else
        var reply := match a
          case WriteFailed => Some(IoError)
          case ReadFailed => Some(IoError)
          case ReadEnded => Some(PortClosed)
          case JobDeadline => Some(TimedOut)
          case PollForJob => if out.Responded? then Some(Replied(out.response)) else None
          case _ => None;
        if reply.None? then Current(t.task) == Current(s.task) && t.slots == s.slots
        else t.task.Select? && t.slots == s.slots + [Filled(Current(s.task).value.id, reply.value)]
  {
    hide After, PollOnce, PushRx, AckTx;
  }

  /** The end of the port's input while no job is running stops the driver task for good: no job is taken, no slot
      filled, nothing polled and nothing written any more. */
  lemma {:induction false} StoppedForever(actions: seq<Action>, more: seq<Action>)
    requires After(actions).task.Select?
    ensures var s, t := After(actions), After(actions + [ReadEnded] + more);
      && t.task.Stopped? && t.core == s.core && t.slots == s.slots && t.started == s.started
      && t.polled == s.polled && t.written == s.written
    decreases |more|
  {
    hide After, Act, Enabled;
    var ended := actions + [ReadEnded];
    AfterOneMore(actions, ReadEnded);
    if more == [] {
      assert ended + [] == ended;
      EndStops(After(actions));
    } else {
      var n := |more| - 1;
      assert ended + more == (ended + more[..n]) + [more[n]];
      StoppedForever(actions, more[..n]);
      AfterOneMore(ended + more[..n], more[n]);
      if Enabled(After(ended + more[..n]), more[n]) {
        StoppedStep(After(ended + more[..n]), more[n]);
      }
    }
  }

  lemma EndStops(s: System)
    requires Bounded(s.core) && s.task.Select?
    ensures Enabled(s, ReadEnded) && Act(s, ReadEnded) == s.(task := Stopped)
  {
  }

  lemma StoppedStep(s: System, a: Action)
    requires Bounded(s.core) && Enabled(s, a) && s.task.Stopped?
    ensures var t := Act(s, a);
      && t.task.Stopped? && t.core == s.core && t.slots == s.slots && t.started == s.started
      && t.polled == s.polled && t.written == s.written
  {
  }

  /** While no write has failed, the port has taken the commands of the accepted jobs byte for byte and in order,
      except for what is still queued; nothing is queued once the driver is idle. */
  lemma PortTookJobs(actions: seq<Action>)
    requires After(actions).intact
    ensures var s := After(actions); var sent := CommandLine.Stream(History.Run(Trace(actions)).commands);
      sent == s.written + s.core.tx && (s.core.state.Idle? ==> sent == s.written)
  {
    hide After, Trace, History.Run, JobsInOrder, Owned, AnsweredOnce, ResultsInOrder, CommandLine.Stream;
    AfterInv(actions);
    DriverRuns(actions);
    History.TxConservation(Trace(actions));
    assert After(actions).written + [] == After(actions).written;
  }

  /** A job that comes while an earlier one's command is unresolved is refused as busy at once, and
      the earlier command keeps the slot; only a free slot lets a command in. */
  lemma BusyNeverStale(actions: seq<Action>)
    requires Enabled(After(actions), TakeJob)
    ensures var s := After(actions); var t := Take(s);
      && (s.owner.Some? ==>
            && t.slots == s.slots + [Filled(s.jobs[0].id, CoreError(Busy))] && t.owner == s.owner
            && s.owner.value.id < s.jobs[0].id && t.core == s.core && t.task == Select)
      && (t.task.Polling? ==> s.owner.None? && t.owner == Some(s.jobs[0]))
      && (s.owner.None? && !t.task.Polling? ==> t.slots == s.slots + [Filled(s.jobs[0].id, CoreError(TxOverflow))])
  {
    hide After, Neat, EventsInOrder, Bounds, AnsweredOnce, CommandLine.Line;
    AfterInv(actions);
    var s := After(actions);
    assert s.queued[|s.started|] == s.jobs[0];
    if s.owner.Some? {
      assert s.queued[s.owner.value.id] == s.started[s.owner.value.id];
    }
  }

  /** A reply that comes after its job has given up frees the slot in the idle drain and goes nowhere. */
  lemma LateReplyDropped(actions: seq<Action>)
    requires After(actions).task.Draining?
    ensures var s := After(actions); var t := PollDrain(s);
      && t.slots == s.slots && !PollOnce(s.core).out.NeedTx?
      && (PollOnce(s.core).out.Responded? ==> t.owner.None? && t.core.state.Idle?)
  {
    hide After, PollOnce, JobsInOrder, EventsInOrder, Bounds, AnsweredOnce, Tidy;
    AfterInv(actions);
    var s := After(actions);
    NeatPoll(s);
    ResponseFrees(s.core);
  }

  // ---- After a failed write ----------------------------------------------------------

  /** From this slot on, no job has been handed a response but a reset its `Ok`. */
  ghost predicate OnlyResets(s: System, from: nat) {
    forall i :: from <= i < |s.slots| && s.slots[i].reply.Replied? ==>
      s.slots[i].reply.response == Ok && i < |s.started| && s.started[i].cmd.FactoryReset?
  }

  lemma OnlyResetsKept(s: System, a: Action, from: nat)
    requires Enabled(s, a) && Inv(s) && !s.intact && OnlyResets(s, from)
    ensures OnlyResets(Act(s, a), from) && !Act(s, a).intact
  {
    hide PollOnce, PollJob, Submit, AckTx, PushRx, AnsweredOnce, Owned, Tidy, EventsInOrder, Orphaned;
    if a.PollForJob? {
      OnlyResetsPolled(s, from);
    }
  }

  lemma OnlyResetsPolled(s: System, from: nat)
    requires Bounded(s.core) && s.task.Polling? && JobsInOrder(s) && Owned(s) && Orphaned(s) && OnlyResets(s, from)
    ensures OnlyResets(PollJob(s), from) && PollJob(s).intact == s.intact
  {
    hide PollOnce, Wary, Answers, InFlight;
    OwnedPoll(s);
    OrphanedPoll(s);
  }

  /** Once a write has failed, in no interleaving does any job ever get a response from the radio again, except
      that a reset may get its `Ok`; the driver never waits for a reply. */
  lemma {:induction false} FailedWriteIsFinal(before: seq<Action>, after: seq<Action>)
    requires !After(before).intact
    ensures var s := After(before + after);
      OnlyResets(s, |After(before).slots|) && !s.core.state.Awaiting? && !s.intact
    decreases |after|
  {
    hide After, Act, Inv, OnlyResets, Enabled;
    AfterInv(before + after);
    if after == [] {
      assert before + [] == before;
      NoneYet(After(before));
    } else {
      var n := |after| - 1;
      assert before + after == (before + after[..n]) + [after[n]];
      FailedWriteIsFinal(before, after[..n]);
      AfterInv(before + after[..n]);
      AfterOneMore(before + after[..n], after[n]);
      var s := After(before + after[..n]);
      if Enabled(s, after[n]) {
        OnlyResetsKept(s, after[n], |After(before).slots|);
      }
    }
    NotAwaiting(After(before + after));
  }

  lemma NoneYet(s: System)
    ensures OnlyResets(s, |s.slots|)
  {
  }

  lemma NotAwaiting(s: System)
    requires Inv(s) && !s.intact
    ensures !s.core.state.Awaiting?
  {
  }

  lemma AfterOneMore(actions: seq<Action>, a: Action)
    ensures var s := After(actions); After(actions + [a]) == if Enabled(s, a) then Act(s, a) else s
  {
    assert (actions + [a])[..|actions|] == actions;
  }
}
