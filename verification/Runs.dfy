/** Resuming packets (vCont, c, C, s, S and F) over whole runs: one packet for each, and no fatal
    error under the target's contract. */
module Runs {
  import opened Bytes
  import opened Cores
  import opened Scheduler
  import opened Conservation
  import opened Progress
  import VCont
  import Ptids

  /** The state in which doCoreActions is entered, or None if the packet is answered without it. */
  function Entering(cfg: Config, s: Server, p: Packet): (r: Option<Server>)
    ensures r.Some? ==> |r.value.cores| == |s.cores|
  {
    match p
    case VContPacket(payload) => EnteringVCont(s, payload)
    case LegacyPacket(data) => EnteringVCont(s, LegacyPayload(data, cfg))
    case FileIoPacket(reply) =>
      if !s.handlingSyscall || (reply.valid && reply.ctrlC) then None
      else
        var taken := Emit(s.(handlingSyscall := false), Answered);
        Some(if reply.valid && reply.retcode != -1
             then Emit(taken, ResultWritten(taken.currentCpu, reply.retcode)) else taken)
    case _ => None
  }

  function EnteringVCont(s: Server, payload: seq<byte>): (r: Option<Server>)
    ensures r.Some? ==> |r.value.cores| == |s.cores|
  {
    match VCont.Parse(payload)
    case Parsed(actions) =>
      var (cores, vector) := ApplyFrom(s.cores, actions, 0);
      if vector.None? then None else Some(Emit(s.(cores := cores), Prepared(vector.value)))
    case _ => None
  }

  lemma EnteringKeeps(cfg: Config, s: Server, p: Packet)
    requires Inv(s) && Entering(cfg, s, p).Some?
    ensures var e := Entering(cfg, s, p).value;
            && Inv(e) && Adds(s, e, [], [], 0) && SameStops(s.cores, e.cores)
  {
    hide Sents, Reports, Resumes, Conserved;
    match p {
      case VContPacket(payload) => EnteringVContKeeps(s, payload);
      case LegacyPacket(data) => EnteringVContKeeps(s, LegacyPayload(data, cfg));
      case FileIoPacket(reply) =>
        var taken := Emit(s.(handlingSyscall := false), Answered);
        SendKeeps(s.(handlingSyscall := false), Answered);
        SendKeeps(taken, ResultWritten(taken.currentCpu, reply.retcode));
        TraceNext(s.trace, Answered);
        TraceNext(taken.trace, ResultWritten(taken.currentCpu, reply.retcode));
    }
  }

  lemma EnteringVContKeeps(s: Server, payload: seq<byte>)
    requires Inv(s) && EnteringVCont(s, payload).Some?
    ensures var e := EnteringVCont(s, payload).value;
            && Inv(e) && Adds(s, e, [], [], 0) && SameStops(s.cores, e.cores)
  {
    hide Sents, Reports, Resumes, Conserved;
    var actions := VCont.Parse(payload).actions;
    var (cores, vector) := ApplyFrom(s.cores, actions, 0);
    ApplyFromSameStops(s.cores, actions, 0);
    EmitConserves(s.cores, cores, s.trace, Prepared(vector.value));
    TraceNext(s.trace, Prepared(vector.value));
  }

  lemma HandleEntered(cfg: Config, s: Server, p: Packet, env: Env)
    requires |s.cores| < 0x1_0000_0000 && Entering(cfg, s, p).Some?
    ensures Handle(cfg, s, p, env) == DoCoreActions(Entering(cfg, s, p).value, env)
  {
    hide DoCoreActions, ApplyFrom;
  }

  /** A packet answered without touching the target: a ctrl-C with an F reply is told as SIGINT,
      anything else is an error; no stop is reported. */
  ghost predicate AnsweredAtOnce(s: Server, s': Server, p: Packet) {
    Adds(s, s', [if p.FileIoPacket? then StopReply(INT, s'.currentCpu) else Error], [], 0)
  }

  /** A resuming packet that does not get as far as doCoreActions. */
  lemma HandleRefused(cfg: Config, s: Server, p: Packet, env: Env)
    requires |s.cores| < 0x1_0000_0000 && Resuming(p) && Entering(cfg, s, p).None?
    ensures var r := Handle(cfg, s, p, env);
            && (r.status == Done || r.status.AssertFailed?)
            && (r.status == Done ==> AnsweredAtOnce(s, r.server, p))
            && SameStops(s.cores, r.server.cores)
  {
    hide Sents, Reports, Resumes, DoCoreActions, ApplyFrom;
    match p {
      case VContPacket(payload) => VContRefused(s, payload, env);
      case LegacyPacket(data) => VContRefused(s, LegacyPayload(data, cfg), env);
      case FileIoPacket(reply) => FileIoRefused(s, reply, env);
    }
  }

  lemma VContRefused(s: Server, payload: seq<byte>, env: Env)
    requires |s.cores| < 0x1_0000_0000 && EnteringVCont(s, payload).None?
    ensures var r := VContRequest(s, payload, env);
            && (r.status == Done || r.status.AssertFailed?)
            && (r.status == Done ==> Adds(s, r.server, [Error], [], 0))
            && SameStops(s.cores, r.server.cores)
  {
    hide Sents, Reports, Resumes, DoCoreActions;
    TraceNext(s.trace, Sent(Error));
    if VCont.Parse(payload).Parsed? {
      ApplyFromSameStops(s.cores, VCont.Parse(payload).actions, 0);
    }
  }

  lemma FileIoRefused(s: Server, reply: FileIoReply, env: Env)
    requires |s.cores| < 0x1_0000_0000 && (s.handlingSyscall ==> reply.valid && reply.ctrlC)
    ensures var r := SyscallReply(s, reply, env);
            && (r.status == Done || r.status.AssertFailed?)
            && (r.status == Done ==> Adds(s, r.server, [StopReply(INT, r.server.currentCpu)], [], 0))
            && SameStops(s.cores, r.server.cores)
  {
    hide Sents, Reports, Resumes, DoCoreActions;
    if s.handlingSyscall {
      var taken := Emit(s.(handlingSyscall := false), Answered);
      var written := if reply.retcode != -1 then Emit(taken, ResultWritten(taken.currentCpu, reply.retcode)) else taken;
      TraceNext(s.trace, Answered);
      TraceNext(taken.trace, ResultWritten(taken.currentCpu, reply.retcode));
      TraceNext(written.trace, Sent(StopReply(INT, written.currentCpu)));
    }
  }

  /** Every resuming packet that runs to completion is answered by exactly one packet.  If it gets
      as far as doCoreActions, that packet tells how the core now current stopped, and exactly that
      core's stop is marked reported, or else that a break or timeout halted the target; if not, it
      is an error, or SIGINT for a ctrl-C.  While the target has not answered, nothing is sent.  It
      is fatal exactly when it reaches doCoreActions and an answer breaks the target's contract. */
  lemma OnePacketPerResume(cfg: Config, s: Server, p: Packet, env: Env)
    requires Inv(s) && Resuming(p)
    ensures var r, entering := Handle(cfg, s, p, env), Entering(cfg, s, p);
            && (r.status == Done ==>
                  if entering.Some? then OneReply(s, r.server, env) else AnsweredAtOnce(s, r.server, p))
            && (r.status == Waiting ==> Sents(r.server.trace) == Sents(s.trace))
            && (r.status.Fatal? <==> entering.Some? && Breach(entering.value.cores, env))
            && r.status != Fatal(AlreadyPending)
  {
    hide Sents, Reports, Resumes, Conserved, DoCoreActions, Breach, Handle, Entering, ReplyForCurrent;
    if Entering(cfg, s, p).Some? {
      EnteringKeeps(cfg, s, p);
      HandleEntered(cfg, s, p, env);
      DoCoreActionsOutcome(Entering(cfg, s, p).value, env);
    } else {
      HandleRefused(cfg, s, p, env);
    }
  }

  // ---- Under the target's contract nothing is fatal ----

  /** One result per core, each NONE or reportable, and some running core has stopped. */
  predicate ObeysWait(cores: seq<CoreState>, w: WaitAnswer) {
    match w
    case Failed => false
    case Quiet(_, _) => true
    case Happened(results) =>
      && |results| == |cores|
      && (forall i | 0 <= i < |results| :: results[i] == NoStop || Reportable(results[i]))
      && (exists i | 0 <= i < |cores| :: cores[i].resumeType != Idle && results[i] != NoStop)
  }

  predicate Obeys(cores: seq<CoreState>, env: Env) {
    env.haltOk && env.resumeOk && forall w | w in env.waits :: ObeysWait(cores, w)
  }

  predicate PendingReportable(cores: seq<CoreState>) {
    forall i | 0 <= i < |cores| :: !cores[i].stopReported ==> Reportable(cores[i].stopReason)
  }

  lemma ObedientResultsDontBreach(cores: seq<CoreState>, results: seq<ResumeRes>)
    requires PendingReportable(cores) && ObeysWait(cores, Happened(results))
    ensures !ResultsBreach(cores, results) && PendingReportable(Taken(cores, results, 0))
  {
    var taken := Taken(cores, results, 0);
    NextStopHasEvent(taken);
    var i :| 0 <= i < |cores| && cores[i].resumeType != Idle && results[i] != NoStop;
    assert StopToTell(taken[i]);
  }

  lemma {:induction false} ObedientWaitsDontBreach(cores: seq<CoreState>, waits: seq<WaitAnswer>)
    requires PendingReportable(cores) && forall w | w in waits :: ObeysWait(cores, w)
    ensures !WaitsBreach(cores, waits, true)
  {
    hide ResultsBreach;
    if waits != [] {
      assert waits[0] in waits;
      if waits[0].Happened? {
        ObedientResultsDontBreach(cores, waits[0].results);
      }
      ObedientWaitsDontBreach(cores, waits[1..]);
    }
  }

  lemma ObedientDontBreach(cores: seq<CoreState>, env: Env)
    requires PendingReportable(cores) && Obeys(cores, env)
    ensures !Breach(cores, env)
  {
    NextStopHasEvent(cores);
    ObedientWaitsDontBreach(cores, env.waits);
  }

  lemma {:induction false} WaitKeepsReportable(s: Server, waits: seq<WaitAnswer>, env: Env)
    requires |s.cores| < 0x1_0000_0000 && Drained(s.cores, 0) && PendingReportable(s.cores)
    requires forall w | w in waits :: ObeysWait(s.cores, w)
    ensures PendingReportable(Wait(s, waits, env).server.cores)
    decreases waits
  {
    hide Sents, Reports, Resumes;
    if waits != [] {
      assert waits[0] in waits;
      match waits[0] {
        case Failed =>
        case Quiet(_, _) => WaitKeepsReportable(s, waits[1..], env);
        case Happened(results) =>
          ObedientResultsDontBreach(s.cores, results);
          RecordFromTakes(s, results, 0);
          var recorded := RecordFrom(s, results, 0).server;
          NextStopEventInRange(recorded.cores);
          if NextStopEvent(recorded.cores).Some? {
            ProcessEventKeepsReportable(recorded, NextStopEvent(recorded.cores).value, env);
          }
      }
    }
  }

  /** Core by core, the same but for being alive. */
  predicate SameButLive(a: seq<CoreState>, b: seq<CoreState>) {
    |a| == |b| && forall i | 0 <= i < |a| :: a[i].(isLive := true) == b[i].(isLive := true)
  }

  lemma SyscallRequestCores(s: Server, env: Env)
    requires s.currentCpu < |s.cores| < 0x1_0000_0000
    ensures SameButLive(s.cores, SyscallRequest(s, env).server.cores)
  {
  }

  lemma ProcessEventCores(s: Server, i: nat, env: Env)
    requires i < |s.cores| < 0x1_0000_0000
    ensures SameButLive(s.cores[i := s.cores[i].ReportStopReason()], ProcessEvent(s, i, env).server.cores)
  {
    hide SyscallRequest;
    SyscallRequestCores(Report(s, i), env);
  }

  lemma ProcessEventKeepsReportable(s: Server, i: nat, env: Env)
    requires i < |s.cores| < 0x1_0000_0000 && PendingReportable(s.cores)
    ensures PendingReportable(ProcessEvent(s, i, env).server.cores)
  {
    hide ProcessEvent;
    ProcessEventCores(s, i, env);
    var told := s.cores[i := s.cores[i].ReportStopReason()];
    forall j | 0 <= j < |s.cores|
      ensures var c := ProcessEvent(s, i, env).server.cores[j]; c.HasUnreportedStop() ==> Reportable(c.stopReason)
    {
      assert told[j].(isLive := true) == ProcessEvent(s, i, env).server.cores[j].(isLive := true);
    }
  }

  lemma DoCoreActionsKeepsReportable(s: Server, env: Env)
    requires Inv(s) && PendingReportable(s.cores) && Obeys(s.cores, env)
    ensures PendingReportable(DoCoreActions(s, env).server.cores)
  {
    hide ProcessEvent, Wait;
    NextStopEventInRange(s.cores);
    if NextStopEvent(s.cores).Some? {
      ProcessEventKeepsReportable(s, NextStopEvent(s.cores).value, env);
    } else {
      DrainedWhenNoEvent(s);
      WaitKeepsReportable(Emit(s, Resumed), env.waits, env);
    }
  }

  /** The environment keeps the contract of ITarget.h for this packet. */
  predicate PacketObeys(cfg: Config, s: Server, p: Packet, env: Env) {
    && (Entering(cfg, s, p).Some? ==> Obeys(Entering(cfg, s, p).value.cores, env))
    && (p.MonitorReset? ==> p.ok)
  }

  lemma HandleKeepsReportable(cfg: Config, s: Server, p: Packet, env: Env)
    requires Inv(s) && PendingReportable(s.cores) && PacketObeys(cfg, s, p, env)
    ensures !Handle(cfg, s, p, env).status.Fatal?
    ensures PendingReportable(Handle(cfg, s, p, env).server.cores)
  {
    hide Breach, Obeys, Sents, Reports, Resumes, OneReply, Conserved, Entering;
    if Resuming(p) {
      hide Handle, DoCoreActions;
      OnePacketPerResume(cfg, s, p, env);
      if Entering(cfg, s, p).Some? {
        EnteringKeeps(cfg, s, p);
        var e := Entering(cfg, s, p).value;
        HandleEntered(cfg, s, p, env);
        ObedientDontBreach(e.cores, env);
        DoCoreActionsKeepsReportable(e, env);
      } else {
        HandleRefused(cfg, s, p, env);
      }
    } else {
      OtherPacketsKeepReportable(cfg, s, p, env);
    }
  }

  lemma OtherPacketsKeepReportable(cfg: Config, s: Server, p: Packet, env: Env)
    requires |s.cores| < 0x1_0000_0000 && PendingReportable(s.cores) && !Resuming(p) && (p.MonitorReset? ==> p.ok)
    ensures !Handle(cfg, s, p, env).status.Fatal?
    ensures PendingReportable(Handle(cfg, s, p, env).server.cores)
  {
    hide KillRequest, ThreadInfo, SelectThread, PendingReportable;
    match p {
      case KillPacket(text) => KillKeepsReportable(s, text, cfg);
      case MonitorReset(_) => ResetReportable(s);
      case Reconnect => ResetReportable(s);
      case FirstThreadInfo => ThreadInfoKeepsCores(s.(nextProcess := 1));
      case NextThreadInfo => ThreadInfoKeepsCores(s);
      case SelectPacket(text) => SelectThreadKeepsCores(s, text);
      case _ =>
    }
  }

  lemma KillKeepsReportable(s: Server, text: seq<byte>, cfg: Config)
    requires PendingReportable(s.cores)
    ensures PendingReportable(KillRequest(s, text, cfg).server.cores) && !KillRequest(s, text, cfg).status.Fatal?
  {
    hide CoreNamed, PendingReportable;
    if IsHexStr(text) && |text| <= 8 && CoreNamed(text) < |s.cores| {
      KilledStaysReportable(s.cores, CoreNamed(text));
    }
  }

  lemma KilledStaysReportable(cores: seq<CoreState>, i: nat)
    requires i < |cores| && PendingReportable(cores)
    ensures PendingReportable(cores[i := cores[i].KillCore()])
  {
  }

  lemma ResetReportable(s: Server)
    requires |s.cores| < 0x1_0000_0000
    ensures PendingReportable(Reset(s).cores)
  {
  }

  lemma ThreadInfoKeepsCores(s: Server)
    requires |s.cores| < 0x1_0000_0000
    ensures ThreadInfo(s).server.cores == s.cores && !ThreadInfo(s).status.Fatal?
  {
    hide NextListed, Ptids.Encode, Ptids.ToInt32;
  }

  lemma SelectThreadKeepsCores(s: Server, text: seq<byte>)
    ensures SelectThread(s, text).server.cores == s.cores && !SelectThread(s, text).status.Fatal?
  {
    hide Ptids.Decode;
  }

  ghost predicate RunObeys(cfg: Config, s: Server, packets: seq<(Packet, Env)>)
    requires |s.cores| < 0x1_0000_0000
    decreases packets
  {
    packets != [] ==>
      && PacketObeys(cfg, s, packets[0].0, packets[0].1)
      && var r := Handle(cfg, s, packets[0].0, packets[0].1);
         r.status == Done ==> RunObeys(cfg, r.server, packets[1..])
  }

  lemma {:induction false} RunNeverFatal(cfg: Config, s: Server, packets: seq<(Packet, Env)>)
    requires Inv(s) && PendingReportable(s.cores) && RunObeys(cfg, s, packets)
    ensures !Run(cfg, s, packets).status.Fatal?
    decreases packets
  {
    hide Handle, Conserved, PacketObeys, PendingReportable;
    if packets != [] {
      HandleKeeps(cfg, s, packets[0].0, packets[0].1);
      HandleKeepsReportable(cfg, s, packets[0].0, packets[0].1);
      var r := Handle(cfg, s, packets[0].0, packets[0].1);
      if r.status == Done {
        RunNeverFatal(cfg, r.server, packets[1..]);
      }
    }
  }

  /** Under the target contract no fatal error is reachable, whatever the client sends. */
  lemma ContractMeansNoFatalError(cfg: Config, n: u32, packets: seq<(Packet, Env)>)
    requires RunObeys(cfg, Initial(n), packets)
    ensures !Run(cfg, Initial(n), packets).status.Fatal?
  {
    InitialInv(n);
    RunNeverFatal(cfg, Initial(n), packets);
  }
}
