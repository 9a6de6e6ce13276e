/** No stop event is lost, overwritten or reported twice, over every run of the server. */
module Conservation {
  import opened Bytes
  import opened Cores
  import opened Scheduler
  import VCont
  import Ptids

  /** The stops recorded for core `i` since the last reset, oldest first. */
  function StopsOf(trace: seq<Event>, i: nat): seq<ResumeRes> {
    if trace == [] then []
    else
      var before := trace[..|trace| - 1];
      match trace[|trace| - 1]
      case WasReset => []
      case Recorded(core, res) => StopsOf(before, i) + if core == i && res != NoStop then [res] else []
      case _ => StopsOf(before, i)
  }

  /** The stops of core `i` reported to the client since the last reset, oldest first. */
  function ReportsOf(trace: seq<Event>, i: nat): seq<ResumeRes> {
    if trace == [] then []
    else
      var before := trace[..|trace| - 1];
      match trace[|trace| - 1]
      case WasReset => []
      case Reported(core, res) => ReportsOf(before, i) + if core == i then [res] else []
      case _ => ReportsOf(before, i)
  }

  function Pending(core: CoreState): seq<ResumeRes> {
    if core.HasUnreportedStop() then [core.stopReason] else []
  }

  ghost predicate CoreConserved(core: CoreState, trace: seq<Event>, i: nat) {
    && (core.HasUnreportedStop() ==> core.stopReason != NoStop)
    && StopsOf(trace, i) == ReportsOf(trace, i) + Pending(core)
  }

  ghost predicate Conserved(cores: seq<CoreState>, trace: seq<Event>) {
    forall i | 0 <= i < |cores| :: CoreConserved(cores[i], trace, i)
  }

  predicate Quiet(e: Event) { !e.Recorded? && !e.Reported? && !e.WasReset? }

  lemma HistoryNext(trace: seq<Event>, e: Event, i: nat)
    ensures Quiet(e) ==> StopsOf(trace + [e], i) == StopsOf(trace, i) && ReportsOf(trace + [e], i) == ReportsOf(trace, i)
    ensures e.WasReset? ==> StopsOf(trace + [e], i) == [] == ReportsOf(trace + [e], i)
    ensures e.Recorded? ==>
              && StopsOf(trace + [e], i) == StopsOf(trace, i) + (if e.core == i && e.res != NoStop then [e.res] else [])
              && ReportsOf(trace + [e], i) == ReportsOf(trace, i)
    ensures e.Reported? ==>
              && ReportsOf(trace + [e], i) == ReportsOf(trace, i) + (if e.core == i then [e.res] else [])
              && StopsOf(trace + [e], i) == StopsOf(trace, i)
  {
    assert (trace + [e])[..|trace|] == trace;
  }

  /** The cores differ only in what the stop history does not depend on. */
  predicate SameStops(a: seq<CoreState>, b: seq<CoreState>) {
    |a| == |b|
    && forall i | 0 <= i < |a| :: a[i].stopReason == b[i].stopReason && a[i].stopReported == b[i].stopReported
  }

  lemma EmitConserves(cores: seq<CoreState>, cores': seq<CoreState>, trace: seq<Event>, e: Event)
    requires Conserved(cores, trace) && SameStops(cores, cores') && Quiet(e)
    ensures Conserved(cores', trace + [e])
  {
    hide StopsOf, ReportsOf;
    forall i | 0 <= i < |cores'| ensures CoreConserved(cores'[i], trace + [e], i) {
      HistoryNext(trace, e, i);
      assert CoreConserved(cores[i], trace, i);
    }
  }

  lemma ReportConserves(s: Server, i: nat)
    requires i < |s.cores| && s.cores[i].HasUnreportedStop() && Conserved(s.cores, s.trace)
    ensures Conserved(Report(s, i).cores, Report(s, i).trace)
  {
    hide StopsOf, ReportsOf;
    var told := Report(s, i);
    forall j | 0 <= j < |told.cores| ensures CoreConserved(told.cores[j], told.trace, j) {
      HistoryNext(s.trace, Reported(i, s.cores[i].stopReason), j);
      assert CoreConserved(s.cores[j], s.trace, j);
    }
  }

  lemma RecordConserves(s: Server, i: nat, res: ResumeRes)
    requires i < |s.cores| && !s.cores[i].HasUnreportedStop() && Conserved(s.cores, s.trace)
    ensures Conserved(Record(s, i, res).cores, Record(s, i, res).trace)
  {
    hide StopsOf, ReportsOf;
    var after := Record(s, i, res);
    forall j | 0 <= j < |after.cores| ensures CoreConserved(after.cores[j], after.trace, j) {
      HistoryNext(s.trace, Recorded(i, res), j);
      assert CoreConserved(s.cores[j], s.trace, j);
    }
  }

  lemma ResetConserves(s: Server)
    requires |s.cores| < 0x1_0000_0000
    ensures Conserved(Reset(s).cores, Reset(s).trace)
  {
    hide StopsOf, ReportsOf;
    forall i | 0 <= i < |s.cores| ensures CoreConserved(Reset(s).cores[i], Reset(s).trace, i) {
      HistoryNext(s.trace, WasReset, i);
    }
  }

  ghost predicate Inv(s: Server) {
    |s.cores| < 0x1_0000_0000 && Conserved(s.cores, s.trace)
  }

  lemma SendKeeps(s: Server, e: Event)
    requires Inv(s) && Quiet(e)
    ensures Inv(Emit(s, e))
  {
    EmitConserves(s.cores, s.cores, s.trace, e);
  }

  lemma KillKeeps(s: Server, coreNum: u32)
    requires Inv(s) && coreNum < |s.cores|
    ensures Inv(Kill(s, coreNum))
  {
    EmitConserves(s.cores, Kill(s, coreNum).cores, s.trace, Killed(coreNum));
  }

  lemma SyscallRequestKeeps(s: Server, env: Env)
    requires Inv(s) && s.currentCpu < |s.cores|
    ensures Inv(SyscallRequest(s, env).server)
  {
    hide Conserved;
    if !s.handlingSyscall {
      var supported := if s.haveArgLocs then s.haveSupport else env.supports;
      var asked := s.(handlingSyscall := true, haveArgLocs := true, haveSupport := supported);
      SendKeeps(asked, SyscallTrapped);
      SendKeeps(Emit(asked, SyscallTrapped), Sent(StopReply(TRAP, s.currentCpu)));
      SendKeeps(asked, Sent(FileIo(env.syscallId)));
      SendKeeps(asked, Sent(Exited(s.currentCpu)));
      KillKeeps(Send(asked, Exited(s.currentCpu)).(handlingSyscall := false), s.currentCpu);
    }
  }

  lemma ProcessEventKeeps(s: Server, i: nat, env: Env)
    requires Inv(s) && i < |s.cores| && s.cores[i].HasEvent()
    ensures Inv(ProcessEvent(s, i, env).server)
  {
    hide Conserved;
    ReportConserves(s, i);
    var told := Report(s, i);
    if s.cores[i].stopReason == Syscall {
      SyscallRequestKeeps(told, env);
    } else {
      SendKeeps(told, Sent(StopReply(TRAP, told.currentCpu)));
      SendKeeps(told, Sent(StopReply(USR1, told.currentCpu)));
    }
  }

  /** No core from `i` on is running with an unreported stop. */
  predicate Drained(cores: seq<CoreState>, i: nat) {
    forall j | i <= j < |cores| :: cores[j].IsRunning() ==> !cores[j].HasUnreportedStop()
  }

  lemma {:induction false} RecordFromKeeps(s: Server, results: seq<ResumeRes>, i: nat)
    requires Inv(s) && |results| == |s.cores|
    ensures Inv(RecordFrom(s, results, i).server)
    ensures Drained(s.cores, i) ==> RecordFrom(s, results, i).status == Done
    decreases |s.cores| - i
  {
    hide Conserved;
    if i < |s.cores| {
      if !s.cores[i].IsRunning() {
        RecordFromKeeps(s, results, i + 1);
      } else if !s.cores[i].HasUnreportedStop() {
        RecordConserves(s, i, results[i]);
        RecordFromKeeps(Record(s, i, results[i]), results, i + 1);
      }
    }
  }

  /** A stop that waits to be told: the core is to run, and its stop has not been reported. */
  predicate StopToTell(core: CoreState) {
    core.resumeType != Idle && !core.stopReported && core.stopReason != NoStop
  }

  /** getNextStopEvent only ever picks a core with an event, and finds one if there is any. */
  lemma {:induction false} NextHasEvent(cores: seq<CoreState>, i: nat)
    ensures NextSyscall(cores, i).Some? ==>
              var k := NextSyscall(cores, i).value;
              i <= k < |cores| && cores[k].HasEvent() && cores[k].stopReason == Syscall
    ensures NextEvent(cores, i).Some? ==>
              var k := NextEvent(cores, i).value; i <= k < |cores| && cores[k].HasEvent()
    ensures NextEvent(cores, i).None? <==> forall j | i <= j < |cores| :: !cores[j].HasEvent()
    ensures NextEvent(cores, i).None? ==> NextSyscall(cores, i).None?
    decreases |cores| - i
  {
    if i < |cores| {
      NextHasEvent(cores, i + 1);
    }
  }

  lemma NextStopHasEvent(cores: seq<CoreState>)
    ensures NextStopEvent(cores).Some? ==>
              NextStopEvent(cores).value < |cores| && StopToTell(cores[NextStopEvent(cores).value])
    ensures NextStopEvent(cores).None? <==> forall j | 0 <= j < |cores| :: !StopToTell(cores[j])
  {
    NextHasEvent(cores, 0);
  }

  lemma TakeResultsKeeps(s: Server, results: seq<ResumeRes>, env: Env)
    requires Inv(s)
    ensures Inv(TakeResults(s, results, env).server)
  {
    hide Conserved;
    if |results| == |s.cores| {
      RecordFromKeeps(s, results, 0);
      var r := RecordFrom(s, results, 0);
      NextStopHasEvent(r.server.cores);
      if r.status == Done && NextStopEvent(r.server.cores).Some? {
        ProcessEventKeeps(r.server, NextStopEvent(r.server.cores).value, env);
      }
    }
  }

  lemma {:induction false} WaitKeeps(s: Server, waits: seq<WaitAnswer>, env: Env)
    requires Inv(s)
    ensures Inv(Wait(s, waits, env).server)
    decreases waits
  {
    hide Conserved;
    if waits != [] {
      match waits[0] {
        case Failed =>
        case Happened(results) => TakeResultsKeeps(s, results, env);
        case Quiet(brk, timedOut) =>
          SendKeeps(s, Sent(StopReply(INT, s.currentCpu)));
          SendKeeps(s, Sent(StopReply(XCPU, s.currentCpu)));
          WaitKeeps(s, waits[1..], env);
      }
    }
  }

  lemma DoCoreActionsKeeps(s: Server, env: Env)
    requires Inv(s)
    ensures Inv(DoCoreActions(s, env).server)
  {
    hide Conserved;
    SendKeeps(s, Sent(StopReply(INT, s.currentCpu)));
    NextStopHasEvent(s.cores);
    if NextStopEvent(s.cores).Some? {
      ProcessEventKeeps(s, NextStopEvent(s.cores).value, env);
    }
    SendKeeps(s, Resumed);
    WaitKeeps(Emit(s, Resumed), env.waits, env);
  }

  lemma {:induction false} ApplyFromSameStops(cores: seq<CoreState>, actions: seq<VCont.Action>, i: nat)
    ensures SameStops(cores, ApplyFrom(cores, actions, i).0)
    decreases |cores| - i
  {
    if i < |cores| && Meaning(VCont.CoreAction(actions, i + 1)).Some? {
      var resType := ResumeTypeFor(cores[i], Meaning(VCont.CoreAction(actions, i + 1)).value);
      ApplyFromSameStops(cores[i := cores[i].SetResumeType(resType)], actions, i + 1);
    }
  }

  lemma VContRequestKeeps(s: Server, payload: seq<byte>, env: Env)
    requires Inv(s)
    ensures Inv(VContRequest(s, payload, env).server)
  {
    hide Conserved;
    SendKeeps(s, Sent(Error));
    match VCont.Parse(payload) {
      case ParseAborted =>
      case Malformed =>
      case Parsed(actions) =>
        var (cores, vector) := ApplyFrom(s.cores, actions, 0);
        ApplyFromSameStops(s.cores, actions, 0);
        EmitConserves(s.cores, cores, s.trace, Sent(Error));
        if vector.Some? {
          EmitConserves(s.cores, cores, s.trace, Prepared(vector.value));
          DoCoreActionsKeeps(Emit(s.(cores := cores), Prepared(vector.value)), env);
        }
    }
  }

  lemma SyscallReplyKeeps(s: Server, reply: FileIoReply, env: Env)
    requires Inv(s)
    ensures Inv(SyscallReply(s, reply, env).server)
  {
    hide Conserved, DoCoreActions;
    var taken := Emit(s.(handlingSyscall := false), Answered);
    SendKeeps(s.(handlingSyscall := false), Answered);
    SendKeeps(taken, ResultWritten(taken.currentCpu, reply.retcode));
    var written :=
      if reply.valid && reply.retcode != -1 then Emit(taken, ResultWritten(taken.currentCpu, reply.retcode)) else taken;
    SendKeeps(written, Sent(StopReply(INT, written.currentCpu)));
    DoCoreActionsKeeps(written, env);
  }

  lemma KillRequestKeeps(s: Server, text: seq<byte>, cfg: Config)
    requires Inv(s)
    ensures Inv(KillRequest(s, text, cfg).server)
  {
    hide Conserved;
    SendKeeps(s, Sent(Error));
    if IsHexStr(text) && |text| <= 8 {
      var coreNum := CoreNamed(text);
      if coreNum < |s.cores| {
        KillKeeps(s, coreNum);
        SendKeeps(Kill(s, coreNum), Sent(Ok));
        SendKeeps(Send(Kill(s, coreNum), Ok), Closed);
      }
    }
  }

  lemma ThreadsKeep(s: Server, text: seq<byte>)
    requires Inv(s)
    ensures Inv(ThreadInfo(s).server)
    ensures Inv(SelectThread(s, text).server)
  {
    hide Conserved;
    var moved := s.(nextProcess := Increment(Increment(NextListed(s, s.nextProcess))));
    forall reply: Reply ensures Inv(Send(s, reply)) && Inv(Send(moved, reply)) {
      SendKeeps(s, Sent(reply));
      SendKeeps(moved, Sent(reply));
    }
    match Ptids.Decode(s.ptid, text) {
      case Decoded(ptid) =>
        var chosen := Ptids.Crystalize(ptid, 1, 1);
        SendKeeps(s.(ptid := ptid), Sent(Error));
        SendKeeps(s.(ptid := chosen, currentCpu := if chosen.pid >= 1 then chosen.pid - 1 else 0), Sent(Ok));
      case _ =>
    }
  }

  /** Whatever the packet and whatever the outside world answers, the invariant is kept. */
  lemma HandleKeeps(cfg: Config, s: Server, p: Packet, env: Env)
    requires Inv(s)
    ensures Inv(Handle(cfg, s, p, env).server)
  {
    hide Conserved, VContRequest, SyscallReply, KillRequest, ThreadInfo, SelectThread;
    match p {
      case VContPacket(payload) => VContRequestKeeps(s, payload, env);
      case LegacyPacket(data) => VContRequestKeeps(s, LegacyPayload(data, cfg), env);
      case FileIoPacket(reply) => SyscallReplyKeeps(s, reply, env);
      case KillPacket(text) => KillRequestKeeps(s, text, cfg);
      case MonitorReset(ok) => ResetConserves(s); SendKeeps(Reset(s), Sent(Ok));
      case Reconnect => ResetConserves(s);
      case FirstThreadInfo => ThreadsKeep(s.(nextProcess := 1), []);
      case NextThreadInfo => ThreadsKeep(s, []);
      case SelectPacket(text) => ThreadsKeep(s, text);
      case KillCoreOnExit(on) => SendKeeps(s.(killCoreOnExit := on), Sent(Ok));
    }
  }

  // ---- Runs ----

  /** Packets handled one after the other, each with the answers of its environment, until one
      does not finish. */
  function Run(cfg: Config, s: Server, packets: seq<(Packet, Env)>): (r: Result)
    requires |s.cores| < 0x1_0000_0000
    ensures |r.server.cores| == |s.cores|
    decreases packets
  {
    if packets == [] then Result(s, Done)
    else
      var r := Handle(cfg, s, packets[0].0, packets[0].1);
      if r.status != Done then r else Run(cfg, r.server, packets[1..])
  }

  lemma {:induction false} RunKeeps(cfg: Config, s: Server, packets: seq<(Packet, Env)>)
    requires Inv(s)
    ensures Inv(Run(cfg, s, packets).server)
    decreases packets
  {
    hide Conserved, Handle;
    if packets != [] {
      HandleKeeps(cfg, s, packets[0].0, packets[0].1);
      RunKeeps(cfg, Handle(cfg, s, packets[0].0, packets[0].1).server, packets[1..]);
    }
  }

  lemma InitialInv(n: u32)
    ensures Inv(Initial(n))
  {
    assert forall i | 0 <= i < n :: CoreConserved(Initial(n).cores[i], [], i);
  }

  /** Conservation: at every point of every run from a fresh server, for each core, the stops
      recorded since the last reset are exactly the stops reported, in the same order, followed by
      the one still pending if there is one. */
  lemma StopsAreConserved(cfg: Config, n: u32, packets: seq<(Packet, Env)>, i: nat)
    requires i < n
    ensures var s := Run(cfg, Initial(n), packets).server;
            && |s.cores| == n
            && StopsOf(s.trace, i)
               == ReportsOf(s.trace, i) + (if s.cores[i].HasUnreportedStop() then [s.cores[i].stopReason] else [])
            && (s.cores[i].HasUnreportedStop() ==> s.cores[i].stopReason != NoStop)
  {
    hide StopsOf, ReportsOf, Run;
    InitialInv(n);
    RunKeeps(cfg, Initial(n), packets);
    var s := Run(cfg, Initial(n), packets).server;
    assert CoreConserved(s.cores[i], s.trace, i);
  }
}
