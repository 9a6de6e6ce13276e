/** The server's run control as functions of its state and of what the outside world answers:
    which stop is reported next, what a resuming packet does, syscalls, kills and thread lists
    (GdbServer.cpp). */
module Scheduler {
  import opened Bytes
  import opened Cores
  import Hex
  import Ptids
  import VCont
  import PacketBuilder

  datatype Option<T> = None | Some(value: T)

  datatype Signal = INT | TRAP | XCPU | USR1

  /** The packets that matter to run control; stop and exit replies name the current core. */
  datatype Reply =
    | StopReply(signal: Signal, core: nat)
    | FileIo(id: nat)
    | Exited(core: nat)
    | Ok
    | Error
    | Thread(text: seq<byte>)
    | ThreadsEnd

  /** What the server did, in order: packets sent, target calls, and changes worth remembering. */
  datatype Event =
    | Sent(reply: Reply)
    | Resumed
    | Prepared(actions: seq<ResumeType>)
    | Recorded(core: nat, res: ResumeRes)
    | Reported(core: nat, res: ResumeRes)
    | SyscallTrapped
    | Answered
    | ResultWritten(core: nat, value: int)
    | Killed(core: nat)
    | WasReset
    | Closed

  datatype Server = Server(
    cores: seq<CoreState>,
    liveCores: u32,
    handlingSyscall: bool,
    haveArgLocs: bool,
    haveSupport: bool,
    currentCpu: nat,
    ptid: Ptids.Value,
    nextProcess: u32,
    killCoreOnExit: bool,
    exitServer: bool,
    trace: seq<Event>)

  function Initial(count: u32): Server {
    Server(FreshCores(count), count, false, false, false, 0, Ptids.Value(1, 1), 1, false, false, [])
  }

  datatype FatalError =
    HaltFailed | ResumeFailed | WaitFailed | WrongResultCount | AlreadyPending | NoEventProcessed | UnknownStopEvent | ResetFailed

  /** The assertions a packet can run into. */
  datatype Assertion = NestedSyscall | UnexpectedReply | TooManyDigits

  /** Waiting: the target has not answered yet, the server is still in its wait loop. */
  datatype Status = Done | Waiting | Fatal(error: FatalError) | AssertFailed(which: Assertion)

  datatype Result = Result(server: Server, status: Status)

  /** One answer of wait(), with the break poll and the timeout test that follow a TIMEOUT. */
  datatype WaitAnswer = Happened(results: seq<ResumeRes>) | Failed | Quiet(brk: bool, timedOut: bool)

  /** Everything the client connection and the target answer during one packet. */
  datatype Env = Env(
    brk: bool, haltOk: bool, resumeOk: bool, waits: seq<WaitAnswer>, supports: bool, syscallId: nat)

  datatype Config = Config(maxPacketSize: nat, exitOnKill: bool)

  function Emit(s: Server, e: Event): Server { s.(trace := s.trace + [e]) }

  function Send(s: Server, reply: Reply): Server { Emit(s, Sent(reply)) }

  function ReportException(s: Server, sig: Signal): Server { Send(s, StopReply(sig, s.currentCpu)) }

  // ---- Choosing a stop event ----

  /** The lowest core from `i` with a SYSCALL event. */
  function NextSyscall(cores: seq<CoreState>, i: nat): Option<nat>
    decreases |cores| - i
  {
    if i >= |cores| then None
    else if cores[i].HasEvent() && cores[i].stopReason == Syscall then Some(i)
    else NextSyscall(cores, i + 1)
  }

  /** The lowest core from `i` with any event. */
  function NextEvent(cores: seq<CoreState>, i: nat): Option<nat>
    decreases |cores| - i
  {
    if i >= |cores| then None
    else if cores[i].HasEvent() then Some(i)
    else NextEvent(cores, i + 1)
  }

  function NextStopEvent(cores: seq<CoreState>): Option<nat> {
    if NextSyscall(cores, 0).Some? then NextSyscall(cores, 0) else NextEvent(cores, 0)
  }

  // ---- System calls ----

  const FILE_IO_CALLS: set<nat> := {57, 62, 63, 64, 80, 169, 1024, 1026, 1038}
  const EXIT_CALL: nat := 93

  function Kill(s: Server, coreNum: u32): Server
    requires coreNum < |s.cores|
  {
    Emit(s.(cores := s.cores[coreNum := s.cores[coreNum].KillCore()], liveCores := Decrement(s.liveCores)),
         Killed(coreNum))
  }

  /** rspSyscallRequest. */
  function SyscallRequest(s: Server, env: Env): (r: Result)
    requires s.currentCpu < |s.cores| < 0x1_0000_0000
    ensures |r.server.cores| == |s.cores|
  {
    if s.handlingSyscall then Result(s, AssertFailed(NestedSyscall))
    else
      var supported := if s.haveArgLocs then s.haveSupport else env.supports;
      var asked := s.(handlingSyscall := true, haveArgLocs := true, haveSupport := supported);
      if !supported then Result(ReportException(Emit(asked, SyscallTrapped), TRAP), Done)
      else if env.syscallId in FILE_IO_CALLS then Result(Send(asked, FileIo(env.syscallId)), Done)
      else if env.syscallId == EXIT_CALL then
        Result(Kill(Send(asked, Exited(s.currentCpu)).(handlingSyscall := false), s.currentCpu), Done)
      else Result(ReportException(Emit(asked, SyscallTrapped), TRAP), Done)
  }

  // ---- Running the target ----

  function Report(s: Server, i: nat): Server
    requires i < |s.cores|
  {
    Emit(s.(cores := s.cores[i := s.cores[i].ReportStopReason()], currentCpu := i), Reported(i, s.cores[i].stopReason))
  }

  /** processStopEvents when getNextStopEvent found core `i`. */
  function ProcessEvent(s: Server, i: nat, env: Env): (r: Result)
    requires i < |s.cores| < 0x1_0000_0000
    ensures |r.server.cores| == |s.cores|
  {
    var told := Report(s, i);
    match s.cores[i].stopReason
    case Syscall => SyscallRequest(told, env)
    case Interrupted => Result(ReportException(told, TRAP), Done)
    case Stepped => Result(ReportException(told, TRAP), Done)
    case Lockstep => Result(ReportException(told, USR1), Done)
    case _ => Result(told, Fatal(UnknownStopEvent))
  }

  /** Record the results of cores `i` and up; stops at a core whose last stop is still unreported. */
  function RecordFrom(s: Server, results: seq<ResumeRes>, i: nat): (r: Result)
    requires |results| == |s.cores|
    ensures |r.server.cores| == |s.cores|
    decreases |s.cores| - i
  {
    if i >= |s.cores| then Result(s, Done)
    else if !s.cores[i].IsRunning() then RecordFrom(s, results, i + 1)
    else if s.cores[i].HasUnreportedStop() then Result(s, Fatal(AlreadyPending))
    else RecordFrom(Record(s, i, results[i]), results, i + 1)
  }

  function Record(s: Server, i: nat, res: ResumeRes): Server
    requires i < |s.cores|
  {
    Emit(s.(cores := s.cores[i := s.cores[i].SetStopReason(res)]), Recorded(i, res))
  }

  function TakeResults(s: Server, results: seq<ResumeRes>, env: Env): (r: Result)
    requires |s.cores| < 0x1_0000_0000
    ensures |r.server.cores| == |s.cores|
  {
    if |results| != |s.cores| then Result(s, Fatal(WrongResultCount))
    else
      var recorded := RecordFrom(s, results, 0);
      if recorded.status != Done then recorded
      else
        match NextStopEvent(recorded.server.cores)
        case None => Result(recorded.server, Fatal(NoEventProcessed))
        case Some(i) => NextStopEventInRange(recorded.server.cores); ProcessEvent(recorded.server, i, env)
  }

  function Wait(s: Server, waits: seq<WaitAnswer>, env: Env): (r: Result)
    requires |s.cores| < 0x1_0000_0000
    ensures |r.server.cores| == |s.cores|
    decreases waits
  {
    if waits == [] then Result(s, Waiting)
    else
      match waits[0]
      case Failed => Result(s, Fatal(WaitFailed))
      case Happened(results) => TakeResults(s, results, env)
      case Quiet(brk, timedOut) =>
        if !brk && !timedOut then Wait(s, waits[1..], env)
        else if !env.haltOk then Result(s, Fatal(HaltFailed))
        else Result(ReportException(s, if brk then INT else XCPU), Done)
  }

  function DoCoreActions(s: Server, env: Env): (r: Result)
    requires |s.cores| < 0x1_0000_0000
    ensures |r.server.cores| == |s.cores|
  {
    if env.brk then
      if !env.haltOk then Result(s, Fatal(HaltFailed)) else Result(ReportException(s, INT), Done)
    else
      match NextStopEvent(s.cores)
      case Some(i) => NextStopEventInRange(s.cores); ProcessEvent(s, i, env)
      case None =>
        if !env.resumeOk then Result(s, Fatal(ResumeFailed)) else Wait(Emit(s, Resumed), env.waits, env)
  }

  lemma NextStopEventInRange(cores: seq<CoreState>)
    ensures NextStopEvent(cores).Some? ==> NextStopEvent(cores).value < |cores|
  {
    NextInRange(cores, 0);
  }

  lemma NextInRange(cores: seq<CoreState>, i: nat)
    ensures NextSyscall(cores, i).Some? ==> i <= NextSyscall(cores, i).value < |cores|
    ensures NextEvent(cores, i).Some? ==> i <= NextEvent(cores, i).value < |cores|
    decreases |cores| - i
  {
  }

  // ---- Packets ----

  /** The parsed reply to a file-I/O request. */
  datatype FileIoReply = FileIoReply(valid: bool, retcode: int, ctrlC: bool)

  /** rspSyscallReply. */
  function SyscallReply(s: Server, reply: FileIoReply, env: Env): (r: Result)
    requires |s.cores| < 0x1_0000_0000
    ensures |r.server.cores| == |s.cores|
  {
    if !s.handlingSyscall then Result(s, AssertFailed(UnexpectedReply))
    else
      var taken := Emit(s.(handlingSyscall := false), Answered);
      var written :=
        if reply.valid && reply.retcode != -1 then Emit(taken, ResultWritten(taken.currentCpu, reply.retcode)) else taken;
      if reply.valid && reply.ctrlC then Result(ReportException(written, INT), Done)
      else DoCoreActions(written, env)
  }

  /** The resume type an action letter stands for. */
  function Meaning(letter: byte): Option<ResumeType> {
    if letter == 0 then Some(Idle)
    else if letter == LOWER_C || letter == UPPER_C then Some(Continue)
    else if letter == LOWER_S || letter == UPPER_S then Some(ResumeType.Step)
    else None
  }

  function ResumeTypeFor(core: CoreState, meant: ResumeType): ResumeType {
    if core.isLive then meant else Idle
  }

  /** The core loop of rspVCont from core `i`: new core states and, unless a letter is unknown, the actions. */
  function ApplyFrom(cores: seq<CoreState>, actions: seq<VCont.Action>, i: nat): (r: (seq<CoreState>, Option<seq<ResumeType>>))
    ensures |r.0| == |cores|
    decreases |cores| - i
  {
    if i >= |cores| then (cores, Some([]))
    else
      match Meaning(VCont.CoreAction(actions, i + 1))
      case None => (cores, None)
      case Some(meant) =>
        var resType := ResumeTypeFor(cores[i], meant);
        var (after, rest) := ApplyFrom(cores[i := cores[i].SetResumeType(resType)], actions, i + 1);
        (after, if rest.Some? then Some([resType] + rest.value) else None)
  }

  /** rspVCont. */
  function VContRequest(s: Server, payload: seq<byte>, env: Env): (r: Result)
    requires |s.cores| < 0x1_0000_0000
    ensures |r.server.cores| == |s.cores|
  {
    match VCont.Parse(payload)
    case ParseAborted => Result(s, AssertFailed(TooManyDigits))
    case Malformed => Result(Send(s, Error), Done)
    case Parsed(actions) =>
      var (cores, vector) := ApplyFrom(s.cores, actions, 0);
      if vector.None? then Result(Send(s.(cores := cores), Error), Done)
      else DoCoreActions(Emit(s.(cores := cores), Prepared(vector.value)), env)
  }

  const VCONT_HEADER: seq<byte> := [118, 67, 111, 110, 116, 59]  // "vCont;"

  /** The packet built for `c`, `C`, `s` and `S`. */
  function LegacyPayload(pkt: seq<byte>, cfg: Config): seq<byte> {
    PacketBuilder.Add(PacketBuilder.Add([], VCONT_HEADER, cfg.maxPacketSize), pkt, cfg.maxPacketSize)
  }

  function Pid2CoreNum(pid: u32): u32 { Decrement(pid) }

  /** The core named by the hex process number of a kill. */
  function CoreNamed(text: seq<byte>): u32
    requires IsHexStr(text) && |text| <= 8
  {
    Hex.ValueFits32(text);
    Pid2CoreNum(Hex.HexValue(text))
  }

  /** rspVKill, for the text after `vKill;`. */
  function KillRequest(s: Server, text: seq<byte>, cfg: Config): (r: Result)
    ensures |r.server.cores| == |s.cores|
  {
    if !IsHexStr(text) then Result(Send(s, Error), Done)
    else if |text| > 8 then Result(s, AssertFailed(TooManyDigits))
    else
      var coreNum := CoreNamed(text);
      if coreNum >= |s.cores| then Result(Send(s, Error), Done)
      else
        var killed := Send(Kill(s, coreNum), Ok);
        if killed.liveCores != 0 then Result(killed, Done)
        else Result(Emit(killed, Closed).(exitServer := s.exitServer || cfg.exitOnKill), Done)
  }

  function Reset(s: Server): Server
    requires |s.cores| < 0x1_0000_0000
  {
    Emit(s.(cores := FreshCores(|s.cores|), liveCores := |s.cores|), WasReset)
  }

  // ---- Threads ----

  function Increment(n: u32): u32 { if n == 0xFFFF_FFFF then 0 else n + 1 }

  /** The core the do-while loop of rspWriteNextThreadInfo stops at, starting with process `next`. */
  function NextListed(s: Server, next: u32): (r: u32)
    requires |s.cores| < 0x1_0000_0000
    decreases |s.cores| - Pid2CoreNum(next)
  {
    var coreNum := Pid2CoreNum(next);
    if coreNum < |s.cores| && s.killCoreOnExit && !s.cores[coreNum].isLive then NextListed(s, Increment(next))
    else coreNum
  }

  function ThreadInfo(s: Server): (r: Result)
    requires |s.cores| < 0x1_0000_0000
    ensures |r.server.cores| == |s.cores|
  {
    var coreNum := NextListed(s, s.nextProcess);
    var moved := s.(nextProcess := Increment(Increment(coreNum)));
    if coreNum >= |s.cores| then Result(Send(moved, ThreadsEnd), Done)
    else if Ptids.ToInt32(coreNum + 1) < Ptids.PTID_ALL then Result(Send(moved, Error), Done)
    else Result(Send(moved, Thread(Ptids.Encode(Ptids.Value(Ptids.ToInt32(coreNum + 1), 1)))), Done)
  }

  /** Hg: decode, then make specific with the defaults; a decoded identifier is kept even if the
      second step refuses it. */
  function SelectThread(s: Server, text: seq<byte>): (r: Result)
    ensures |r.server.cores| == |s.cores|
  {
    match Ptids.Decode(s.ptid, text)
    case AssertFailure => Result(s, AssertFailed(TooManyDigits))
    case Rejected => Result(Send(s, Error), Done)
    case Decoded(ptid) =>
      if !Ptids.CanCrystalize(ptid) then Result(Send(s.(ptid := ptid), Error), Done)
      else
        var chosen := Ptids.Crystalize(ptid, 1, 1);
        Result(Send(s.(ptid := chosen, currentCpu := chosen.pid - 1), Ok), Done)
  }

  // ---- Runs ----

  datatype Packet =
    | VContPacket(payload: seq<byte>)
    | LegacyPacket(data: seq<byte>)
    | FileIoPacket(reply: FileIoReply)
    | KillPacket(text: seq<byte>)
    | MonitorReset(ok: bool)
    | Reconnect
    | FirstThreadInfo
    | NextThreadInfo
    | SelectPacket(text: seq<byte>)
    | KillCoreOnExit(on: bool)

  predicate Resuming(p: Packet) {
    p.VContPacket? || p.LegacyPacket? || p.FileIoPacket?
  }

  function Handle(cfg: Config, s: Server, p: Packet, env: Env): (r: Result)
    requires |s.cores| < 0x1_0000_0000
    ensures |r.server.cores| == |s.cores|
  {
    match p
    case VContPacket(payload) => VContRequest(s, payload, env)
    case LegacyPacket(data) => VContRequest(s, LegacyPayload(data, cfg), env)
    case FileIoPacket(reply) => SyscallReply(s, reply, env)
    case KillPacket(text) => KillRequest(s, text, cfg)
    case MonitorReset(ok) => if ok then Result(Send(Reset(s), Ok), Done) else Result(Reset(s), Fatal(ResetFailed))
    case Reconnect => Result(Reset(s), Done)
    case FirstThreadInfo => ThreadInfo(s.(nextProcess := 1))
    case NextThreadInfo => ThreadInfo(s)
    case SelectPacket(text) => SelectThread(s, text)
    case KillCoreOnExit(on) => Result(Send(s.(killCoreOnExit := on), Ok), Done)
  }
}
