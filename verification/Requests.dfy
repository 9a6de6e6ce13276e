/** The packets that do not resume, and the reply to a system call, spelt out: what each answers, what
    it changes, and that it changes nothing else. */
module Requests {
  import opened Bytes
  import opened Cores
  import opened Scheduler
  import opened Conservation
  import opened Progress
  import opened Bookkeeping
  import Hex
  import Ptids
  import VCont

  // ---- vKill ----

  /** What one kill does: the core is dead, it is counted off (wrapping below zero), the client hears
      OK, and if the counter is then zero the connection is closed. */
  function AfterKill(s: Server, i: nat, cfg: Config): Server
    requires i < |s.cores|
  {
    var left: u32 := if s.liveCores == 0 then 0xFFFF_FFFF else s.liveCores - 1;
    s.(cores := s.cores[i := s.cores[i].(isLive := false)], liveCores := left,
       exitServer := s.exitServer || (left == 0 && cfg.exitOnKill),
       trace := s.trace + [Killed(i), Sent(Ok)] + if left == 0 then [Closed] else [])
  }

  /** vKill of process i + 1 kills core i, if there is such a core. */
  lemma KillAnswered(s: Server, text: seq<byte>, cfg: Config)
    requires |s.cores| < 0x1_0000_0000 && IsHexStr(text) && |text| <= 8 && 1 <= Hex.HexValue(text) <= |s.cores|
    ensures KillRequest(s, text, cfg) == Result(AfterKill(s, Hex.HexValue(text) - 1, cfg), Done)
  {
    CoreNamedIs(text);
    hide Hex.HexValue, CoreNamed, Kill, AfterKill, IsHexStr;
    var i := Hex.HexValue(text) - 1;
    var killed := Send(Kill(s, i), Ok);
    assert KillRequest(s, text, cfg)
        == Result(if killed.liveCores != 0 then killed
                  else Emit(killed, Closed).(exitServer := s.exitServer || cfg.exitOnKill), Done);
    KillAfter(s, i, cfg);
    hide KillRequest;
  }

  /** Any other text kills nothing: no hex number and a process that is none of the cores are errors,
      more than eight digits fail an assertion. */
  lemma KillRefused(s: Server, text: seq<byte>, cfg: Config)
    requires |s.cores| < 0x1_0000_0000
    requires !IsHexStr(text) || |text| > 8 || Hex.HexValue(text) == 0 || Hex.HexValue(text) > |s.cores|
    ensures KillRequest(s, text, cfg)
         == if IsHexStr(text) && |text| > 8 then Result(s, AssertFailed(TooManyDigits))
            else Result(s.(trace := s.trace + [Sent(Error)]), Done)
  {
    if IsHexStr(text) && |text| <= 8 {
      CoreNamedIs(text);
    }
    hide Hex.HexValue, CoreNamed, Kill;
  }

  lemma CoreNamedIs(text: seq<byte>)
    requires IsHexStr(text) && |text| <= 8
    ensures 0 <= Hex.HexValue(text) < 0x1_0000_0000
    ensures CoreNamed(text) == if Hex.HexValue(text) == 0 then 0xFFFF_FFFF else Hex.HexValue(text) - 1
  {
    Hex.ValueFits32(text);
  }

  lemma KillAfter(s: Server, i: u32, cfg: Config)
    requires i < |s.cores|
    ensures var killed := Send(Kill(s, i), Ok);
            && (killed.liveCores != 0 ==> killed == AfterKill(s, i, cfg))
            && (killed.liveCores == 0 ==>
                  Emit(killed, Closed).(exitServer := s.exitServer || cfg.exitOnKill) == AfterKill(s, i, cfg))
  {
    assert s.trace + [Killed(i)] + [Sent(Ok)] == s.trace + [Killed(i), Sent(Ok)] + [];
    assert s.trace + [Killed(i)] + [Sent(Ok)] + [Closed] == s.trace + [Killed(i), Sent(Ok)] + [Closed];
  }

  // ---- Resets and settings ----

  /** A core as it is before anything happened: alive, not to run, with nothing to tell. */
  predicate Untouched(core: CoreState) {
    core.isLive && core.resumeType == Idle && core.stopReported && core.stopReason == Interrupted
  }

  /** A successful `monitor reset` brings every core back to its first state and the counter to the
      number of cores, and answers OK; a new connection does the same without an answer.  All else
      stays, the flag of a system call in progress included. */
  lemma ResetRestores(cfg: Config, s: Server, env: Env)
    requires |s.cores| < 0x1_0000_0000
    ensures forall p | p == Reconnect || p == MonitorReset(true) ::
              var r := Handle(cfg, s, p, env);
              && r.status == Done && |r.server.cores| == |s.cores| == r.server.liveCores
              && (forall i | 0 <= i < |s.cores| :: Untouched(r.server.cores[i]))
              && r.server == s.(cores := r.server.cores, liveCores := r.server.liveCores,
                                trace := s.trace + [WasReset] + if p.Reconnect? then [] else [Sent(Ok)])
    ensures Handle(cfg, s, MonitorReset(false), env).status == Fatal(ResetFailed)
  {
    var after := Reset(s);
    assert forall i | 0 <= i < |s.cores| :: Untouched(after.cores[i]);
    assert s.trace + [WasReset] + [] == s.trace + [WasReset];
  }

  /** So does starting: the first state of a server is that of its cores. */
  lemma StartsUntouched(n: u32)
    ensures var s := Initial(n);
            && |s.cores| == n == s.liveCores && (forall i | 0 <= i < n :: Untouched(s.cores[i]))
            && !s.handlingSyscall && !s.haveArgLocs && !s.killCoreOnExit && !s.exitServer && s.trace == []
            && s.ptid == Ptids.Value(1, 1) && s.currentCpu == 0 && s.nextProcess == 1
  {
  }

  /** The setting is taken over and answered with OK. */
  lemma SettingAnswered(cfg: Config, s: Server, on: bool, env: Env)
    requires |s.cores| < 0x1_0000_0000
    ensures Handle(cfg, s, KillCoreOnExit(on), env)
         == Result(s.(killCoreOnExit := on, trace := s.trace + [Sent(Ok)]), Done)
  {
  }

  // ---- Hg ----

  /** The core an identifier selects: process 0, for any, is the first core, and so is thread 0 its
      thread 1; ALL of either is refused. */
  predicate Selectable(p: Ptids.Value) { p.pid >= 0 && p.tid >= 0 }

  function AfterSelect(s: Server, p: Ptids.Value): Server {
    if !Selectable(p) then s.(ptid := p, trace := s.trace + [Sent(Error)])
    else
      var pid, tid := if p.pid == 0 then 1 else p.pid, if p.tid == 0 then 1 else p.tid;
      s.(ptid := Ptids.Value(pid, tid), currentCpu := pid - 1, trace := s.trace + [Sent(Ok)])
  }

  /** `Hg` with any identifier, in each of its three formats.  An identifier the parser accepts but
      that cannot be made specific is remembered all the same. */
  lemma HgSelects(s: Server, p: Ptids.Value)
    requires Ptids.Encodable(p.pid) && Ptids.Encodable(p.tid)
    ensures SelectThread(s, Ptids.Encode(p))
         == Result(if p.pid == -1 && p.tid <= 0 then s.(trace := s.trace + [Sent(Error)]) else AfterSelect(s, p), Done)
    ensures SelectThread(s, [LOWER_P] + Ptids.EncodeField(p.pid))
         == Result(if p.pid == -1 then s.(trace := s.trace + [Sent(Error)])
                   else AfterSelect(s, Ptids.Value(p.pid, -1)), Done)
    ensures SelectThread(s, Ptids.EncodeField(p.tid))
         == Result(if s.ptid.pid == -1 && p.tid <= 0 then s.(trace := s.trace + [Sent(Error)])
                   else AfterSelect(s, Ptids.Value(s.ptid.pid, p.tid)), Done)
  {
    Ptids.PtidRoundTrip(s.ptid, p);
    Ptids.ShortForms(s.ptid, p.pid);
    Ptids.ShortForms(s.ptid, p.tid);
    hide Ptids.Decode, Ptids.Encode, Ptids.EncodeField, SelectThread, AfterSelect;
    SelectFrom(s, Ptids.Encode(p));
    SelectFrom(s, [LOWER_P] + Ptids.EncodeField(p.pid));
    SelectFrom(s, Ptids.EncodeField(p.tid));
  }

  lemma SelectFrom(s: Server, text: seq<byte>)
    ensures var decoded := Ptids.Decode(s.ptid, text);
            && (decoded.Rejected? ==> SelectThread(s, text) == Result(s.(trace := s.trace + [Sent(Error)]), Done))
            && (decoded.Decoded? ==> SelectThread(s, text) == Result(AfterSelect(s, decoded.ptid), Done))
  {
    hide Ptids.Decode;
  }

  // ---- System calls ----

  /** What the client and the books hear of a system call, by its number: close, lseek, read, write,
      fstat, gettimeofday, open, unlink and stat are forwarded; exit is told and then kills the core;
      any other call, and every call on a target without support, is a trap. */
  function CallEvents(id: nat, supported: bool, i: nat): seq<Event> {
    if supported && id in {57, 62, 63, 64, 80, 169, 1024, 1026, 1038} then [Sent(FileIo(id))]
    else if supported && id == 93 then [Sent(Exited(i)), Killed(i)]
    else [SyscallTrapped, Sent(StopReply(TRAP, i))]
  }

  lemma CallAnswered(s: Server, env: Env)
    requires s.currentCpu < |s.cores| < 0x1_0000_0000
    ensures s.handlingSyscall ==> SyscallRequest(s, env) == Result(s, AssertFailed(NestedSyscall))
    ensures !s.handlingSyscall ==>
              var supported := if s.haveArgLocs then s.haveSupport else env.supports;
              var r := SyscallRequest(s, env);
              && r.status == Done
              && r.server.trace == s.trace + CallEvents(env.syscallId, supported, s.currentCpu)
              && (r.server.handlingSyscall <==> !(supported && env.syscallId == 93))
  {
    var i := s.currentCpu;
    assert s.trace + [Sent(Exited(i))] + [Killed(i)] == s.trace + [Sent(Exited(i)), Killed(i)];
    assert s.trace + [SyscallTrapped] + [Sent(StopReply(TRAP, i))] == s.trace + [SyscallTrapped, Sent(StopReply(TRAP, i))];
  }

  /** What an F reply does before run control goes on: the flag is down, and a valid result other
      than -1 is written for the current core. */
  function Taken(s: Server, reply: FileIoReply): Server {
    var written := if reply.valid && reply.retcode != -1 then [ResultWritten(s.currentCpu, reply.retcode)] else [];
    s.(handlingSyscall := false, trace := s.trace + [Answered] + written)
  }

  /** An F reply that nobody waits for fails an assertion.  Otherwise it is taken over; a ctrl-C that
      comes with it is told as SIGINT and nothing is resumed, and without one run control goes on. */
  lemma FileReplyAnswered(s: Server, reply: FileIoReply, env: Env)
    requires |s.cores| < 0x1_0000_0000
    ensures !s.handlingSyscall ==> SyscallReply(s, reply, env) == Result(s, AssertFailed(UnexpectedReply))
    ensures s.handlingSyscall ==>
              var taken := Taken(s, reply);
              SyscallReply(s, reply, env)
              == if reply.valid && reply.ctrlC
                 then Result(taken.(trace := taken.trace + [Sent(StopReply(INT, s.currentCpu))]), Done)
                 else DoCoreActions(taken, env)
  {
    hide DoCoreActions;
    assert s.trace + [Answered] + [] == s.trace + [Answered];
    assert forall e :: s.trace + [Answered] + [e] == (s.trace + [Answered]) + [e];
  }

  /** The result of a call goes to the core that made it: whatever core's call the server forwarded,
      if the next packet is its answer, the value is written for that core. */
  lemma ResultGoesToCaller(s: Server, i: nat, env: Env, reply: FileIoReply, env': Env)
    requires i < |s.cores| < 0x1_0000_0000 && s.cores[i].stopReason == Syscall
    requires reply.valid && reply.retcode != -1
    requires var r := ProcessEvent(s, i, env); r.status == Done && r.server.handlingSyscall
    ensures var asked := ProcessEvent(s, i, env).server;
            asked.trace + [Answered, ResultWritten(i, reply.retcode)] <= SyscallReply(asked, reply, env').server.trace
  {
    AfterEvent(s, i, env);
    var asked := ProcessEvent(s, i, env).server;
    hide SyscallRequest, DoCoreActions, ProcessEvent, SyscallReply;
    FileReplyAnswered(asked, reply, env');
    var taken := Taken(asked, reply);
    assert taken.trace == asked.trace + [Answered, ResultWritten(i, reply.retcode)];
    DoCoreActionsMovesOn(taken, env');
  }

  /** What client and target have seen is never taken back, and what the target once said about its
      support for system calls counts from there on. */
  ghost predicate MovesOn(s: Server, s': Server) {
    s.trace <= s'.trace && (s.haveArgLocs ==> s'.haveArgLocs && s'.haveSupport == s.haveSupport)
  }

  /** The target is asked about its support at the first call, and not again. */
  lemma SyscallAsksOnce(s: Server, env: Env)
    requires s.currentCpu < |s.cores| < 0x1_0000_0000
    ensures var s' := SyscallRequest(s, env).server;
            && MovesOn(s, s')
            && (!s.handlingSyscall ==> s'.haveArgLocs && (!s.haveArgLocs ==> s'.haveSupport == env.supports))
  {
  }

  lemma ProcessEventMovesOn(s: Server, i: nat, env: Env)
    requires i < |s.cores| < 0x1_0000_0000
    ensures MovesOn(s, ProcessEvent(s, i, env).server)
  {
    hide SyscallRequest;
    SyscallAsksOnce(Report(s, i), env);
  }

  lemma {:induction false} RecordFromMovesOn(s: Server, results: seq<ResumeRes>, i: nat)
    requires |results| == |s.cores|
    ensures MovesOn(s, RecordFrom(s, results, i).server)
    decreases |s.cores| - i
  {
    if i < |s.cores| {
      RecordFromMovesOn(s, results, i + 1);
      RecordFromMovesOn(Record(s, i, results[i]), results, i + 1);
    }
  }

  lemma {:induction false} WaitMovesOn(s: Server, waits: seq<WaitAnswer>, env: Env)
    requires |s.cores| < 0x1_0000_0000
    ensures MovesOn(s, Wait(s, waits, env).server)
    decreases waits
  {
    hide ProcessEvent, RecordFrom;
    if waits != [] {
      match waits[0] {
        case Failed =>
        case Quiet(_, _) => WaitMovesOn(s, waits[1..], env);
        case Happened(results) =>
          if |results| == |s.cores| {
            RecordFromMovesOn(s, results, 0);
            var recorded := RecordFrom(s, results, 0).server;
            NextStopEventInRange(recorded.cores);
            if NextStopEvent(recorded.cores).Some? {
              ProcessEventMovesOn(recorded, NextStopEvent(recorded.cores).value, env);
            }
          }
      }
    }
  }

  lemma DoCoreActionsMovesOn(s: Server, env: Env)
    requires |s.cores| < 0x1_0000_0000
    ensures MovesOn(s, DoCoreActions(s, env).server)
  {
    hide ProcessEvent, Wait;
    NextStopEventInRange(s.cores);
    if NextStopEvent(s.cores).Some? {
      ProcessEventMovesOn(s, NextStopEvent(s.cores).value, env);
    }
    WaitMovesOn(Emit(s, Resumed), env.waits, env);
  }

  lemma VContMovesOn(s: Server, payload: seq<byte>, env: Env)
    requires |s.cores| < 0x1_0000_0000
    ensures MovesOn(s, VContRequest(s, payload, env).server)
  {
    hide DoCoreActions, ApplyFrom, VCont.Parse;
    match VCont.Parse(payload) {
      case Parsed(actions) =>
        var (cores, vector) := ApplyFrom(s.cores, actions, 0);
        if vector.Some? {
          DoCoreActionsMovesOn(Emit(s.(cores := cores), Prepared(vector.value)), env);
        }
      case _ =>
    }
  }

  lemma ThreadPacketsMoveOn(s: Server, text: seq<byte>)
    requires |s.cores| < 0x1_0000_0000
    ensures MovesOn(s, ThreadInfo(s).server) && MovesOn(s, SelectThread(s, text).server)
  {
    hide ThreadInfo, SelectThread;
    ThreadInfoSends(s);
    SelectThreadSends(s, text);
  }

  lemma KillMovesOn(s: Server, text: seq<byte>, cfg: Config)
    requires |s.cores| < 0x1_0000_0000
    ensures MovesOn(s, KillRequest(s, text, cfg).server)
  {
    hide KillRequest, Hex.HexValue, AfterKill;
    if IsHexStr(text) && |text| <= 8 && 1 <= Hex.HexValue(text) <= |s.cores| {
      KillAnswered(s, text, cfg);
      AfterKillMovesOn(s, Hex.HexValue(text) - 1, cfg);
    } else {
      KillRefused(s, text, cfg);
    }
  }

  lemma AfterKillMovesOn(s: Server, i: nat, cfg: Config)
    requires i < |s.cores|
    ensures MovesOn(s, AfterKill(s, i, cfg))
  {
  }

  lemma HandleMovesOn(cfg: Config, s: Server, p: Packet, env: Env)
    requires |s.cores| < 0x1_0000_0000
    ensures MovesOn(s, Handle(cfg, s, p, env).server)
  {
    hide VContRequest, SyscallReply, KillRequest, ThreadInfo, SelectThread, DoCoreActions;
    match p {
      case VContPacket(payload) => VContMovesOn(s, payload, env);
      case LegacyPacket(data) => VContMovesOn(s, LegacyPayload(data, cfg), env);
      case FileIoPacket(reply) =>
        FileReplyAnswered(s, reply, env);
        DoCoreActionsMovesOn(Taken(s, reply), env);
      case KillPacket(text) => KillMovesOn(s, text, cfg);
      case FirstThreadInfo => ThreadPacketsMoveOn(s.(nextProcess := 1), []);
      case NextThreadInfo => ThreadPacketsMoveOn(s, []);
      case SelectPacket(text) => ThreadPacketsMoveOn(s, text);
      case _ =>
    }
  }

  /** On every run, whatever the client sends and the target answers. */
  lemma {:induction false} RunMovesOn(cfg: Config, s: Server, packets: seq<(Packet, Env)>)
    requires |s.cores| < 0x1_0000_0000
    ensures MovesOn(s, Run(cfg, s, packets).server)
    decreases packets
  {
    hide Handle;
    if packets != [] {
      HandleMovesOn(cfg, s, packets[0].0, packets[0].1);
      var r := Handle(cfg, s, packets[0].0, packets[0].1);
      if r.status == Done {
        RunMovesOn(cfg, r.server, packets[1..]);
      }
    }
  }
}
