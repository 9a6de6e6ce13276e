/** The syscall flag and the live-core counter, tied to what really happened, over every run. */
module Bookkeeping {
  import opened Bytes
  import opened Cores
  import opened Scheduler
  import opened Conservation
  import VCont
  import Hex
  import Ptids

  // ---- What really happened ----

  /** A file-I/O request has been sent and its F reply not handled. */
  function Outstanding(trace: seq<Event>): bool {
    trace != [] &&
    match trace[|trace| - 1]
    case Sent(FileIo(_)) => true
    case Answered => false
    case _ => Outstanding(trace[..|trace| - 1])
  }

  /** A system call has been reported as a trap and no F reply handled since. */
  function Stuck(trace: seq<Event>): bool {
    trace != [] &&
    match trace[|trace| - 1]
    case SyscallTrapped => true
    case Answered => false
    case _ => Stuck(trace[..|trace| - 1])
  }

  /** The kills and exits since the last reset, in order. */
  function Kills(trace: seq<Event>): seq<nat> {
    if trace == [] then []
    else
      match trace[|trace| - 1]
      case WasReset => []
      case Killed(core) => Kills(trace[..|trace| - 1]) + [core]
      case _ => Kills(trace[..|trace| - 1])
  }

  predicate Neutral(e: Event) {
    match e
    case Sent(FileIo(_)) => false
    case Answered => false
    case SyscallTrapped => false
    case WasReset => false
    case Killed(_) => false
    case _ => true
  }

  lemma BookNext(trace: seq<Event>, e: Event)
    ensures Neutral(e) ==> Outstanding(trace + [e]) == Outstanding(trace) && Stuck(trace + [e]) == Stuck(trace)
                           && Kills(trace + [e]) == Kills(trace)
    ensures e.Sent? && e.reply.FileIo? ==>
              Outstanding(trace + [e]) && Stuck(trace + [e]) == Stuck(trace) && Kills(trace + [e]) == Kills(trace)
    ensures e.Answered? ==>
              !Outstanding(trace + [e]) && !Stuck(trace + [e]) && Kills(trace + [e]) == Kills(trace)
    ensures e.SyscallTrapped? ==>
              Stuck(trace + [e]) && Outstanding(trace + [e]) == Outstanding(trace) && Kills(trace + [e]) == Kills(trace)
    ensures e.WasReset? ==>
              Kills(trace + [e]) == [] && Outstanding(trace + [e]) == Outstanding(trace) && Stuck(trace + [e]) == Stuck(trace)
    ensures e.Killed? ==>
              Kills(trace + [e]) == Kills(trace) + [e.core]
              && Outstanding(trace + [e]) == Outstanding(trace) && Stuck(trace + [e]) == Stuck(trace)
  {
    assert (trace + [e])[..|trace|] == trace;
  }

  // ---- The invariant ----

  ghost predicate LiveBooks(cores: seq<CoreState>, liveCores: u32, kills: seq<nat>) {
    && (forall i | 0 <= i < |cores| :: cores[i].isLive <==> i !in kills)
    && (forall k | k in kills :: k < |cores|)
    && liveCores == (|cores| - |kills|) % 0x1_0000_0000
  }

  ghost predicate Books(s: Server) {
    && |s.cores| < 0x1_0000_0000
    && s.handlingSyscall == (Outstanding(s.trace) || Stuck(s.trace))
    && LiveBooks(s.cores, s.liveCores, Kills(s.trace))
  }

  predicate SameLive(a: seq<CoreState>, b: seq<CoreState>) {
    |a| == |b| && forall i | 0 <= i < |a| :: a[i].isLive == b[i].isLive
  }

  /** The fields the books are about agree. */
  predicate SameBooks(s: Server, s': Server) {
    SameLive(s.cores, s'.cores) && s.liveCores == s'.liveCores && s.handlingSyscall == s'.handlingSyscall
  }

  lemma NeutralKeeps(s: Server, s': Server, e: Event)
    requires Books(s) && SameBooks(s, s') && s'.trace == s.trace + [e] && Neutral(e)
    ensures Books(s')
  {
    hide Outstanding, Stuck, Kills;
    BookNext(s.trace, e);
  }

  lemma KillBooks(s: Server, coreNum: u32)
    requires Books(s) && coreNum < |s.cores|
    ensures Books(Kill(s, coreNum))
  {
    hide Outstanding, Stuck, Kills;
    BookNext(s.trace, Killed(coreNum));
    var kills := Kills(s.trace);
    assert forall k :: k in kills + [coreNum] <==> k in kills || k == coreNum;
    assert Decrement(s.liveCores) == (|s.cores| - |kills| - 1) % 0x1_0000_0000;
  }

  lemma ResetBooks(s: Server)
    requires Books(s)
    ensures Books(Reset(s))
  {
    hide Outstanding, Stuck, Kills;
    BookNext(s.trace, WasReset);
  }

  lemma SyscallRequestBooks(s: Server, env: Env)
    requires Books(s) && s.currentCpu < |s.cores|
    ensures Books(SyscallRequest(s, env).server)
  {
    hide Outstanding, Stuck, Kills, LiveBooks;
    if !s.handlingSyscall {
      var supported := if s.haveArgLocs then s.haveSupport else env.supports;
      var asked := s.(handlingSyscall := true, haveArgLocs := true, haveSupport := supported);
      BookNext(s.trace, Sent(FileIo(env.syscallId)));
      BookNext(s.trace, SyscallTrapped);
      BookNext(s.trace + [SyscallTrapped], Sent(StopReply(TRAP, s.currentCpu)));
      var exited := Send(asked, Exited(s.currentCpu)).(handlingSyscall := false);
      BookNext(s.trace, Sent(Exited(s.currentCpu)));
      KillBooks(exited, s.currentCpu);
    }
  }

  lemma ProcessEventBooks(s: Server, i: nat, env: Env)
    requires Books(s) && i < |s.cores|
    ensures Books(ProcessEvent(s, i, env).server)
  {
    hide Books, SyscallRequest;
    var told := Report(s, i);
    NeutralKeeps(s, told, Reported(i, s.cores[i].stopReason));
    SyscallRequestBooks(told, env);
    NeutralKeeps(told, ReportException(told, TRAP), Sent(StopReply(TRAP, i)));
    NeutralKeeps(told, ReportException(told, USR1), Sent(StopReply(USR1, i)));
  }

  lemma {:induction false} RecordFromBooks(s: Server, results: seq<ResumeRes>, i: nat)
    requires Books(s) && |results| == |s.cores|
    ensures Books(RecordFrom(s, results, i).server)
    decreases |s.cores| - i
  {
    hide Books;
    if i < |s.cores| {
      var next := if s.cores[i].IsRunning() then Record(s, i, results[i]) else s;
      NeutralKeeps(s, Record(s, i, results[i]), Recorded(i, results[i]));
      RecordFromBooks(next, results, i + 1);
    }
  }

  lemma TakeResultsBooks(s: Server, results: seq<ResumeRes>, env: Env)
    requires Books(s)
    ensures Books(TakeResults(s, results, env).server)
  {
    hide Outstanding, Stuck, LiveBooks, ProcessEvent, RecordFrom;
    if |results| == |s.cores| {
      RecordFromBooks(s, results, 0);
      var r := RecordFrom(s, results, 0);
      NextStopEventInRange(r.server.cores);
      if NextStopEvent(r.server.cores).Some? {
        ProcessEventBooks(r.server, NextStopEvent(r.server.cores).value, env);
      }
    }
  }

  lemma {:induction false} WaitBooks(s: Server, waits: seq<WaitAnswer>, env: Env)
    requires Books(s)
    ensures Books(Wait(s, waits, env).server)
    decreases waits
  {
    hide Outstanding, Stuck, LiveBooks, TakeResults;
    if waits != [] {
      match waits[0] {
        case Failed =>
        case Happened(results) => TakeResultsBooks(s, results, env);
        case Quiet(brk, timedOut) =>
          NeutralKeeps(s, ReportException(s, INT), Sent(StopReply(INT, s.currentCpu)));
          NeutralKeeps(s, ReportException(s, XCPU), Sent(StopReply(XCPU, s.currentCpu)));
          WaitBooks(s, waits[1..], env);
      }
    }
  }

  lemma DoCoreActionsBooks(s: Server, env: Env)
    requires Books(s)
    ensures Books(DoCoreActions(s, env).server)
  {
    hide Outstanding, Stuck, LiveBooks, ProcessEvent, Wait;
    NeutralKeeps(s, ReportException(s, INT), Sent(StopReply(INT, s.currentCpu)));
    NextStopEventInRange(s.cores);
    if NextStopEvent(s.cores).Some? {
      ProcessEventBooks(s, NextStopEvent(s.cores).value, env);
    }
    NeutralKeeps(s, Emit(s, Resumed), Resumed);
    WaitBooks(Emit(s, Resumed), env.waits, env);
  }

  lemma {:induction false} ApplyFromSameLive(cores: seq<CoreState>, actions: seq<VCont.Action>, i: nat)
    ensures SameLive(cores, ApplyFrom(cores, actions, i).0)
    decreases |cores| - i
  {
    if i < |cores| && Meaning(VCont.CoreAction(actions, i + 1)).Some? {
      var resType := ResumeTypeFor(cores[i], Meaning(VCont.CoreAction(actions, i + 1)).value);
      ApplyFromSameLive(cores[i := cores[i].SetResumeType(resType)], actions, i + 1);
    }
  }

  lemma VContRequestBooks(s: Server, payload: seq<byte>, env: Env)
    requires Books(s)
    ensures Books(VContRequest(s, payload, env).server)
  {
    hide Outstanding, Stuck, LiveBooks, DoCoreActions, ApplyFrom, VCont.Parse;
    NeutralKeeps(s, Send(s, Error), Sent(Error));
    if VCont.Parse(payload).Parsed? {
      var actions := VCont.Parse(payload).actions;
      var (cores, vector) := ApplyFrom(s.cores, actions, 0);
      ApplyFromSameLive(s.cores, actions, 0);
      var applied := s.(cores := cores);
      NeutralKeeps(s, Send(applied, Error), Sent(Error));
      if vector.Some? {
        NeutralKeeps(s, Emit(applied, Prepared(vector.value)), Prepared(vector.value));
        DoCoreActionsBooks(Emit(applied, Prepared(vector.value)), env);
      }
    }
  }

  lemma SyscallReplyBooks(s: Server, reply: FileIoReply, env: Env)
    requires Books(s)
    ensures Books(SyscallReply(s, reply, env).server)
  {
    hide Outstanding, Stuck, LiveBooks, DoCoreActions;
    BookNext(s.trace, Answered);
    var taken := Emit(s.(handlingSyscall := false), Answered);
    assert Books(taken);
    var wrote := Emit(taken, ResultWritten(taken.currentCpu, reply.retcode));
    NeutralKeeps(taken, wrote, ResultWritten(taken.currentCpu, reply.retcode));
    var written := if reply.valid && reply.retcode != -1 then wrote else taken;
    NeutralKeeps(written, ReportException(written, INT), Sent(StopReply(INT, written.currentCpu)));
    DoCoreActionsBooks(written, env);
  }

  lemma KillRequestBooks(s: Server, text: seq<byte>, cfg: Config)
    requires Books(s)
    ensures Books(KillRequest(s, text, cfg).server)
  {
    hide Books, CoreNamed;
    NeutralKeeps(s, Send(s, Error), Sent(Error));
    if IsHexStr(text) && |text| <= 8 {
      var coreNum := CoreNamed(text);
      if coreNum < |s.cores| {
        KillBooks(s, coreNum);
        var killed := Send(Kill(s, coreNum), Ok);
        NeutralKeeps(Kill(s, coreNum), killed, Sent(Ok));
        NeutralKeeps(killed, Emit(killed, Closed).(exitServer := s.exitServer || cfg.exitOnKill), Closed);
      }
    }
  }

  /** Only what thread packets are about differs, and one packet went out that is no file-I/O
      request. */
  predicate OnlyThreads(s: Server, s': Server) {
    s' == s.(ptid := s'.ptid, currentCpu := s'.currentCpu, nextProcess := s'.nextProcess, trace := s'.trace)
  }

  predicate SentOne(s: Server, s': Server) {
    |s'.trace| == |s.trace| + 1 && s'.trace == s.trace + [s'.trace[|s.trace|]]
    && s'.trace[|s.trace|].Sent? && !s'.trace[|s.trace|].reply.FileIo?
  }

  lemma SendIsOne(s: Server, moved: Server, reply: Reply)
    requires OnlyThreads(s, moved) && moved.trace == s.trace && !reply.FileIo?
    ensures OnlyThreads(s, Send(moved, reply)) && SentOne(s, Send(moved, reply))
  {
  }

  lemma ThreadInfoSends(s: Server)
    requires |s.cores| < 0x1_0000_0000
    ensures ThreadInfo(s).status == Done
    ensures OnlyThreads(s, ThreadInfo(s).server) && SentOne(s, ThreadInfo(s).server)
  {
    var coreNum := NextListed(s, s.nextProcess);
    var moved := s.(nextProcess := Increment(Increment(coreNum)));
    assert OnlyThreads(s, moved);
    hide NextListed, Ptids.Encode, Ptids.ToInt32, Increment, OnlyThreads, SentOne;
    SendIsOne(s, moved, ThreadsEnd);
    SendIsOne(s, moved, Error);
    if coreNum < |s.cores| {
      SendIsOne(s, moved, Thread(Ptids.Encode(Ptids.Value(Ptids.ToInt32(coreNum + 1), 1))));
    }
  }

  lemma SelectThreadSends(s: Server, text: seq<byte>)
    ensures var r := SelectThread(s, text);
            && (r.server == s || (OnlyThreads(s, r.server) && SentOne(s, r.server)))
            && (r.status == Done || r.status == AssertFailed(TooManyDigits))
  {
    match Ptids.Decode(s.ptid, text) {
      case AssertFailure =>
      case Rejected => SendIsOne(s, s, Error);
      case Decoded(ptid) =>
        hide OnlyThreads, SentOne, Ptids.Decode;
        SelectDecodedSends(s, ptid);
    }
  }

  lemma SelectDecodedSends(s: Server, ptid: Ptids.Value)
    ensures SendsOne(s, s.(ptid := ptid), Error)
    ensures Ptids.CanCrystalize(ptid) ==>
              var chosen := Ptids.Crystalize(ptid, 1, 1);
              chosen.pid >= 1 && SendsOne(s, s.(ptid := chosen, currentCpu := chosen.pid - 1), Ok)
  {
    SendIsOne(s, s.(ptid := ptid), Error);
    if Ptids.CanCrystalize(ptid) {
      var chosen := Ptids.Crystalize(ptid, 1, 1);
      SendIsOne(s, s.(ptid := chosen, currentCpu := chosen.pid - 1), Ok);
    }
  }

  predicate SendsOne(s: Server, moved: Server, reply: Reply) {
    OnlyThreads(s, Send(moved, reply)) && SentOne(s, Send(moved, reply))
  }

  lemma ThreadPacketBooks(s: Server, s': Server)
    requires Books(s) && OnlyThreads(s, s') && SentOne(s, s')
    ensures Books(s')
  {
    hide Outstanding, Stuck, LiveBooks, Kills;
    NeutralKeeps(s, s', s'.trace[|s.trace|]);
  }

  lemma BooksSize(s: Server)
    requires Books(s)
    ensures |s.cores| < 0x1_0000_0000
  {
  }

  lemma FirstThreadBooks(s: Server)
    requires Books(s)
    ensures Books(s.(nextProcess := 1))
  {
    hide Outstanding, Stuck, Kills, LiveBooks;
  }

  lemma HandleBooks(cfg: Config, s: Server, p: Packet, env: Env)
    requires Books(s)
    ensures Books(Handle(cfg, s, p, env).server)
  {
    BooksSize(s);
    hide Books, VContRequest, SyscallReply, KillRequest, ThreadInfo, SelectThread, Reset, LegacyPayload, OnlyThreads,
         SentOne;
    match p {
      case VContPacket(payload) => VContRequestBooks(s, payload, env);
      case LegacyPacket(data) => VContRequestBooks(s, LegacyPayload(data, cfg), env);
      case FileIoPacket(reply) => SyscallReplyBooks(s, reply, env);
      case KillPacket(text) => KillRequestBooks(s, text, cfg);
      case MonitorReset(ok) => ResetBooks(s); NeutralKeeps(Reset(s), Send(Reset(s), Ok), Sent(Ok));
      case Reconnect => ResetBooks(s);
      case FirstThreadInfo =>
        var start := s.(nextProcess := 1);
        FirstThreadBooks(s);
        ThreadInfoSends(start);
        ThreadPacketBooks(start, ThreadInfo(start).server);
      case NextThreadInfo =>
        ThreadInfoSends(s);
        ThreadPacketBooks(s, ThreadInfo(s).server);
      case SelectPacket(text) =>
        SelectThreadSends(s, text);
        if SelectThread(s, text).server != s {
          ThreadPacketBooks(s, SelectThread(s, text).server);
        }
      case KillCoreOnExit(on) => NeutralKeeps(s, Send(s.(killCoreOnExit := on), Ok), Sent(Ok));
    }
  }

  lemma {:induction false} RunBooks(cfg: Config, s: Server, packets: seq<(Packet, Env)>)
    requires Books(s)
    ensures Books(Run(cfg, s, packets).server)
    decreases packets
  {
    hide Outstanding, Stuck, LiveBooks, Handle;
    if packets != [] {
      HandleBooks(cfg, s, packets[0].0, packets[0].1);
      RunBooks(cfg, Handle(cfg, s, packets[0].0, packets[0].1).server, packets[1..]);
    }
  }

  // ---- Live cores ----

  function LiveCount(cores: seq<CoreState>): nat {
    |LiveSet(cores)|
  }

  function LiveSet(cores: seq<CoreState>): set<nat> {
    set i: nat | i < |cores| && cores[i].isLive
  }

  function ToSet(kills: seq<nat>): set<nat> { set k | k in kills }

  /** Kills of a core that was dead already. */
  function Repeats(kills: seq<nat>): nat {
    if kills == [] then 0
    else Repeats(kills[1..]) + if kills[0] in kills[1..] then 1 else 0
  }

  lemma {:induction false} SetPlusRepeats(kills: seq<nat>)
    ensures |ToSet(kills)| + Repeats(kills) == |kills|
  {
    if kills != [] {
      var rest := kills[1..];
      SetPlusRepeats(rest);
      ToSetNext(kills);
    }
  }

  lemma ToSetNext(kills: seq<nat>)
    requires kills != []
    ensures ToSet(kills) == ToSet(kills[1..]) + {kills[0]}
    ensures kills[0] in kills[1..] <==> kills[0] in ToSet(kills[1..])
    ensures |ToSet(kills)| == |ToSet(kills[1..])| + if kills[0] in kills[1..] then 0 else 1
  {
    var rest := kills[1..];
    assert forall k :: k in kills <==> k in rest || k == kills[0];
    assert ToSet(kills) == ToSet(rest) + {kills[0]};
    if kills[0] in rest {
      assert ToSet(kills) == ToSet(rest);
    }
  }

  lemma {:induction false} NoRepeatsIff(kills: seq<nat>)
    ensures Repeats(kills) == 0 <==> forall i, j | 0 <= i < j < |kills| :: kills[i] != kills[j]
  {
    if kills != [] {
      var rest := kills[1..];
      NoRepeatsIff(rest);
      if Repeats(kills) == 0 {
        forall i, j | 0 <= i < j < |kills| ensures kills[i] != kills[j] {
          assert kills[j] == rest[j - 1];
          assert i > 0 ==> kills[i] == rest[i - 1];
        }
      } else if kills[0] in rest {
        var j :| 0 <= j < |rest| && rest[j] == kills[0];
        assert kills[0] == kills[j + 1];
      } else {
        var i, j :| 0 <= i < j < |rest| && rest[i] == rest[j];
        assert kills[i + 1] == kills[j + 1];
      }
    }
  }

  function Below(n: nat): (r: set<nat>)
    ensures |r| == n && forall i: nat :: i in r <==> i < n
  {
    if n == 0 then {} else Below(n - 1) + {n - 1}
  }

  lemma LiveCountIsRest(cores: seq<CoreState>, liveCores: u32, kills: seq<nat>)
    requires LiveBooks(cores, liveCores, kills)
    ensures LiveCount(cores) == |cores| - |ToSet(kills)|
  {
    assert LiveSet(cores) == Below(|cores|) - ToSet(kills);
    assert ToSet(kills) <= Below(|cores|);
  }

  /** At every point of every run, the counter is the number of cores less the kills and exits
      since the last reset, modulo 2^32; a core is live exactly when no kill names it; and the
      counter is the number of live cores exactly when the repeated kills are a multiple of 2^32 --
      so whenever no core is killed twice. */
  lemma LiveCoreAccounting(cfg: Config, n: u32, packets: seq<(Packet, Env)>)
    ensures var s := Run(cfg, Initial(n), packets).server;
            var kills := Kills(s.trace);
            && |s.cores| == n
            && s.liveCores == (n - |kills|) % 0x1_0000_0000
            && (forall i | 0 <= i < n :: s.cores[i].isLive <==> i !in kills)
            && (s.liveCores == LiveCount(s.cores) <==> Repeats(kills) % 0x1_0000_0000 == 0)
            && ((forall i, j | 0 <= i < j < |kills| :: kills[i] != kills[j]) ==> s.liveCores == LiveCount(s.cores))
  {
    hide Run, Kills, Repeats;
    InitialBooks(n);
    RunBooks(cfg, Initial(n), packets);
    var s := Run(cfg, Initial(n), packets).server;
    LiveCountIsRest(s.cores, s.liveCores, Kills(s.trace));
    SetPlusRepeats(Kills(s.trace));
    NoRepeatsIff(Kills(s.trace));
  }

  lemma InitialBooks(n: u32)
    ensures Books(Initial(n))
  {
    assert Kills([]) == [];
  }

  /** The connection is closed by the kill that ends the request. */
  predicate Closes(r: Result) {
    r.server.trace != [] && r.server.trace[|r.server.trace| - 1] == Closed
  }

  /** What rspVKill should go by: this kill takes the last live core. */
  predicate TakesLast(cores: seq<CoreState>, coreNum: nat) { LiveSet(cores) == {coreNum} }

  /** When rspVKill closes the connection: at the kill that makes their number since the reset, the
      exits included, equal to the number of cores (modulo 2^32), whichever cores they named.  That
      is at the death of the last live core exactly when no kill was wasted on a dead core: for a
      kill that takes the last core, the wasted ones must be a multiple of 2^32; for any other, the
      counter must not reach zero.  As long as there have been fewer kills than cores, the choice is
      right exactly if this one does not make up the number, or names a live core after no repeats. */
  lemma ClosesWithLastCoreIff(s: Server, text: seq<byte>, cfg: Config)
    requires Books(s) && IsHexStr(text) && |text| <= 8
    ensures var r, coreNum := KillRequest(s, text, cfg), CoreNamed(text);
            var kills, live := Kills(s.trace), LiveCount(s.cores);
            && (coreNum >= |s.cores| ==> r.server == Send(s, Error))
            && (coreNum < |s.cores| ==>
                  var right := Closes(r) <==> TakesLast(s.cores, coreNum);
                  && !r.server.cores[coreNum].isLive
                  && (r.server.exitServer <==> s.exitServer || (Closes(r) && cfg.exitOnKill))
                  && (Closes(r) <==> (|kills| + 1 - |s.cores|) % 0x1_0000_0000 == 0)
                  && (right <==>
                        if s.cores[coreNum].isLive && live == 1 then Repeats(kills) % 0x1_0000_0000 == 0
                        else (live - Repeats(kills) - 1) % 0x1_0000_0000 != 0)
                  && (|kills| < |s.cores| ==>
                        (right <==> |kills| + 1 < |s.cores| || (s.cores[coreNum].isLive && Repeats(kills) == 0))))
  {
    hide Kills, Repeats, CoreNamed, Outstanding, Stuck, LiveSet;
    var coreNum, kills := CoreNamed(text), Kills(s.trace);
    if coreNum < |s.cores| {
      KillCloses(s, text, cfg);
      LiveCountIsRest(s.cores, s.liveCores, kills);
      SetPlusRepeats(kills);
      LastOne(s.cores, coreNum);
      ModNegated(|s.cores| - |kills| - 1);
    }
  }

  lemma ModNegated(n: int)
    ensures n % 0x1_0000_0000 == 0 <==> (-n) % 0x1_0000_0000 == 0
  {
  }

  lemma KillCloses(s: Server, text: seq<byte>, cfg: Config)
    requires Books(s) && IsHexStr(text) && |text| <= 8 && CoreNamed(text) < |s.cores|
    ensures var r := KillRequest(s, text, cfg);
            && !r.server.cores[CoreNamed(text)].isLive
            && (r.server.exitServer <==> s.exitServer || (Closes(r) && cfg.exitOnKill))
            && (Closes(r) <==> (|s.cores| - |Kills(s.trace)| - 1) % 0x1_0000_0000 == 0)
  {
    hide Kills, CoreNamed, Outstanding, Stuck;
    assert Decrement(s.liveCores) == (|s.cores| - |Kills(s.trace)| - 1) % 0x1_0000_0000;
  }

  lemma LastOne(cores: seq<CoreState>, i: nat)
    requires i < |cores|
    ensures TakesLast(cores, i) <==> cores[i].isLive && LiveCount(cores) == 1
  {
    var live := LiveSet(cores);
    assert i in live <==> cores[i].isLive;
    if i in live {
      assert |live - {i}| == |live| - 1;
      assert live - {i} == {} <==> live == {i};
    }
  }

  /** Killing a dead core again makes the counter wrong: with two cores, two kills of the first
      close the connection while the second is alive. */
  lemma DoubleKillClosesEarly(cfg: Config, env: Env)
    ensures var kill := (KillPacket([ONE]), env);
            var s := Run(cfg, Initial(2), [kill, kill]).server;
            |s.cores| == 2 && s.cores[1].isLive && s.trace != [] && s.trace[|s.trace| - 1] == Closed
  {
    var kill := (KillPacket([ONE]), env);
    CoreNamedOne();
    hide CoreNamed;
    var s0 := Initial(2);
    var s1 := Handle(cfg, s0, kill.0, env).server;
    assert s1 == Send(Kill(s0, 0), Ok) && s1.liveCores == 1;
    var s2 := Handle(cfg, s1, kill.0, env).server;
    assert s2.trace == s1.trace + [Killed(0)] + [Sent(Ok)] + [Closed] && s2.cores[1].isLive;
    hide Handle;
    assert [kill, kill][1..] == [kill] && [kill][1..] == [];
    assert Run(cfg, s1, [kill]) == Result(s2, Done);
  }

  lemma CoreNamedOne()
    ensures IsHexStr([ONE]) && CoreNamed([ONE]) == 0
  {
    assert [ONE][..0] == [];
    assert Hex.HexValue([ONE]) == 1;
  }

  // ---- System calls ----

  /** At every point of every run the flag says: a file-I/O request is unanswered, or a system
      call was reported as a trap and no F reply has come since. */
  lemma HandlingMeansOutstandingOrStuck(cfg: Config, n: u32, packets: seq<(Packet, Env)>)
    ensures var s := Run(cfg, Initial(n), packets).server;
            s.handlingSyscall <==> Outstanding(s.trace) || Stuck(s.trace)
  {
    hide Run;
    InitialBooks(n);
    RunBooks(cfg, Initial(n), packets);
  }

  /** The target supports system calls and uses one the server knows. */
  predicate EnvHandles(env: Env) {
    env.supports && (env.syscallId in FILE_IO_CALLS || env.syscallId == EXIT_CALL)
  }

  predicate Supported(s: Server) { s.haveArgLocs ==> s.haveSupport }

  /** When a request leaves the flag telling the truth: exactly when the target supports system
      calls and the number is in the handled table.  Otherwise the flag stays up with nothing
      outstanding, and the next system call fails the assertion. */
  lemma TrapLeavesFlagUpIff(s: Server, env: Env)
    requires Books(s) && s.currentCpu < |s.cores| && !s.handlingSyscall
    ensures var s' := SyscallRequest(s, env).server;
            var supported := if s.haveArgLocs then s.haveSupport else env.supports;
            var handled := supported && (env.syscallId in FILE_IO_CALLS || env.syscallId == EXIT_CALL);
            && (s'.handlingSyscall == Outstanding(s'.trace) <==> handled)
            && (!handled ==> s'.handlingSyscall && !Outstanding(s'.trace))
            && (!handled ==> forall i, env' | 0 <= i < |s'.cores| && s'.cores[i].stopReason == Syscall ::
                               ProcessEvent(s', i, env').status == AssertFailed(NestedSyscall))
            && (handled && env.syscallId == EXIT_CALL ==> !s'.handlingSyscall)
  {
    hide Outstanding, Stuck, Kills, LiveBooks;
    BookNext(s.trace, Sent(FileIo(env.syscallId)));
    BookNext(s.trace, SyscallTrapped);
    BookNext(s.trace + [SyscallTrapped], Sent(StopReply(TRAP, s.currentCpu)));
    BookNext(s.trace, Sent(Exited(s.currentCpu)));
    BookNext(s.trace + [Sent(Exited(s.currentCpu))], Killed(s.currentCpu));
  }

  /** The flag is down, or an F reply is due; nothing is stuck. */
  ghost predicate Disciplined(s: Server) {
    Books(s) && !Stuck(s.trace) && Supported(s)
  }

  lemma NeutralDisciplined(s: Server, s': Server, e: Event)
    requires Disciplined(s) && SameBooks(s, s') && s'.trace == s.trace + [e] && Neutral(e)
    requires s'.haveArgLocs == s.haveArgLocs && s'.haveSupport == s.haveSupport
    ensures Disciplined(s')
  {
    hide Outstanding, Stuck, Kills, LiveBooks;
    NeutralKeeps(s, s', e);
    BookNext(s.trace, e);
  }

  lemma SyscallDisciplined(s: Server, env: Env)
    requires Disciplined(s) && !s.handlingSyscall && s.currentCpu < |s.cores| && EnvHandles(env)
    ensures Disciplined(SyscallRequest(s, env).server) && SyscallRequest(s, env).status == Done
  {
    hide Outstanding, Stuck, Kills, LiveBooks;
    SyscallRequestBooks(s, env);
    BookNext(s.trace, Sent(FileIo(env.syscallId)));
    BookNext(s.trace, Sent(Exited(s.currentCpu)));
    BookNext(s.trace + [Sent(Exited(s.currentCpu))], Killed(s.currentCpu));
  }

  lemma ReportDisciplined(s: Server, i: nat)
    requires Disciplined(s) && i < |s.cores|
    ensures Disciplined(Report(s, i)) && Report(s, i).handlingSyscall == s.handlingSyscall
    ensures Report(s, i).currentCpu == i < |Report(s, i).cores| == |s.cores| < 0x1_0000_0000
  {
    hide Outstanding, Stuck, Kills, LiveBooks;
    NeutralDisciplined(s, Report(s, i), Reported(i, s.cores[i].stopReason));
  }

  lemma TellDisciplined(s: Server, sig: Signal)
    requires Disciplined(s)
    ensures Disciplined(ReportException(s, sig))
  {
    hide Disciplined;
    NeutralDisciplined(s, ReportException(s, sig), Sent(StopReply(sig, s.currentCpu)));
  }

  lemma ProcessEventDisciplined(s: Server, i: nat, env: Env)
    requires Disciplined(s) && !s.handlingSyscall && i < |s.cores| && EnvHandles(env)
    ensures Disciplined(ProcessEvent(s, i, env).server) && !ProcessEvent(s, i, env).status.AssertFailed?
  {
    ReportDisciplined(s, i);
    hide Disciplined, Report, SyscallRequest, ReportException, EnvHandles;
    var told := Report(s, i);
    SyscallDisciplined(told, env);
    TellDisciplined(told, TRAP);
    TellDisciplined(told, USR1);
  }

  lemma {:induction false} RecordFromDisciplined(s: Server, results: seq<ResumeRes>, i: nat)
    requires Disciplined(s) && |results| == |s.cores|
    ensures var r := RecordFrom(s, results, i);
            Disciplined(r.server) && r.server.handlingSyscall == s.handlingSyscall && !r.status.AssertFailed?
    decreases |s.cores| - i
  {
    hide Disciplined;
    if i < |s.cores| {
      var next := if s.cores[i].IsRunning() then Record(s, i, results[i]) else s;
      NeutralDisciplined(s, Record(s, i, results[i]), Recorded(i, results[i]));
      RecordFromDisciplined(next, results, i + 1);
    }
  }

  lemma {:induction false} WaitDisciplined(s: Server, waits: seq<WaitAnswer>, env: Env)
    requires Disciplined(s) && !s.handlingSyscall && EnvHandles(env)
    ensures Disciplined(Wait(s, waits, env).server) && !Wait(s, waits, env).status.AssertFailed?
    decreases waits
  {
    hide Outstanding, Stuck, LiveBooks, ProcessEvent;
    if waits != [] {
      match waits[0] {
        case Failed =>
        case Happened(results) =>
          if |results| == |s.cores| {
            RecordFromDisciplined(s, results, 0);
            var r := RecordFrom(s, results, 0);
            NextStopEventInRange(r.server.cores);
            if NextStopEvent(r.server.cores).Some? {
              ProcessEventDisciplined(r.server, NextStopEvent(r.server.cores).value, env);
            }
          }
        case Quiet(brk, timedOut) =>
          TellDisciplined(s, INT);
          TellDisciplined(s, XCPU);
          WaitDisciplined(s, waits[1..], env);
      }
    }
  }

  lemma DoCoreActionsDisciplined(s: Server, env: Env)
    requires Disciplined(s) && !s.handlingSyscall && EnvHandles(env)
    ensures Disciplined(DoCoreActions(s, env).server) && !DoCoreActions(s, env).status.AssertFailed?
  {
    hide Outstanding, Stuck, LiveBooks, ProcessEvent, Wait;
    TellDisciplined(s, INT);
    NextStopEventInRange(s.cores);
    if NextStopEvent(s.cores).Some? {
      ProcessEventDisciplined(s, NextStopEvent(s.cores).value, env);
    }
    NeutralDisciplined(s, Emit(s, Resumed), Resumed);
    WaitDisciplined(Emit(s, Resumed), env.waits, env);
  }

  /** The client answers each file-I/O request before it resumes again, answers nothing else, and
      the program stays within the handled system calls. */
  predicate PacketDisciplined(s: Server, p: Packet, env: Env) {
    && (p.VContPacket? || p.LegacyPacket? ==> !Outstanding(s.trace))
    && (p.FileIoPacket? ==> Outstanding(s.trace))
    && (Resuming(p) ==> EnvHandles(env))
  }

  /** Neither of the two system-call assertions. */
  predicate SyscallAssertion(status: Status) {
    status == AssertFailed(NestedSyscall) || status == AssertFailed(UnexpectedReply)
  }

  /** What a vCont packet does to the cores before it runs them. */
  lemma AppliedDisciplined(s: Server, cores: seq<CoreState>, e: Event)
    requires Disciplined(s) && SameLive(s.cores, cores) && Neutral(e)
    ensures Disciplined(Emit(s.(cores := cores), e)) && |cores| == |s.cores|
  {
    hide Disciplined, SameLive;
    var after := Emit(s.(cores := cores), e);
    assert SameBooks(s, after);
    NeutralDisciplined(s, after, e);
    assert |cores| == |s.cores| by { SameLiveLength(s.cores, cores); }
  }

  lemma SameLiveLength(a: seq<CoreState>, b: seq<CoreState>)
    requires SameLive(a, b)
    ensures |a| == |b|
  {
  }

  lemma SameLiveSelf(a: seq<CoreState>)
    ensures SameLive(a, a)
  {
  }

  lemma DisciplinedSize(s: Server)
    requires Disciplined(s)
    ensures |s.cores| < 0x1_0000_0000
  {
  }

  lemma VContDisciplined(s: Server, payload: seq<byte>, env: Env)
    requires Disciplined(s) && |s.cores| < 0x1_0000_0000 && !s.handlingSyscall && EnvHandles(env)
    ensures Disciplined(VContRequest(s, payload, env).server) && !SyscallAssertion(VContRequest(s, payload, env).status)
  {
    hide Disciplined, SameLive, DoCoreActions, ApplyFrom, VCont.Parse, EnvHandles;
    match VCont.Parse(payload) {
      case ParseAborted =>
      case Malformed =>
        SameLiveSelf(s.cores);
        AppliedDisciplined(s, s.cores, Sent(Error));
        assert s.(cores := s.cores) == s;
      case Parsed(actions) =>
        var (cores, vector) := ApplyFrom(s.cores, actions, 0);
        ApplyFromSameLive(s.cores, actions, 0);
        if vector.None? {
          AppliedDisciplined(s, cores, Sent(Error));
        } else {
          AppliedDisciplined(s, cores, Prepared(vector.value));
          DoCoreActionsDisciplined(Emit(s.(cores := cores), Prepared(vector.value)), env);
        }
    }
  }

  lemma FileIoDisciplined(s: Server, reply: FileIoReply, env: Env)
    requires Disciplined(s) && s.handlingSyscall && EnvHandles(env)
    ensures Disciplined(SyscallReply(s, reply, env).server) && !SyscallAssertion(SyscallReply(s, reply, env).status)
  {
    hide Outstanding, Stuck, LiveBooks, DoCoreActions;
    BookNext(s.trace, Answered);
    var taken := Emit(s.(handlingSyscall := false), Answered);
    var wrote := Emit(taken, ResultWritten(taken.currentCpu, reply.retcode));
    NeutralDisciplined(taken, wrote, ResultWritten(taken.currentCpu, reply.retcode));
    var written := if reply.valid && reply.retcode != -1 then wrote else taken;
    NeutralDisciplined(written, ReportException(written, INT), Sent(StopReply(INT, written.currentCpu)));
    DoCoreActionsDisciplined(written, env);
  }

  /** Packets that do not resume touch neither the flag nor its history. */
  lemma OthersDisciplined(cfg: Config, s: Server, p: Packet, env: Env)
    requires Disciplined(s) && !Resuming(p)
    ensures Disciplined(Handle(cfg, s, p, env).server) && !SyscallAssertion(Handle(cfg, s, p, env).status)
  {
    HandleBooks(cfg, s, p, env);
    OthersLeaveFlag(cfg, s, p, env);
    hide Outstanding, Stuck, LiveBooks, Handle, Kills;
  }

  lemma OthersLeaveFlag(cfg: Config, s: Server, p: Packet, env: Env)
    requires |s.cores| < 0x1_0000_0000 && !Resuming(p)
    ensures LeavesFlag(s, Handle(cfg, s, p, env).server) && !SyscallAssertion(Handle(cfg, s, p, env).status)
  {
    hide LeavesFlag, KillRequest, ThreadInfo, SelectThread, Reset, OnlyThreads, SentOne;
    match p {
      case KillPacket(text) => KillLeavesFlag(s, text, cfg);
      case FirstThreadInfo =>
        var start := s.(nextProcess := 1);
        ThreadInfoSends(start);
        ThreadPacketLeavesFlag(start, ThreadInfo(start).server);
        LeavesFlagFrom(s, start, ThreadInfo(start).server);
      case NextThreadInfo =>
        ThreadInfoSends(s);
        ThreadPacketLeavesFlag(s, ThreadInfo(s).server);
      case SelectPacket(text) =>
        SelectThreadSends(s, text);
        if SelectThread(s, text).server != s {
          ThreadPacketLeavesFlag(s, SelectThread(s, text).server);
        } else {
          LeavesFlagRefl(s);
        }
      case MonitorReset(_) => ResetLeavesFlag(s);
      case Reconnect => ResetLeavesFlag(s);
      case KillCoreOnExit(on) => EmitLeavesFlag(s, Send(s.(killCoreOnExit := on), Ok), Sent(Ok));
    }
  }

  /** The history of the flag and what is known of the target's support are as before. */
  ghost predicate LeavesFlag(s: Server, s': Server) {
    Stuck(s'.trace) == Stuck(s.trace) && s'.haveArgLocs == s.haveArgLocs && s'.haveSupport == s.haveSupport
  }

  lemma EmitLeavesFlag(s: Server, s': Server, e: Event)
    requires s'.trace == s.trace + [e] && s'.haveArgLocs == s.haveArgLocs && s'.haveSupport == s.haveSupport
    requires !e.SyscallTrapped? && !e.Answered?
    ensures LeavesFlag(s, s')
  {
    hide Stuck, Outstanding, Kills;
    BookNext(s.trace, e);
  }

  lemma LeavesFlagFrom(s: Server, s': Server, s'': Server)
    requires LeavesFlag(s', s'')
    requires LeavesFlag(s, s') || (s'.trace == s.trace && s'.haveArgLocs == s.haveArgLocs && s'.haveSupport == s.haveSupport)
    ensures LeavesFlag(s, s'')
  {
  }

  lemma ResetLeavesFlag(s: Server)
    requires |s.cores| < 0x1_0000_0000
    ensures LeavesFlag(s, Reset(s)) && LeavesFlag(s, Send(Reset(s), Ok))
  {
    hide LeavesFlag;
    EmitLeavesFlag(s, Reset(s), WasReset);
    EmitLeavesFlag(Reset(s), Send(Reset(s), Ok), Sent(Ok));
    LeavesFlagFrom(s, Reset(s), Send(Reset(s), Ok));
  }

  lemma KillLeavesFlag(s: Server, text: seq<byte>, cfg: Config)
    ensures LeavesFlag(s, KillRequest(s, text, cfg).server) && !SyscallAssertion(KillRequest(s, text, cfg).status)
  {
    hide LeavesFlag, CoreNamed;
    EmitLeavesFlag(s, Send(s, Error), Sent(Error));
    if IsHexStr(text) && |text| <= 8 {
      var coreNum := CoreNamed(text);
      if coreNum < |s.cores| {
        var killed := Kill(s, coreNum);
        EmitLeavesFlag(s, killed, Killed(coreNum));
        EmitLeavesFlag(killed, Send(killed, Ok), Sent(Ok));
        LeavesFlagFrom(s, killed, Send(killed, Ok));
        var closed := Emit(Send(killed, Ok), Closed).(exitServer := s.exitServer || cfg.exitOnKill);
        EmitLeavesFlag(Send(killed, Ok), closed, Closed);
        LeavesFlagFrom(s, Send(killed, Ok), closed);
        hide Kill;
      }
    } else {
      LeavesFlagRefl(s);
    }
  }

  lemma LeavesFlagRefl(s: Server)
    ensures LeavesFlag(s, s)
  {
  }

  lemma ThreadPacketLeavesFlag(s: Server, s': Server)
    requires OnlyThreads(s, s') && SentOne(s, s')
    ensures LeavesFlag(s, s')
  {
    EmitLeavesFlag(s, s', s'.trace[|s.trace|]);
  }

  lemma HandleDisciplined(cfg: Config, s: Server, p: Packet, env: Env)
    requires Disciplined(s) && PacketDisciplined(s, p, env)
    ensures Disciplined(Handle(cfg, s, p, env).server) && !SyscallAssertion(Handle(cfg, s, p, env).status)
  {
    hide Outstanding, Stuck, LiveBooks, VContRequest, SyscallReply;
    DisciplinedSize(s);
    match p {
      case VContPacket(payload) => VContDisciplined(s, payload, env);
      case LegacyPacket(data) => VContDisciplined(s, LegacyPayload(data, cfg), env);
      case FileIoPacket(reply) => FileIoDisciplined(s, reply, env);
      case _ => OthersDisciplined(cfg, s, p, env);
    }
  }

  ghost predicate RunDisciplined(cfg: Config, s: Server, packets: seq<(Packet, Env)>)
    requires |s.cores| < 0x1_0000_0000
    decreases packets
  {
    packets != [] ==>
      && PacketDisciplined(s, packets[0].0, packets[0].1)
      && var r := Handle(cfg, s, packets[0].0, packets[0].1);
         r.status == Done ==> RunDisciplined(cfg, r.server, packets[1..])
  }

  lemma {:induction false} RunKeepsDiscipline(cfg: Config, s: Server, packets: seq<(Packet, Env)>)
    requires Disciplined(s) && RunDisciplined(cfg, s, packets)
    ensures Disciplined(Run(cfg, s, packets).server) && !SyscallAssertion(Run(cfg, s, packets).status)
    decreases packets
  {
    hide Outstanding, Stuck, LiveBooks, Handle, PacketDisciplined;
    if packets != [] {
      HandleDisciplined(cfg, s, packets[0].0, packets[0].1);
      var r := Handle(cfg, s, packets[0].0, packets[0].1);
      if r.status == Done {
        RunKeepsDiscipline(cfg, r.server, packets[1..]);
      }
    }
  }

  /** At most one file-I/O request is outstanding: on disciplined runs neither system-call
      assertion can fail, and the flag is up exactly when a request is unanswered. */
  lemma OneRequestAtATime(cfg: Config, n: u32, packets: seq<(Packet, Env)>)
    requires RunDisciplined(cfg, Initial(n), packets)
    ensures var r := Run(cfg, Initial(n), packets);
            && r.status != AssertFailed(NestedSyscall) && r.status != AssertFailed(UnexpectedReply)
            && (r.server.handlingSyscall <==> Outstanding(r.server.trace))
  {
    hide Run;
    InitialBooks(n);
    RunKeepsDiscipline(cfg, Initial(n), packets);
  }
}
