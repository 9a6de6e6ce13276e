/** GdbServer: the object whose methods carry out run control (GdbServer.cpp).  Each method leaves
    the state that the functions of Scheduler say. */
module GdbServers {
  import opened Bytes
  import opened Cores
  import opened Scheduler
  import Hex
  import Ptids
  import VCont

  class GdbServer {
    const cfg: Config
    const mCoreManager: CoreManager
    const mPtid: Ptids.Ptid
    var mHandlingSyscall: bool
    var mHaveSyscallArgLocs: bool
    var mHaveSyscallSupport: bool
    var mNextProcess: u32
    var mKillCoreOnExit: bool
    var mExitServer: bool
    var currentCpu: nat      // the target's current cpu
    var trace: seq<Event>    // what the client and the target have seen

    ghost predicate Valid()
      reads this, mCoreManager
    {
      mCoreManager.Valid()
    }

    function View(): Server
      reads this, mCoreManager, mPtid
    {
      Server(mCoreManager.mCoreStates, mCoreManager.mLiveCores, mHandlingSyscall, mHaveSyscallArgLocs,
             mHaveSyscallSupport, currentCpu, mPtid.View(), mNextProcess, mKillCoreOnExit, mExitServer, trace)
    }

    constructor (cfg: Config, count: u32)
      ensures Valid() && View() == Initial(count) && this.cfg == cfg && fresh(mCoreManager) && fresh(mPtid)
    {
      this.cfg := cfg;
      mCoreManager := new CoreManager(count);
      mPtid := new Ptids.Ptid(1, 1);
      mHandlingSyscall, mHaveSyscallArgLocs, mHaveSyscallSupport := false, false, false;
      mNextProcess, mKillCoreOnExit, mExitServer, currentCpu, trace := 1, false, false, 0, [];
    }

    method PutPkt(reply: Reply)
      modifies this`trace
      ensures View() == Send(old(View()), reply)
    {
      trace := trace + [Sent(reply)];
    }

    method RspReportException(sig: Signal)
      modifies this`trace
      ensures View() == ReportException(old(View()), sig)
    {
      PutPkt(StopReply(sig, currentCpu));
    }

    /** The next stop to report, by one pass over the cores. */
    method GetNextStopEvent() returns (cpu: Option<nat>)
      requires Valid()
      ensures cpu == NextStopEvent(mCoreManager.mCoreStates)
    {
      var cores := mCoreManager.mCoreStates;
      var nonSyscall: Option<nat> := None;
      var i := 0;
      while i < mCoreManager.mNumCores
        invariant 0 <= i <= |cores|
        invariant NextSyscall(cores, 0) == NextSyscall(cores, i)
        invariant NextEvent(cores, 0) == if nonSyscall.Some? then nonSyscall else NextEvent(cores, i)
      {
        var core := cores[i];
        if core.HasEvent() {
          if core.stopReason == Syscall {
            return Some(i);
          }
          if nonSyscall.None? {
            nonSyscall := Some(i);
          }
        }
        i := i + 1;
      }
      cpu := nonSyscall;
    }

    method KillCore(coreNum: u32) returns (ok: bool)
      requires Valid()
      modifies this`trace, mCoreManager
      ensures Valid() && ok == (coreNum < |old(View()).cores|)
      ensures View() == if ok then Kill(old(View()), coreNum) else old(View())
    {
      ok := mCoreManager.KillCoreNum(coreNum);
      if ok {
        trace := trace + [Killed(coreNum)];
      }
    }

    method RspSyscallRequest(env: Env) returns (status: Status)
      requires Valid() && currentCpu < mCoreManager.mNumCores
      modifies this, mCoreManager
      ensures Valid() && Result(View(), status) == SyscallRequest(old(View()), env)
    {
      if mHandlingSyscall {
        return AssertFailed(NestedSyscall);
      }
      mHandlingSyscall := true;
      if !mHaveSyscallArgLocs {
        mHaveSyscallSupport := env.supports;
        mHaveSyscallArgLocs := true;
      }
      if !mHaveSyscallSupport {
        trace := trace + [SyscallTrapped];
        RspReportException(TRAP);
        return Done;
      }
      if env.syscallId in FILE_IO_CALLS {
        PutPkt(FileIo(env.syscallId));
        return Done;
      }
      if env.syscallId == EXIT_CALL {
        PutPkt(Exited(currentCpu));
        mHandlingSyscall := false;
        var _ := KillCore(currentCpu);
        return Done;
      }
      trace := trace + [SyscallTrapped];
      RspReportException(TRAP);
      return Done;
    }

    /** Report one stop, if there is one. */
    method ProcessStopEvents(env: Env) returns (found: bool, status: Status)
      requires Valid()
      modifies this, mCoreManager
      ensures Valid() && found == NextStopEvent(old(View()).cores).Some?
      ensures !found ==> View() == old(View())
      ensures found ==> NextStopEvent(old(View()).cores).value < |old(View()).cores|
                        && Result(View(), status) == ProcessEvent(old(View()), NextStopEvent(old(View()).cores).value, env)
    {
      var cpuNum := GetNextStopEvent();
      NextStopEventInRange(mCoreManager.mCoreStates);
      if cpuNum.None? {
        return false, Done;
      }
      var i := cpuNum.value;
      var core := mCoreManager.mCoreStates[i];
      mCoreManager.Update(i, core.ReportStopReason());
      trace := trace + [Reported(i, core.stopReason)];
      currentCpu := i;
      found, status := true, Done;
      match core.stopReason {
        case Syscall => status := RspSyscallRequest(env);
        case Interrupted => RspReportException(TRAP);
        case Stepped => RspReportException(TRAP);
        case Lockstep => RspReportException(USR1);
        case _ => status := Fatal(UnknownStopEvent);
      }
    }

    /** Store the results of the running cores. */
    method RecordResults(results: seq<ResumeRes>) returns (status: Status)
      requires Valid() && |results| == mCoreManager.mNumCores
      modifies this`trace, mCoreManager
      ensures Valid() && Result(View(), status) == RecordFrom(old(View()), results, 0)
    {
      ghost var start := View();
      var i := 0;
      while i < mCoreManager.mNumCores
        invariant Valid() && 0 <= i <= mCoreManager.mNumCores
        invariant RecordFrom(start, results, 0) == RecordFrom(View(), results, i)
      {
        var core := mCoreManager.mCoreStates[i];
        if core.IsRunning() {
          if core.HasUnreportedStop() {
            return Fatal(AlreadyPending);
          }
          mCoreManager.Update(i, core.SetStopReason(results[i]));
          trace := trace + [Recorded(i, results[i])];
        }
        i := i + 1;
      }
      status := Done;
    }

    method RspTakeResults(results: seq<ResumeRes>, env: Env) returns (status: Status)
      requires Valid()
      modifies this, mCoreManager
      ensures Valid() && Result(View(), status) == TakeResults(old(View()), results, env)
    {
      if |results| != mCoreManager.mNumCores {
        return Fatal(WrongResultCount);
      }
      status := RecordResults(results);
      if status != Done {
        return;
      }
      var found;
      found, status := ProcessStopEvents(env);
      if !found {
        status := Fatal(NoEventProcessed);
      }
    }

    /** Report a pending stop, or resume the target and wait for one. */
    method RspDoCoreActions(env: Env) returns (status: Status)
      requires Valid()
      modifies this, mCoreManager
      ensures Valid() && Result(View(), status) == DoCoreActions(old(View()), env)
    {
      if env.brk {
        if !env.haltOk {
          return Fatal(HaltFailed);
        }
        RspReportException(INT);
        return Done;
      }
      var found;
      found, status := ProcessStopEvents(env);
      if found {
        return;
      }
      if !env.resumeOk {
        return Fatal(ResumeFailed);
      }
      trace := trace + [Resumed];
      status := RspWait(env);
    }

    method RspWait(env: Env) returns (status: Status)
      requires Valid()
      modifies this, mCoreManager
      ensures Valid() && Result(View(), status) == Wait(old(View()), env.waits, env)
    {
      ghost var start := View();
      var i := 0;
      assert env.waits[0..] == env.waits;
      while i < |env.waits| && env.waits[i].Quiet?
        invariant Valid() && View() == start && 0 <= i <= |env.waits|
        invariant Wait(start, env.waits, env) == Wait(start, env.waits[i..], env)
      {
        assert env.waits[i..][1..] == env.waits[i + 1..];
        var brk := env.waits[i].brk;
        if brk || env.waits[i].timedOut {
          if !env.haltOk {
            return Fatal(HaltFailed);
          }
          RspReportException(if brk then INT else XCPU);
          return Done;
        }
        i := i + 1;
      }
      if i == |env.waits| {
        return Waiting;
      }
      if env.waits[i].Failed? {
        return Fatal(WaitFailed);
      }
      status := RspTakeResults(env.waits[i].results, env);
    }

    method RspSyscallReply(reply: FileIoReply, env: Env) returns (status: Status)
      requires Valid()
      modifies this, mCoreManager
      ensures Valid() && Result(View(), status) == SyscallReply(old(View()), reply, env)
    {
      if !mHandlingSyscall {
        return AssertFailed(UnexpectedReply);
      }
      mHandlingSyscall := false;
      trace := trace + [Answered];
      if reply.valid {
        if reply.retcode != -1 {
          trace := trace + [ResultWritten(currentCpu, reply.retcode)];
        }
        if reply.ctrlC {
          RspReportException(INT);
          return Done;
        }
      }
      status := RspDoCoreActions(env);
    }

    /** Give each core its action; None if a letter is unknown. */
    method ApplyActions(actions: seq<VCont.Action>) returns (coreActions: Option<seq<ResumeType>>)
      requires Valid()
      modifies mCoreManager`mCoreStates
      ensures Valid() && (mCoreManager.mCoreStates, coreActions) == ApplyFrom(old(mCoreManager.mCoreStates), actions, 0)
    {
      ghost var goal := ApplyFrom(mCoreManager.mCoreStates, actions, 0);
      assert goal.1.Some? ==> [] + goal.1.value == goal.1.value;
      var done: seq<ResumeType> := [];
      var i := 0;
      while i < mCoreManager.mNumCores
        invariant Valid() && 0 <= i <= mCoreManager.mNumCores
        invariant var (after, rest) := ApplyFrom(mCoreManager.mCoreStates, actions, i);
                  goal == (after, if rest.Some? then Some(done + rest.value) else None)
      {
        var meant := Meaning(VCont.CoreAction(actions, i + 1));
        if meant.None? {
          return None;
        }
        var core := mCoreManager.mCoreStates[i];
        var resType := ResumeTypeFor(core, meant.value);
        ApplyNext(mCoreManager.mCoreStates, actions, i, done);
        mCoreManager.Update(i, core.SetResumeType(resType));
        done := done + [resType];
        i := i + 1;
      }
      assert done + [] == done;
      coreActions := Some(done);
    }

    method RspVCont(payload: seq<byte>, env: Env) returns (status: Status)
      requires Valid()
      modifies this, mCoreManager
      ensures Valid() && Result(View(), status) == VContRequest(old(View()), payload, env)
    {
      hide ApplyFrom, DoCoreActions, VCont.ParseTokens;
      var actions := new VCont.VContActions();
      var aborted := actions.ParsePayload(payload);
      if aborted {
        return AssertFailed(TooManyDigits);
      }
      if !actions.mValid {
        PutPkt(Error);
        return Done;
      }
      var coreActions := ApplyActions(actions.mActions);
      if coreActions.None? {
        PutPkt(Error);
        return Done;
      }
      trace := trace + [Prepared(coreActions.value)];
      status := RspDoCoreActions(env);
    }

    method RspVKill(text: seq<byte>) returns (status: Status)
      requires Valid()
      modifies this, mCoreManager
      ensures Valid() && Result(View(), status) == KillRequest(old(View()), text, cfg)
    {
      if !IsHexStr(text) {
        PutPkt(Error);
        return Done;
      }
      if |text| > 8 {
        return AssertFailed(TooManyDigits);
      }
      var pid := Hex.Hex2Val(text);
      CoreNamedIs(text, pid);
      hide Kill, CoreNamed, Pid2CoreNum, Hex.HexValue;
      var ok := KillCore(Pid2CoreNum(pid));
      if !ok {
        PutPkt(Error);
        return Done;
      }
      PutPkt(Ok);
      CloseIfNoneLive();
      status := Done;
    }

    method CloseIfNoneLive()
      modifies this`trace, this`mExitServer
      ensures var s := old(View());
              View() == if s.liveCores != 0 then s
                        else Emit(s, Closed).(exitServer := s.exitServer || cfg.exitOnKill)
    {
      if mCoreManager.mLiveCores == 0 {
        trace := trace + [Closed];
        if cfg.exitOnKill {
          mExitServer := true;
        }
      }
    }

    /** All cores back to life; the syscall flag stays as it is. */
    method ResetCores()
      requires Valid()
      modifies this`trace, mCoreManager
      ensures Valid() && View() == Reset(old(View()))
    {
      mCoreManager.Reset();
      trace := trace + [WasReset];
    }

    /** Skip dead cores if exits kill them. */
    method NextThreadCore() returns (coreNum: u32)
      requires Valid()
      modifies this`mNextProcess
      ensures coreNum == NextListed(old(View()), old(mNextProcess))
      ensures mNextProcess == Increment(Increment(coreNum))
    {
      coreNum := Pid2CoreNum(mNextProcess);
      mNextProcess := Increment(mNextProcess);
      while coreNum < mCoreManager.mNumCores && mKillCoreOnExit && !mCoreManager.mCoreStates[coreNum].isLive
        invariant NextListed(old(View()), old(mNextProcess)) == NextListed(old(View()), Increment(coreNum))
        invariant mNextProcess == Increment(Increment(coreNum))
        decreases mCoreManager.mNumCores - coreNum
      {
        coreNum := Pid2CoreNum(mNextProcess);
        mNextProcess := Increment(mNextProcess);
      }
    }

    method RspWriteNextThreadInfo() returns (status: Status)
      requires Valid()
      modifies this`trace, this`mNextProcess
      ensures Valid() && Result(View(), status) == ThreadInfo(old(View()))
    {
      hide Ptids.Encode, Ptids.ToInt32, NextListed, Increment;
      var coreNum: u32 := NextThreadCore();
      if coreNum < mCoreManager.mNumCores {
        var pid := Ptids.ToInt32(coreNum + 1);
        if pid < Ptids.PTID_ALL {
          PutPkt(Error);
        } else {
          PutPkt(Thread(Ptids.Encode(Ptids.Value(pid, 1))));
        }
      } else {
        PutPkt(ThreadsEnd);
      }
      status := Done;
    }

    /** The `Hg` packet. */
    method RspSelectThread(text: seq<byte>) returns (status: Status)
      requires Valid()
      modifies this`trace, this`currentCpu, mPtid
      ensures Valid() && Result(View(), status) == SelectThread(old(View()), text)
    {
      hide Ptids.Decode;
      var decoded := mPtid.DecodeText(text);
      if decoded.AssertFailure? {
        return AssertFailed(TooManyDigits);
      }
      var ok := false;
      if decoded.Decoded? {
        ok := mPtid.CrystalizeWith(1, 1);
      }
      if ok {
        currentCpu := mPtid.mPid - 1;
        PutPkt(Ok);
      } else {
        PutPkt(Error);
      }
      status := Done;
    }

    /** One client request. */
    method RspClientRequest(p: Packet, env: Env) returns (status: Status)
      requires Valid()
      modifies this, mCoreManager, mPtid
      ensures Valid() && Result(View(), status) == Handle(cfg, old(View()), p, env)
    {
      hide VContRequest, SyscallReply, KillRequest, ThreadInfo, SelectThread, Reset, LegacyPayload;
      status := Done;
      match p {
        case VContPacket(payload) => status := RspVCont(payload, env);
        case LegacyPacket(data) => status := RspVCont(LegacyPayload(data, cfg), env);
        case FileIoPacket(reply) => status := RspSyscallReply(reply, env);
        case KillPacket(text) => status := RspVKill(text);
        case MonitorReset(ok) =>
          ResetCores();
          if ok {
            PutPkt(Ok);
          } else {
            status := Fatal(ResetFailed);
          }
        case Reconnect => ResetCores();
        case FirstThreadInfo =>
          mNextProcess := 1;
          status := RspWriteNextThreadInfo();
        case NextThreadInfo => status := RspWriteNextThreadInfo();
        case SelectPacket(text) => status := RspSelectThread(text);
        case KillCoreOnExit(on) =>
          mKillCoreOnExit := on;
          PutPkt(Ok);
      }
    }
  }

  lemma CoreNamedIs(text: seq<byte>, pid: u32)
    requires IsHexStr(text) && |text| <= 8 && pid == Hex.HexValue(text)
    ensures Pid2CoreNum(pid) == CoreNamed(text)
  {
  }

  lemma ApplyNext(cores: seq<CoreState>, actions: seq<VCont.Action>, i: nat, done: seq<ResumeType>)
    requires i < |cores| && Meaning(VCont.CoreAction(actions, i + 1)).Some?
    ensures var resType := ResumeTypeFor(cores[i], Meaning(VCont.CoreAction(actions, i + 1)).value);
            var (after, rest) := ApplyFrom(cores, actions, i);
            var (after', rest') := ApplyFrom(cores[i := cores[i].SetResumeType(resType)], actions, i + 1);
            after == after' && rest.Some? == rest'.Some?
            && (rest.Some? ==> done + rest.value == done + [resType] + rest'.value)
  {
  }
}
