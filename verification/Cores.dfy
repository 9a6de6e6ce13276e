/** The state of each target core and the manager that owns them (GdbServer.h, GdbServer.cpp). */
module Cores {
  import opened Bytes

  /** ITarget::ResumeRes. */
  datatype ResumeRes = NoStop | Success | Failure | Interrupted | TimedOut | Syscall | Stepped | Lockstep

  /** ITarget::ResumeType; Idle is its NONE. */
  datatype ResumeType = Step | Continue | Idle

  /** One core, stored by value in the manager's vector. */
  datatype CoreState = CoreState(stopReason: ResumeRes, resumeType: ResumeType, stopReported: bool, isLive: bool) {
    predicate IsRunning() { resumeType != Idle }

    predicate HasUnreportedStop() { !stopReported }

    function ReportStopReason(): CoreState { this.(stopReported := true) }

    function SetStopReason(res: ResumeRes): CoreState {
      this.(stopReason := res, stopReported := res == NoStop)
    }

    function SetResumeType(t: ResumeType): CoreState { this.(resumeType := t) }

    function KillCore(): CoreState { this.(isLive := false) }

    /** A stop that getNextStopEvent would pick up. */
    predicate HasEvent() { IsRunning() && HasUnreportedStop() && stopReason != NoStop }
  }

  const FRESH: CoreState := CoreState(Interrupted, Idle, true, true)

  function FreshCores(n: nat): (cores: seq<CoreState>)
    ensures |cores| == n && forall i | 0 <= i < n :: cores[i] == FRESH
  {
    seq(n, _ => FRESH)
  }

  function Decrement(n: u32): u32 { if n == 0 then 0xFFFF_FFFF else n - 1 }

  class CoreManager {
    const mNumCores: u32
    var mLiveCores: u32
    var mCoreStates: seq<CoreState>

    ghost predicate Valid()
      reads this
    {
      |mCoreStates| == mNumCores
    }

    constructor (count: u32)
      ensures Valid() && mNumCores == count && mLiveCores == count && mCoreStates == FreshCores(count)
    {
      mNumCores, mLiveCores, mCoreStates := count, count, FreshCores(count);
    }

    method Reset()
      modifies this
      ensures Valid() && mLiveCores == mNumCores && mCoreStates == FreshCores(mNumCores)
    {
      mLiveCores := mNumCores;
      mCoreStates := FreshCores(mNumCores);
    }

    /** Counts the core off even if it was dead already. */
    method KillCoreNum(coreNum: u32) returns (ok: bool)
      requires Valid()
      modifies this
      ensures Valid() && ok == (coreNum < mNumCores)
      ensures ok ==> mCoreStates == old(mCoreStates)[coreNum := old(mCoreStates)[coreNum].KillCore()]
                     && mLiveCores == Decrement(old(mLiveCores))
      ensures !ok ==> mCoreStates == old(mCoreStates) && mLiveCores == old(mLiveCores)
    {
      if coreNum < mNumCores {
        mCoreStates := mCoreStates[coreNum := mCoreStates[coreNum].KillCore()];
        mLiveCores := Decrement(mLiveCores);
        return true;
      }
      ok := false;
    }

    /** operator[] used to change one core. */
    method Update(i: nat, core: CoreState)
      requires Valid() && i < mNumCores
      modifies this`mCoreStates
      ensures Valid() && mCoreStates == old(mCoreStates)[i := core]
    {
      mCoreStates := mCoreStates[i := core];
    }
  }
}
