/** What one resuming packet achieves: at most one stop reported, in priority order, exactly one
    packet sent, no resume before every pending stop of a running core is out, and no fatal error
    as long as the target keeps its contract. */
module Progress {
  import opened Cores
  import opened Scheduler
  import opened Conservation

  // ---- Reading the trace ----

  function Sents(trace: seq<Event>): seq<Reply> {
    if trace == [] then []
    else Sents(trace[..|trace| - 1]) + match trace[|trace| - 1] case Sent(reply) => [reply] case _ => []
  }

  function Reports(trace: seq<Event>): seq<nat> {
    if trace == [] then []
    else Reports(trace[..|trace| - 1]) + match trace[|trace| - 1] case Reported(core, _) => [core] case _ => []
  }

  function Resumes(trace: seq<Event>): nat {
    if trace == [] then 0 else Resumes(trace[..|trace| - 1]) + if trace[|trace| - 1].Resumed? then 1 else 0
  }

  lemma TraceNext(trace: seq<Event>, e: Event)
    ensures Sents(trace + [e]) == Sents(trace) + (if e.Sent? then [e.reply] else [])
    ensures Reports(trace + [e]) == Reports(trace) + (if e.Reported? then [e.core] else [])
    ensures Resumes(trace + [e]) == Resumes(trace) + if e.Resumed? then 1 else 0
  {
    assert (trace + [e])[..|trace|] == trace;
  }

  /** What the trace of `s'` adds to that of `s`. */
  ghost predicate Adds(s: Server, s': Server, sent: seq<Reply>, reported: seq<nat>, resumed: nat) {
    && Sents(s'.trace) == Sents(s.trace) + sent
    && Reports(s'.trace) == Reports(s.trace) + reported
    && Resumes(s'.trace) == Resumes(s.trace) + resumed
  }

  // ---- Which stop is next ----

  /** The cores whose stop could be reported now. */
  function Events(cores: seq<CoreState>): set<nat> {
    set i: nat | i < |cores| && StopToTell(cores[i])
  }

  /** Lowest-numbered SYSCALL first, else lowest-numbered other. */
  ghost predicate FirstInLine(cores: seq<CoreState>, i: nat) {
    && i in Events(cores)
    && (forall j | j in Events(cores) && cores[j].stopReason == Syscall :: cores[i].stopReason == Syscall && i <= j)
    && (cores[i].stopReason != Syscall ==> forall j | j in Events(cores) :: i <= j)
  }

  lemma {:induction false} NextIsLowest(cores: seq<CoreState>, i: nat)
    ensures NextSyscall(cores, i).None? ==>
              forall j | i <= j < |cores| && cores[j].HasEvent() :: cores[j].stopReason != Syscall
    ensures NextSyscall(cores, i).Some? ==>
              forall j | i <= j < |cores| && cores[j].HasEvent() && cores[j].stopReason == Syscall :: NextSyscall(cores, i).value <= j
    ensures NextEvent(cores, i).Some? ==> forall j | i <= j < |cores| && cores[j].HasEvent() :: NextEvent(cores, i).value <= j
    decreases |cores| - i
  {
    if i < |cores| {
      NextIsLowest(cores, i + 1);
    }
  }

  /** getNextStopEvent answers with the core first in line, and with none exactly when no core has
      an event. */
  lemma NextStopEventIsFirstInLine(cores: seq<CoreState>)
    ensures NextStopEvent(cores).Some? ==> FirstInLine(cores, NextStopEvent(cores).value)
    ensures NextStopEvent(cores).None? <==> Events(cores) == {}
  {
    NextStopHasEvent(cores);
    NextHasEvent(cores, 0);
    NextIsLowest(cores, 0);
    assert Events(cores) == {} <==> forall j | 0 <= j < |cores| :: !StopToTell(cores[j]) by {
      assert forall j: nat | j < |cores| && StopToTell(cores[j]) :: j in Events(cores);
    }
  }

  // ---- One packet, one report ----

  predicate Reportable(res: ResumeRes) {
    res == Interrupted || res == Syscall || res == Stepped || res == Lockstep
  }

  /** The effect of reporting core `i`: told once, current, and no longer in line. */
  ghost predicate ReportsOne(s: Server, r: Result, reply: Reply, i: nat) {
    && Adds(s, r.server, [reply], [i], 0)
    && r.server.currentCpu == i
    && Events(r.server.cores) == Events(s.cores) - {i}
  }

  /** The packet rspSyscallRequest sends. */
  function SyscallReplySent(s: Server, env: Env): Reply {
    var supported := if s.haveArgLocs then s.haveSupport else env.supports;
    if supported && env.syscallId in FILE_IO_CALLS then FileIo(env.syscallId)
    else if supported && env.syscallId == EXIT_CALL then Exited(s.currentCpu)
    else StopReply(TRAP, s.currentCpu)
  }

  lemma SyscallRequestAdds(s: Server, env: Env)
    requires s.currentCpu < |s.cores| < 0x1_0000_0000 && !s.handlingSyscall
    ensures SyscallRequest(s, env).status == Done
    ensures SyscallRequest(s, env).server.currentCpu == s.currentCpu
    ensures Events(SyscallRequest(s, env).server.cores) == Events(s.cores)
    ensures Adds(s, SyscallRequest(s, env).server, [SyscallReplySent(s, env)], [], 0)
  {
    hide Sents, Reports, Resumes;
    var reply := SyscallReplySent(s, env);
    TraceNext(s.trace, Sent(reply));
    TraceNext(s.trace, SyscallTrapped);
    TraceNext(s.trace + [SyscallTrapped], Sent(reply));
    TraceNext(s.trace + [Sent(reply)], Killed(s.currentCpu));
  }

  /** The packet that reports a stop of core `i`. */
  function EventReply(s: Server, i: nat, env: Env): Reply
    requires i < |s.cores|
  {
    match s.cores[i].stopReason
    case Syscall => SyscallReplySent(s.(currentCpu := i), env)
    case Lockstep => StopReply(USR1, i)
    case _ => StopReply(TRAP, i)
  }

  /** Marking a stop reported takes exactly it out of line. */
  lemma ReportAdds(s: Server, i: nat)
    requires i < |s.cores| && s.cores[i].HasEvent()
    ensures Adds(s, Report(s, i), [], [i], 0) && Events(Report(s, i).cores) == Events(s.cores) - {i}
    ensures Report(s, i).currentCpu == i && |Report(s, i).cores| == |s.cores|
    ensures Report(s, i) == s.(cores := Report(s, i).cores, currentCpu := i, trace := Report(s, i).trace)
  {
    hide Sents, Reports, Resumes;
    TraceNext(s.trace, Reported(i, s.cores[i].stopReason));
  }

  lemma SyscallReplyOfReport(s: Server, told: Server, i: nat, env: Env)
    requires told == s.(cores := told.cores, currentCpu := i, trace := told.trace)
    ensures SyscallReplySent(told, env) == SyscallReplySent(s.(currentCpu := i), env)
  {
  }

  lemma ReplyAdds(s: Server, told: Server, i: nat, reply: Reply)
    requires Adds(s, told, [], [i], 0)
    ensures Adds(s, Send(told, reply), [reply], [i], 0)
  {
    hide Sents, Reports, Resumes;
    TraceNext(told.trace, Sent(reply));
  }

  lemma ProcessEventAdds(s: Server, i: nat, env: Env)
    requires i < |s.cores| < 0x1_0000_0000 && s.cores[i].HasEvent()
    ensures ProcessEvent(s, i, env).status == Done ==> ReportsOne(s, ProcessEvent(s, i, env), EventReply(s, i, env), i)
    ensures ProcessEvent(s, i, env).status
         == if s.cores[i].stopReason == Syscall && s.handlingSyscall then AssertFailed(NestedSyscall)
            else if !Reportable(s.cores[i].stopReason) then Fatal(UnknownStopEvent) else Done
    ensures Resumes(ProcessEvent(s, i, env).server.trace) == Resumes(s.trace)
  {
    hide Sents, Reports, Resumes, Report, Events, SyscallReplySent;
    var told := Report(s, i);
    ReportAdds(s, i);
    if s.cores[i].stopReason == Syscall {
      SyscallReplyOfReport(s, told, i, env);
      if !s.handlingSyscall {
        SyscallRequestAdds(told, env);
      }
      hide SyscallRequest;
    } else {
      ReplyAdds(s, told, i, EventReply(s, i, env));
    }
  }

  // ---- Taking the target's answer ----

  /** The cores once the results of the running ones from `from` on are recorded. */
  function Taken(cores: seq<CoreState>, results: seq<ResumeRes>, from: nat): (r: seq<CoreState>)
    requires |results| == |cores|
    ensures |r| == |cores|
  {
    seq(|cores|, i requires 0 <= i < |cores| =>
      if from <= i && cores[i].resumeType != Idle
      then cores[i].(stopReason := results[i], stopReported := results[i] == NoStop) else cores[i])
  }

  /** Only cores and trace differ. */
  predicate OnlyCores(s: Server, s': Server) {
    s' == s.(cores := s'.cores, trace := s'.trace)
  }

  lemma {:induction false} RecordFromTakes(s: Server, results: seq<ResumeRes>, i: nat)
    requires |results| == |s.cores| && Drained(s.cores, i)
    ensures RecordFrom(s, results, i).status == Done
    ensures RecordFrom(s, results, i).server.cores == Taken(s.cores, results, i)
    ensures Adds(s, RecordFrom(s, results, i).server, [], [], 0) && OnlyCores(s, RecordFrom(s, results, i).server)
    decreases |s.cores| - i
  {
    hide Sents, Reports, Resumes;
    if i < |s.cores| {
      var next := if s.cores[i].IsRunning() then Record(s, i, results[i]) else s;
      TraceNext(s.trace, Recorded(i, results[i]));
      RecordFromTakes(next, results, i + 1);
      assert Taken(next.cores, results, i + 1) == Taken(s.cores, results, i);
    }
  }

  // ---- When a resuming packet ends in a fatal error ----

  /** Reporting the stop of core `i` of `cores` fails: its result is none the server knows. */
  predicate Unreportable(cores: seq<CoreState>, next: Option<nat>) {
    next.Some? && next.value < |cores| && !Reportable(cores[next.value].stopReason)
  }

  predicate ResultsBreach(cores: seq<CoreState>, results: seq<ResumeRes>) {
    || |results| != |cores|
    || NextStopEvent(Taken(cores, results, 0)).None?
    || Unreportable(Taken(cores, results, 0), NextStopEvent(Taken(cores, results, 0)))
  }

  predicate WaitsBreach(cores: seq<CoreState>, waits: seq<WaitAnswer>, haltOk: bool) {
    waits != [] &&
    match waits[0]
    case Failed => true
    case Happened(results) => ResultsBreach(cores, results)
    case Quiet(brk, timedOut) => if brk || timedOut then !haltOk else WaitsBreach(cores, waits[1..], haltOk)
  }

  /** The answers that break the target's contract in a way the server notices. */
  predicate Breach(cores: seq<CoreState>, env: Env) {
    if env.brk then !env.haltOk
    else if NextStopEvent(cores).Some? then Unreportable(cores, NextStopEvent(cores))
    else !env.resumeOk || WaitsBreach(cores, env.waits, env.haltOk)
  }

  lemma DrainedWhenNoEvent(s: Server)
    requires Inv(s) && NextStopEvent(s.cores).None?
    ensures Drained(s.cores, 0)
  {
    NextStopHasEvent(s.cores);
    forall j | 0 <= j < |s.cores| ensures s.cores[j].IsRunning() ==> !s.cores[j].HasUnreportedStop() {
      assert CoreConserved(s.cores[j], s.trace, j);
    }
  }

  /** The reply that tells the client how the core now current stopped. */
  function ReplyForCurrent(s: Server, env: Env): Reply
    requires s.currentCpu < |s.cores|
  {
    var i := s.currentCpu;
    match s.cores[i].stopReason
    case Syscall =>
      if s.haveSupport && env.syscallId in FILE_IO_CALLS then FileIo(env.syscallId)
      else if s.haveSupport && env.syscallId == EXIT_CALL then Exited(i)
      else StopReply(TRAP, i)
    case Lockstep => StopReply(USR1, i)
    case _ => StopReply(TRAP, i)
  }

  predicate Silent(w: WaitAnswer) { w.Quiet? && !w.brk && !w.timedOut }

  /** The first poll of a wait that finds a break or a timeout, if it comes before any stop. */
  function FirstLoud(waits: seq<WaitAnswer>): Option<WaitAnswer> {
    if waits == [] || !waits[0].Quiet? then None
    else if Silent(waits[0]) then FirstLoud(waits[1..])
    else Some(waits[0])
  }

  /** Why the target was halted, if it was: SIGINT for a break, on entry or during the wait; SIGXCPU
      for a timeout that no break came with. */
  function HaltSignal(env: Env): Option<Signal> {
    if env.brk then Some(INT)
    else if FirstLoud(env.waits).None? then None
    else if FirstLoud(env.waits).value.Quiet? && FirstLoud(env.waits).value.brk then Some(INT)
    else Some(XCPU)
  }

  /** Exactly one packet went out.  Either it tells how the current core stopped, and the stop of
      that core and no other was marked reported; or nothing was reported, the target was halted by
      a break or a timeout, and the packet says which. */
  ghost predicate OneReply(s: Server, s': Server, env: Env) {
    if Reports(s'.trace) == Reports(s.trace) then
      && HaltSignal(env).Some?
      && Sents(s'.trace) == Sents(s.trace) + [StopReply(HaltSignal(env).value, s'.currentCpu)]
    else
      && Reports(s'.trace) == Reports(s.trace) + [s'.currentCpu]
      && s'.currentCpu < |s'.cores| && Reportable(s'.cores[s'.currentCpu].stopReason)
      && !s'.cores[s'.currentCpu].HasUnreportedStop()
      && Sents(s'.trace) == Sents(s.trace) + [ReplyForCurrent(s', env)]
  }

  /** The reply to a system call can be read off the state it leaves. */
  lemma AfterSyscallRequest(told: Server, env: Env)
    requires told.currentCpu < |told.cores| < 0x1_0000_0000 && !told.handlingSyscall
    ensures var s', i := SyscallRequest(told, env).server, told.currentCpu;
            && s'.currentCpu == i && s'.haveSupport == (if told.haveArgLocs then told.haveSupport else env.supports)
            && s'.cores[i].stopReason == told.cores[i].stopReason
            && s'.cores[i].HasUnreportedStop() == told.cores[i].HasUnreportedStop()
  {
  }

  lemma OtherAfter(s: Server, i: nat, sig: Signal)
    requires i < |s.cores|
    ensures var told := ReportException(Report(s, i), sig);
            told.currentCpu == i && told.cores[i].stopReason == s.cores[i].stopReason && !told.cores[i].HasUnreportedStop()
  {
  }

  /** The core just reported is the current one, keeps its stop and has it no longer pending; what
      the server knows about system calls is what it answered by. */
  lemma AfterEvent(s: Server, i: nat, env: Env)
    requires i < |s.cores| < 0x1_0000_0000 && ProcessEvent(s, i, env).status == Done
    ensures var s' := ProcessEvent(s, i, env).server;
            && s'.currentCpu == i && !s'.cores[i].HasUnreportedStop()
            && s'.cores[i].stopReason == s.cores[i].stopReason && Reportable(s.cores[i].stopReason)
            && (s.cores[i].stopReason == Syscall ==>
                  s'.haveSupport == if s.haveArgLocs then s.haveSupport else env.supports)
  {
    OtherAfter(s, i, TRAP);
    OtherAfter(s, i, USR1);
    hide SyscallRequest;
    var told := Report(s, i);
    if s.cores[i].stopReason == Syscall && !s.handlingSyscall {
      AfterSyscallRequest(told, env);
    } else {
      NestedFails(told, env);
    }
  }

  lemma NestedFails(s: Server, env: Env)
    requires s.currentCpu < |s.cores| < 0x1_0000_0000
    ensures s.handlingSyscall ==> SyscallRequest(s, env).status != Done
  {
  }

  lemma ReplyReadOff(s: Server, s': Server, i: nat, env: Env)
    requires i < |s.cores| == |s'.cores| && s'.currentCpu == i && s'.cores[i].stopReason == s.cores[i].stopReason
    requires s.cores[i].stopReason == Syscall ==> s'.haveSupport == if s.haveArgLocs then s.haveSupport else env.supports
    ensures ReplyForCurrent(s', env) == EventReply(s, i, env)
  {
  }

  lemma SameReply(s: Server, env: Env, env': Env)
    requires s.currentCpu < |s.cores| && env'.syscallId == env.syscallId
    ensures ReplyForCurrent(s, env) == ReplyForCurrent(s, env')
  {
  }

  /** A processed event is answered as OneReply says. */
  lemma EventIsOneReply(s: Server, i: nat, env: Env, env': Env)
    requires env'.syscallId == env.syscallId
    requires i < |s.cores| < 0x1_0000_0000 && s.cores[i].HasEvent() && ProcessEvent(s, i, env).status == Done
    ensures OneReply(s, ProcessEvent(s, i, env).server, env')
  {
    hide Sents, Reports, Resumes, ProcessEvent, Events, EventReply, ReplyForCurrent;
    ProcessEventAdds(s, i, env);
    AfterEvent(s, i, env);
    ReplyReadOff(s, ProcessEvent(s, i, env).server, i, env);
    SameReply(ProcessEvent(s, i, env).server, env, env');
  }

  /** A poll that finds nothing does not matter to the answer. */
  lemma SilentFirst(s: Server, s': Server, env: Env, env': Env)
    requires !env.brk && env.waits != [] && Silent(env.waits[0]) && env' == env.(waits := env.waits[1..])
    ensures OneReply(s, s', env) <==> OneReply(s, s', env')
  {
    hide Sents, Reports;
  }

  lemma LoudFirst(env: Env)
    requires !env.brk && env.waits != [] && env.waits[0].Quiet? && !Silent(env.waits[0])
    ensures HaltSignal(env) == Some(if env.waits[0].brk then INT else XCPU)
  {
  }

  lemma TakeResultsOutcome(s: Server, results: seq<ResumeRes>, env: Env, env': Env)
    requires env' == env.(brk := false, waits := env'.waits)
    requires |s.cores| < 0x1_0000_0000 && Drained(s.cores, 0)
    ensures var r := TakeResults(s, results, env);
            && (r.status.Fatal? <==> ResultsBreach(s.cores, results))
            && r.status != Waiting && r.status != Fatal(AlreadyPending)
            && Resumes(r.server.trace) == Resumes(s.trace)
            && (r.status == Done ==>
                  && |results| == |s.cores| && OneReply(s, r.server, env')
                  && var cores := Taken(s.cores, results, 0);
                  && NextStopEvent(cores).Some? && r.server.currentCpu == NextStopEvent(cores).value
                  && Events(r.server.cores) == Events(cores) - {r.server.currentCpu})
  {
    hide Sents, Reports, Resumes, ProcessEvent, ReplyForCurrent;
    if |results| == |s.cores| {
      RecordFromTakes(s, results, 0);
      var recorded := RecordFrom(s, results, 0).server;
      NextStopHasEvent(recorded.cores);
      if NextStopEvent(recorded.cores).Some? {
        var i := NextStopEvent(recorded.cores).value;
        ProcessEventAdds(recorded, i, env);
        if ProcessEvent(recorded, i, env).status == Done {
          EventIsOneReply(recorded, i, env, env');
        }
      }
    }
  }

  lemma HaltedIsOneReply(s: Server, sig: Signal, env: Env)
    requires HaltSignal(env) == Some(sig)
    ensures OneReply(s, ReportException(s, sig), env) && Resumes(ReportException(s, sig).trace) == Resumes(s.trace)
  {
    hide Sents, Reports, Resumes;
    TraceNext(s.trace, Sent(StopReply(sig, s.currentCpu)));
  }

  lemma {:induction false} WaitOutcome(s: Server, waits: seq<WaitAnswer>, env: Env)
    requires |s.cores| < 0x1_0000_0000 && Drained(s.cores, 0)
    ensures var r := Wait(s, waits, env);
            && (r.status.Fatal? <==> WaitsBreach(s.cores, waits, env.haltOk))
            && r.status != Fatal(AlreadyPending)
            && (r.status == Done ==> OneReply(s, r.server, env.(brk := false, waits := waits)))
            && (r.status == Waiting ==> r.server == s)
            && Resumes(r.server.trace) == Resumes(s.trace)
    decreases waits
  {
    hide Resumes, TakeResults, ResultsBreach, OneReply, NextStopEvent, Taken, Events, HaltSignal;
    if waits != [] {
      var env' := env.(brk := false, waits := waits);
      match waits[0] {
        case Failed =>
        case Happened(results) => TakeResultsOutcome(s, results, env, env');
        case Quiet(brk, timedOut) =>
          if brk || timedOut {
            LoudFirst(env');
            HaltedIsOneReply(s, if brk then INT else XCPU, env');
          } else {
            WaitOutcome(s, waits[1..], env);
            SilentFirst(s, Wait(s, waits[1..], env).server, env', env.(brk := false, waits := waits[1..]));
          }
      }
    }
  }

  /** doCoreActions ends in a fatal error exactly when an answer breaks the contract; "already had
      a stop event pending" never happens.  Otherwise it sends exactly one packet, and the target
      is resumed only if no stop of a running core was waiting. */
  lemma DoCoreActionsOutcome(s: Server, env: Env)
    requires Inv(s)
    ensures var r := DoCoreActions(s, env);
            && (r.status.Fatal? <==> Breach(s.cores, env))
            && r.status != Fatal(AlreadyPending)
            && (r.status == Done ==> OneReply(s, r.server, env))
            && (r.status == Waiting ==> Sents(r.server.trace) == Sents(s.trace))
            && (!r.status.Fatal? ==>
                  Resumes(r.server.trace) == Resumes(s.trace) + if !env.brk && Events(s.cores) == {} then 1 else 0)
  {
    hide Sents, Reports, Resumes, Wait, ProcessEvent, Conserved, ReplyForCurrent;
    NextStopEventIsFirstInLine(s.cores);
    if env.brk {
      HaltedIsOneReply(s, INT, env);
    }
    TraceNext(s.trace, Resumed);
    assert !env.brk ==> env.(brk := false, waits := env.waits) == env;
    hide OneReply;
    if !env.brk {
      if NextStopEvent(s.cores).Some? {
        var i := NextStopEvent(s.cores).value;
        ProcessEventAdds(s, i, env);
        if ProcessEvent(s, i, env).status == Done {
          EventIsOneReply(s, i, env, env);
        }
      } else {
        DrainedWhenNoEvent(s);
        WaitOutcome(Emit(s, Resumed), env.waits, env);
        OneReplyAfterResume(s, DoCoreActions(s, env).server, env);
      }
    }
  }

  lemma OneReplyAfterResume(s: Server, s': Server, env: Env)
    ensures OneReply(Emit(s, Resumed), s', env) <==> OneReply(s, s', env)
  {
    hide Sents, Reports, Resumes, ReplyForCurrent;
    TraceNext(s.trace, Resumed);
  }

  /** What each fatal error complains about. */
  ghost predicate Complains(error: FatalError, cores: seq<CoreState>, env: Env) {
    match error
    case HaltFailed => !env.haltOk
    case ResumeFailed => !env.resumeOk && !env.brk
    case WaitFailed => Failed in env.waits
    case WrongResultCount => exists results :: Happened(results) in env.waits && |results| != |cores|
    case NoEventProcessed =>
      exists results :: Happened(results) in env.waits && |results| == |cores|
        && forall i | 0 <= i < |cores| && cores[i].resumeType != Idle :: results[i] == NoStop
    case UnknownStopEvent =>
      || (exists i | 0 <= i < |cores| :: StopToTell(cores[i]) && !Reportable(cores[i].stopReason))
      || (exists results :: Happened(results) in env.waits && |results| == |cores|
            && exists i | 0 <= i < |cores| && cores[i].resumeType != Idle :: results[i] != NoStop && !Reportable(results[i]))
    case _ => false
  }

  lemma TakeResultsComplains(s: Server, results: seq<ResumeRes>, env: Env)
    requires |s.cores| < 0x1_0000_0000 && Drained(s.cores, 0) && Happened(results) in env.waits
    ensures TakeResults(s, results, env).status.Fatal? ==> Complains(TakeResults(s, results, env).status.error, s.cores, env)
  {
    hide Sents, Reports, Resumes, SyscallRequest;
    if |results| == |s.cores| {
      RecordFromTakes(s, results, 0);
      var recorded := RecordFrom(s, results, 0).server;
      NextStopHasEvent(recorded.cores);
      if NextStopEvent(recorded.cores).Some? {
        var i := NextStopEvent(recorded.cores).value;
        ProcessEventAdds(recorded, i, env);
        assert s.cores[i].resumeType != Idle && recorded.cores[i].stopReason == results[i];
      } else {
        assert forall i | 0 <= i < |s.cores| && s.cores[i].resumeType != Idle :: !StopToTell(recorded.cores[i]);
      }
    }
  }

  lemma {:induction false} WaitComplains(s: Server, waits: seq<WaitAnswer>, env: Env)
    requires |s.cores| < 0x1_0000_0000 && Drained(s.cores, 0) && forall w | w in waits :: w in env.waits
    ensures Wait(s, waits, env).status.Fatal? ==> Complains(Wait(s, waits, env).status.error, s.cores, env)
    decreases waits
  {
    hide TakeResults;
    if waits != [] {
      assert waits[0] in waits;
      match waits[0] {
        case Failed =>
        case Happened(results) => TakeResultsComplains(s, results, env);
        case Quiet(_, _) => WaitComplains(s, waits[1..], env);
      }
    }
  }

  /** Every fatal error is about what it says, and "already had a stop event pending" is about
      nothing: it never comes up. */
  lemma FatalErrorsAreTrue(s: Server, env: Env)
    requires Inv(s)
    ensures DoCoreActions(s, env).status.Fatal? ==> Complains(DoCoreActions(s, env).status.error, s.cores, env)
  {
    hide Wait, SyscallRequest, Sents, Reports, Resumes, Conserved;
    NextStopHasEvent(s.cores);
    if !env.brk {
      if NextStopEvent(s.cores).Some? {
        ProcessEventAdds(s, NextStopEvent(s.cores).value, env);
      } else {
        DrainedWhenNoEvent(s);
        WaitComplains(Emit(s, Resumed), env.waits, env);
      }
    }
  }

  /** Bounded drain and priority: with no break waiting and a stop of a running core pending, the
      packet reports the one first in line, takes exactly it out of line, and does not resume. */
  lemma PendingStopIsReportedFirst(s: Server, env: Env)
    requires Inv(s) && !env.brk && Events(s.cores) != {}
    ensures NextStopEvent(s.cores).Some? && FirstInLine(s.cores, NextStopEvent(s.cores).value)
    ensures var i, r := NextStopEvent(s.cores).value, DoCoreActions(s, env);
            r.status == Done ==> ReportsOne(s, r, EventReply(s, i, env), i)
  {
    NextStopEventIsFirstInLine(s.cores);
    hide Sents, Reports, Resumes, ProcessEvent;
    ProcessEventAdds(s, NextStopEvent(s.cores).value, env);
  }

  /** A break waiting on entry is told as SIGINT, before any pending stop; nothing is resumed and no
      core changes. */
  lemma BreakComesFirst(s: Server, env: Env)
    requires |s.cores| < 0x1_0000_0000 && env.brk && env.haltOk
    ensures DoCoreActions(s, env) == Result(Send(s, StopReply(INT, s.currentCpu)), Done)
  {
  }

  /** A break or a timeout while the target runs: polls that find nothing are skipped, the target
      is halted, the client is told SIGINT or SIGXCPU once, and no core's state changes, so no stop
      is recorded or lost. */
  lemma {:induction false} InterruptedWait(s: Server, silent: seq<WaitAnswer>, end: WaitAnswer, later: seq<WaitAnswer>, env: Env)
    requires |s.cores| < 0x1_0000_0000 && env.haltOk
    requires (forall w | w in silent :: Silent(w)) && end.Quiet? && !Silent(end)
    ensures Wait(s, silent + [end] + later, env)
         == Result(Send(s, StopReply(if end.brk then INT else XCPU, s.currentCpu)), Done)
    decreases silent
  {
    var waits := silent + [end] + later;
    if silent == [] {
      assert waits[0] == end;
    } else {
      assert waits[0] == silent[0] && Silent(silent[0]);
      assert waits[1..] == silent[1..] + [end] + later;
      InterruptedWait(s, silent[1..], end, later, env);
    }
  }
}
