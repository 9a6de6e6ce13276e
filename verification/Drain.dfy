/** The order in which stops that are pending at the same time reach the client. */
module Drain {
  import opened Bytes
  import opened Cores
  import opened Scheduler
  import opened Conservation
  import opened Progress
  import opened Runs
  import opened Bookkeeping

  /** The cores with an event that is (or is not) a syscall, from `i` up, in increasing order. */
  function InLine(cores: seq<CoreState>, i: nat, syscalls: bool): seq<nat>
    decreases |cores| - i
  {
    if i >= |cores| then []
    else (if Stands(cores, i, syscalls) then [i] else [])
         + InLine(cores, i + 1, syscalls)
  }

  /** Syscalls first, then the rest, each by core number. */
  function DrainOrder(cores: seq<CoreState>): seq<nat> {
    InLine(cores, 0, true) + InLine(cores, 0, false)
  }

  /** Core by core, the same events. */
  predicate SameEvents(a: seq<CoreState>, b: seq<CoreState>) {
    |a| == |b|
    && forall i | 0 <= i < |a| :: StopToTell(a[i]) == StopToTell(b[i]) && a[i].stopReason == b[i].stopReason
  }

  lemma {:induction false} InLineSame(a: seq<CoreState>, b: seq<CoreState>, i: nat, syscalls: bool)
    requires SameEvents(a, b)
    ensures InLine(a, i, syscalls) == InLine(b, i, syscalls)
    decreases |a| - i
  {
    if i < |a| {
      InLineSame(a, b, i + 1, syscalls);
    }
  }

  /** Whether core `i` stands in the given line. */
  predicate Stands(cores: seq<CoreState>, i: nat, syscalls: bool)
    requires i < |cores|
  {
    StopToTell(cores[i]) && (cores[i].stopReason == Syscall) == syscalls
  }

  /** Reporting core `k` changes no line it does not stand in further on. */
  lemma {:induction false} InLineOthers(cores: seq<CoreState>, k: nat, i: nat, syscalls: bool)
    requires k < |cores| && (k < i || (cores[k].stopReason == Syscall) != syscalls)
    ensures InLine(cores[k := cores[k].ReportStopReason()], i, syscalls) == InLine(cores, i, syscalls)
    decreases |cores| - i
  {
    if i < |cores| {
      InLineOthers(cores, k, i + 1, syscalls);
    }
  }

  /** The first core of a line leaves it when it is reported. */
  lemma {:induction false} InLineHead(cores: seq<CoreState>, k: nat, i: nat, syscalls: bool)
    requires i <= k < |cores| && Stands(cores, k, syscalls)
    requires forall j | i <= j < k :: !Stands(cores, j, syscalls)
    ensures InLine(cores, i, syscalls) == [k] + InLine(cores[k := cores[k].ReportStopReason()], i, syscalls)
    decreases |cores| - i
  {
    if i == k {
      InLineOthers(cores, k, i + 1, syscalls);
    } else {
      assert !Stands(cores, i, syscalls);
      InLineHead(cores, k, i + 1, syscalls);
    }
  }

  lemma {:induction false} InLineEmpty(cores: seq<CoreState>, i: nat, syscalls: bool)
    ensures InLine(cores, i, syscalls) == []
       <==> forall j | i <= j < |cores| :: !Stands(cores, j, syscalls)
    decreases |cores| - i
  {
    if i < |cores| {
      InLineEmpty(cores, i + 1, syscalls);
    }
  }

  /** Reporting the next stop event takes the head off the drain order. */
  lemma NextHeadsDrainOrder(cores: seq<CoreState>)
    ensures NextStopEvent(cores).None? <==> DrainOrder(cores) == []
    ensures NextStopEvent(cores).Some? ==>
              var i := NextStopEvent(cores).value;
              && i < |cores|
              && DrainOrder(cores) == [i] + DrainOrder(cores[i := cores[i].ReportStopReason()])
  {
    hide InLine;
    NextStopHasEvent(cores);
    NextHasEvent(cores, 0);
    NextIsLowest(cores, 0);
    InLineEmpty(cores, 0, true);
    InLineEmpty(cores, 0, false);
    if NextStopEvent(cores).Some? {
      var i := NextStopEvent(cores).value;
      var isSyscall := cores[i].stopReason == Syscall;
      InLineHead(cores, i, 0, isSyscall);
      InLineOthers(cores, i, 0, !isSyscall);
      var told := cores[i := cores[i].ReportStopReason()];
      assert [i] + InLine(told, 0, true) + InLine(told, 0, false) == [i] + (InLine(told, 0, true) + InLine(told, 0, false));
    }
  }

  /** The state between packets of a run on which target and client keep their contracts. */
  ghost predicate Orderly(s: Server) {
    Inv(s) && PendingReportable(s.cores) && Disciplined(s)
  }

  /** Both sides keep their contracts for this packet. */
  predicate PacketOrderly(cfg: Config, s: Server, p: Packet, env: Env) {
    PacketObeys(cfg, s, p, env) && PacketDisciplined(s, p, env)
  }

  /** Every packet on such a run leads to such a state, and none ends in a fatal error or in one of
      the system-call assertions. */
  lemma HandleKeepsOrder(cfg: Config, s: Server, p: Packet, env: Env)
    requires Orderly(s) && PacketOrderly(cfg, s, p, env)
    ensures Orderly(Handle(cfg, s, p, env).server)
    ensures !Handle(cfg, s, p, env).status.Fatal? && !SyscallAssertion(Handle(cfg, s, p, env).status)
  {
    hide Handle, Conserved, Disciplined, PacketObeys, PacketDisciplined, PendingReportable;
    HandleKeeps(cfg, s, p, env);
    HandleKeepsReportable(cfg, s, p, env);
    HandleDisciplined(cfg, s, p, env);
  }

  lemma InitialOrderly(n: u32)
    ensures Orderly(Initial(n))
  {
    InitialInv(n);
    InitialBooks(n);
  }

  ghost predicate RunOrderly(cfg: Config, s: Server, packets: seq<(Packet, Env)>)
    requires |s.cores| < 0x1_0000_0000
    decreases packets
  {
    packets != [] ==>
      && PacketOrderly(cfg, s, packets[0].0, packets[0].1)
      && var r := Handle(cfg, s, packets[0].0, packets[0].1);
         r.status == Done ==> RunOrderly(cfg, r.server, packets[1..])
  }

  /** The next packets are all resuming ones that leave the line of pending stops as it was, and no
      break interrupts them. */
  ghost predicate KeepsResuming(cfg: Config, s: Server, packets: seq<(Packet, Env)>)
    requires |s.cores| < 0x1_0000_0000
    decreases packets
  {
    packets != [] ==>
      var (p, env) := packets[0];
      && !env.brk && Entering(cfg, s, p).Some? && SameEvents(s.cores, Entering(cfg, s, p).value.cores)
      && KeepsResuming(cfg, Handle(cfg, s, p, env).server, packets[1..])
  }

  lemma {:induction false} RunKeepsOrder(cfg: Config, s: Server, packets: seq<(Packet, Env)>)
    requires Orderly(s) && RunOrderly(cfg, s, packets)
    ensures Orderly(Run(cfg, s, packets).server)
    ensures !Run(cfg, s, packets).status.Fatal? && !SyscallAssertion(Run(cfg, s, packets).status)
    decreases packets
  {
    hide Handle, Conserved, Disciplined, PendingReportable, PacketOrderly;
    if packets != [] {
      HandleKeepsOrder(cfg, s, packets[0].0, packets[0].1);
      var r := Handle(cfg, s, packets[0].0, packets[0].1);
      if r.status == Done {
        RunKeepsOrder(cfg, r.server, packets[1..]);
      }
    }
  }

  /** Reporting one stop: who is told next does not depend on the packet, and it is always told. */
  lemma OneDrainStep(cfg: Config, s: Server, p: Packet, env: Env)
    requires Orderly(s) && PacketOrderly(cfg, s, p, env) && DrainOrder(s.cores) != []
    requires !env.brk && Entering(cfg, s, p).Some? && SameEvents(s.cores, Entering(cfg, s, p).value.cores)
    ensures Handle(cfg, s, p, env).status == Done
    ensures var s' := Handle(cfg, s, p, env).server;
            && Orderly(s') && DrainOrder(s'.cores) == DrainOrder(s.cores)[1..]
            && Reports(s'.trace) == Reports(s.trace) + DrainOrder(s.cores)[..1]
            && Resumes(s'.trace) == Resumes(s.trace)
  {
    hide Sents, Reports, Resumes, Conserved, InLine, ProcessEvent, Entering, Disciplined, PacketOrderly,
         PendingReportable, SyscallReplySent, Handle;
    HandleKeepsOrder(cfg, s, p, env);
    EnteringKeeps(cfg, s, p);
    var e := Entering(cfg, s, p).value;
    HandleEntered(cfg, s, p, env);
    SameLine(s.cores, e.cores);
    NextHeadsDrainOrder(e.cores);
    var i := NextStopEvent(e.cores).value;
    NextStopHasEvent(e.cores);
    ProcessEventAdds(e, i, env);
    assert Handle(cfg, s, p, env) == ProcessEvent(e, i, env);
    ProcessEventCores(e, i, env);
    SameLine(e.cores[i := e.cores[i].ReportStopReason()], ProcessEvent(e, i, env).server.cores);
  }

  lemma SameLine(a: seq<CoreState>, b: seq<CoreState>)
    requires SameEvents(a, b)
    ensures DrainOrder(a) == DrainOrder(b)
  {
    InLineSame(a, b, 0, true);
    InLineSame(a, b, 0, false);
  }

  /** However many stops are pending, the next packets all complete and report them one by one,
      syscalls first and otherwise by core number, and the target is not resumed before the last is
      out. */
  lemma {:induction false} PendingStopsDrainInOrder(cfg: Config, s: Server, packets: seq<(Packet, Env)>)
    requires Orderly(s) && RunOrderly(cfg, s, packets) && KeepsResuming(cfg, s, packets)
    requires |packets| <= |DrainOrder(s.cores)|
    ensures var r := Run(cfg, s, packets);
            && r.status == Done && Orderly(r.server)
            && Reports(r.server.trace) == Reports(s.trace) + DrainOrder(s.cores)[..|packets|]
            && DrainOrder(r.server.cores) == DrainOrder(s.cores)[|packets|..]
            && Resumes(r.server.trace) == Resumes(s.trace)
    decreases packets
  {
    hide Sents, Reports, Resumes, Conserved, Disciplined, PendingReportable, DrainOrder, Handle, Entering,
         PacketOrderly, SameEvents;
    if packets != [] {
      OneDrainStep(cfg, s, packets[0].0, packets[0].1);
      var s' := Handle(cfg, s, packets[0].0, packets[0].1).server;
      PendingStopsDrainInOrder(cfg, s', packets[1..]);
      var order := DrainOrder(s.cores);
      assert order[..1] + order[1..][..|packets| - 1] == order[..|packets|];
      assert order[1..][|packets| - 1..] == order[|packets|..];
    }
  }

  /** Every run from a fresh server on which target and client keep their contracts leads to a state
      from which pending stops drain as described, and ends in no fatal error and no system-call
      assertion. */
  lemma RunsAreOrderly(cfg: Config, n: u32, packets: seq<(Packet, Env)>)
    requires RunOrderly(cfg, Initial(n), packets)
    ensures var r := Run(cfg, Initial(n), packets);
            Orderly(r.server) && !r.status.Fatal? && !SyscallAssertion(r.status)
  {
    hide Run, Orderly;
    InitialOrderly(n);
    RunKeepsOrder(cfg, Initial(n), packets);
  }
}
