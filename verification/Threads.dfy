/** Listing the threads with qfThreadInfo and qsThreadInfo, and selecting one with Hg. */
module Threads {
  import opened Bytes
  import opened Cores
  import opened Scheduler
  import opened Conservation
  import opened Progress
  import Ptids

  /** The cores a listing shows, from core `i` up: all of them, or the live ones if exits kill. */
  function Listed(s: Server, i: nat): seq<nat>
    decreases |s.cores| - i
  {
    if i >= |s.cores| then []
    else (if s.killCoreOnExit && !s.cores[i].isLive then [] else [i]) + Listed(s, i + 1)
  }

  /** The identifier that stands for core `i`. */
  function ThreadText(i: nat): seq<byte> { Ptids.Encode(Ptids.Value(i + 1, 1)) }

  /** One reply for each listed core, then the end marker. */
  function Listing(cores: seq<nat>): seq<Reply> {
    if cores == [] then [ThreadsEnd] else [Thread(ThreadText(cores[0]))] + Listing(cores[1..])
  }

  /** Each core at most once, in increasing order. */
  lemma {:induction false} ListedIncreases(s: Server, i: nat)
    ensures forall j, k | 0 <= j < k < |Listed(s, i)| :: Listed(s, i)[j] < Listed(s, i)[k]
    ensures forall c :: c in Listed(s, i) <==> i <= c < |s.cores| && (s.killCoreOnExit ==> s.cores[c].isLive)
    decreases |s.cores| - i
  {
    if i < |s.cores| {
      ListedIncreases(s, i + 1);
      var rest, all := Listed(s, i + 1), Listed(s, i);
      forall j, k | 0 <= j < k < |all| ensures all[j] < all[k] {
        var d := |all| - |rest|;
        assert all[k] == rest[k - d] && rest[k - d] in rest;
        assert j >= d ==> all[j] == rest[j - d];
      }
    }
  }

  lemma NextListedTurn(s: Server, i: nat)
    requires i <= |s.cores| < 0x8000_0000
    ensures NextListed(s, i + 1)
         == if i < |s.cores| && s.killCoreOnExit && !s.cores[i].isLive then NextListed(s, i + 2) else i
  {
  }

  /** The do-while loop stops at the first listed core. */
  lemma {:induction false} NextListedIsFirst(s: Server, i: nat)
    requires i <= |s.cores| < 0x8000_0000
    ensures var c := NextListed(s, i + 1);
            && i <= c <= |s.cores|
            && Listed(s, i) == Listed(s, c)
            && (c < |s.cores| ==> Listed(s, c) == [c] + Listed(s, c + 1))
    decreases |s.cores| - i
  {
    NextListedTurn(s, i);
    hide NextListed;
    if i < |s.cores| && s.killCoreOnExit && !s.cores[i].isLive {
      NextListedIsFirst(s, i + 1);
      assert [] + Listed(s, i + 1) == Listed(s, i + 1);
    }
  }

  lemma ThreadInfoStep(s: Server, i: nat)
    requires i <= |s.cores| < 0x8000_0000 && s.nextProcess == i + 1
    ensures var r, line := ThreadInfo(s), Listed(s, i);
            && r.status == Done
            && r.server == s.(nextProcess := r.server.nextProcess, trace := r.server.trace)
            && Sents(r.server.trace) == Sents(s.trace) + Listing(line)[..1]
            && (line != [] ==> line[0] < |s.cores| && r.server.nextProcess == line[0] + 2
                               && Listed(r.server, line[0] + 1) == line[1..])
  {
    hide Sents, Reports, Resumes, Listed, NextListed, Listing, ThreadText, ThreadInfo;
    NextListedIsFirst(s, i);
    var c := NextListed(s, i + 1);
    ThreadInfoAt(s, c);
    ListingHead(Listed(s, c));
    TraceNext(s.trace, Sent(if c < |s.cores| then Thread(ThreadText(c)) else ThreadsEnd));
    if c < |s.cores| {
      ListedSame(s, ThreadInfo(s).server, c + 1);
      assert ([c] + Listed(s, c + 1))[1..] == Listed(s, c + 1);
    } else {
      ListedEnd(s, c);
    }
  }

  lemma ThreadInfoAt(s: Server, c: nat)
    requires c <= |s.cores| < 0x8000_0000 && NextListed(s, s.nextProcess) == c
    ensures ThreadInfo(s) == Result(Send(s.(nextProcess := c + 2), if c < |s.cores| then Thread(ThreadText(c)) else ThreadsEnd), Done)
  {
    hide NextListed, Ptids.Encode, Ptids.ToInt32;
    assert Increment(Increment(c)) == c + 2;
    if c < |s.cores| {
      SmallInt(c + 1);
    }
    hide Increment;
  }

  /** Processes from 2^31 up have no identifier, and the listing answers with an error for them; the
      last of all looks like ALL. */
  lemma HugeProcesses(s: Server, c: nat)
    requires 0x7FFF_FFFF <= c < |s.cores| < 0x1_0000_0000 && NextListed(s, s.nextProcess) == c
    ensures var r := ThreadInfo(s);
            && r.status == Done
            && r.server == s.(nextProcess := r.server.nextProcess, trace := r.server.trace)
            && r.server.trace == s.trace + [Sent(
                 if c == 0xFFFF_FFFE then Thread(Ptids.Encode(Ptids.Value(-1, 1))) else Error)]
  {
    hide NextListed, Ptids.Encode;
    assert Ptids.ToInt32(c + 1) == c + 1 - 0x1_0000_0000;
  }

  lemma SmallInt(v: nat)
    requires v < 0x8000_0000
    ensures Ptids.ToInt32(v) == v
  {
  }

  lemma ListingHead(line: seq<nat>)
    ensures Listing(line)[..1] == [if line == [] then ThreadsEnd else Thread(ThreadText(line[0]))]
    ensures line == [] ==> Listing(line) == [ThreadsEnd]
    ensures line != [] ==> Listing(line) == Listing(line)[..1] + Listing(line[1..])
  {
    hide ThreadText;
  }

  lemma ListedEnd(s: Server, i: nat)
    requires i >= |s.cores|
    ensures Listed(s, i) == []
  {
  }

  lemma {:induction false} ListedSame(s: Server, s': Server, i: nat)
    requires s.cores == s'.cores && s.killCoreOnExit == s'.killCoreOnExit
    ensures Listed(s, i) == Listed(s', i)
    decreases |s.cores| - i
  {
    if i < |s.cores| {
      ListedSame(s, s', i + 1);
    }
  }

  predicate AsksForMore(packets: seq<(Packet, Env)>) {
    forall k | 0 <= k < |packets| :: packets[k].0 == NextThreadInfo
  }

  lemma {:induction false} RestOfListing(cfg: Config, s: Server, i: nat, packets: seq<(Packet, Env)>)
    requires i <= |s.cores| < 0x8000_0000 && s.nextProcess == i + 1
    requires AsksForMore(packets) && |packets| == |Listed(s, i)| + 1
    ensures var r := Run(cfg, s, packets);
            && r.status == Done && r.server.cores == s.cores
            && Sents(r.server.trace) == Sents(s.trace) + Listing(Listed(s, i))
    decreases packets
  {
    hide Sents, Listed, ThreadInfo, Run, Listing;
    ThreadInfoStep(s, i);
    var line, s' := Listed(s, i), ThreadInfo(s).server;
    RunFirst(cfg, s, packets);
    ListingHead(line);
    if line != [] {
      RestOfListing(cfg, s', line[0] + 1, packets[1..]);
    }
  }

  lemma RunFirst(cfg: Config, s: Server, packets: seq<(Packet, Env)>)
    requires |s.cores| < 0x1_0000_0000 && packets != []
    requires Handle(cfg, s, packets[0].0, packets[0].1).status == Done
    ensures var s' := Handle(cfg, s, packets[0].0, packets[0].1).server;
            Run(cfg, s, packets) == if |packets| == 1 then Result(s', Done) else Run(cfg, s', packets[1..])
  {
    hide Handle;
  }

  /** Different cores have different identifiers. */
  lemma ThreadTextsDiffer(i: nat, j: nat)
    requires i < 0x7FFF_FFFF && j < 0x7FFF_FFFF && i != j
    ensures ThreadText(i) != ThreadText(j)
  {
    hide Ptids.Encode, Ptids.Decode;
    Ptids.PtidRoundTrip(Ptids.Value(1, 1), Ptids.Value(i + 1, 1));
    Ptids.PtidRoundTrip(Ptids.Value(1, 1), Ptids.Value(j + 1, 1));
  }

  lemma AllTextsDiffer(s: Server)
    requires |s.cores| < 0x8000_0000
    ensures var line := Listed(s, 0);
            forall j, k | 0 <= j < k < |line| :: ThreadText(line[j]) != ThreadText(line[k])
  {
    hide Listed, ThreadText;
    ListedIncreases(s, 0);
    var line := Listed(s, 0);
    forall j, k | 0 <= j < k < |line| ensures ThreadText(line[j]) != ThreadText(line[k]) {
      assert line[j] in line && line[k] in line;
      ThreadTextsDiffer(line[j], line[k]);
    }
  }

  /** A qfThreadInfo and enough qsThreadInfo list every core once in increasing order, leaving out
      dead ones when exits kill, and then say `l`.  No identifier comes twice.  (Identifiers are
      never above 2^31 - 1.) */
  lemma ListingIsComplete(cfg: Config, s: Server, packets: seq<(Packet, Env)>)
    requires |s.cores| < 0x8000_0000 && |packets| == |Listed(s, 0)| + 1
    requires packets[0].0 == FirstThreadInfo && AsksForMore(packets[1..])
    ensures var r := Run(cfg, s, packets);
            r.status == Done && r.server.cores == s.cores
            && Sents(r.server.trace) == Sents(s.trace) + Listing(Listed(s, 0))
    ensures var line := Listed(s, 0);
            forall j, k | 0 <= j < k < |line| :: ThreadText(line[j]) != ThreadText(line[k])
  {
    hide Sents, Listed, ThreadInfo, Run, Listing, ThreadText;
    AllTextsDiffer(s);
    var start := s.(nextProcess := 1);
    var line, s' := Listed(start, 0), ThreadInfo(start).server;
    ListedSame(s, start, 0);
    ThreadInfoStep(start, 0);
    RunFirst(cfg, s, packets);
    ListingHead(line);
    if line != [] {
      RestOfListing(cfg, s', line[0] + 1, packets[1..]);
    }
  }

  /** Sending a listed identifier back with Hg selects exactly the core it stands for. */
  lemma ListedThreadSelectsItsCore(s: Server, i: nat)
    requires i < |s.cores| < 0x8000_0000
    ensures SelectThread(s, ThreadText(i))
         == Result(Send(s.(ptid := Ptids.Value(i + 1, 1), currentCpu := i), Ok), Done)
  {
    hide Ptids.Encode, Ptids.Decode;
    Ptids.PtidRoundTrip(s.ptid, Ptids.Value(i + 1, 1));
  }

  /** An exit call kills its core whether or not exits are set to kill.  Not being set to, which is
      meant to keep the core alive, keeps it in the listing only: it is dead, counted off, and no
      vCont action resumes it. */
  lemma ExitKillsWhateverTheSetting(s: Server, env: Env, meant: ResumeType)
    requires s.currentCpu < |s.cores| < 0x1_0000_0000 && !s.handlingSyscall
    requires (if s.haveArgLocs then s.haveSupport else env.supports) && env.syscallId == EXIT_CALL
    ensures var s', i := SyscallRequest(s, env).server, s.currentCpu;
            && !s'.cores[i].isLive && s'.liveCores == Decrement(s.liveCores)
            && (s'.cores[i].isLive == !s.killCoreOnExit <==> s.killCoreOnExit)
            && ResumeTypeFor(s'.cores[i], meant) == Idle
            && (i in Listed(s', 0) <==> !s.killCoreOnExit)
  {
    var s' := SyscallRequest(s, env).server;
    hide Listed;
    ListedIncreases(s', 0);
  }
}
