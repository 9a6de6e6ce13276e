/** What a vCont packet means for each core, from the client's requests to the vector handed to
    the target. */
module VContMeaning {
  import opened Bytes
  import opened Cores
  import opened Scheduler
  import opened Runs
  import opened VCont
  import opened Split
  import Ptids

  /** What the packet's actions ask of core `j`. */
  function Asked(actions: seq<Action>, j: nat): Option<ResumeType> {
    Meaning(CoreAction(actions, j + 1))
  }

  /** The first core from `i` whose action letter is unknown, or `n`. */
  function FirstUnknown(actions: seq<Action>, n: nat, i: nat): (k: nat)
    requires i <= n
    ensures i <= k <= n && (forall j | i <= j < k :: Asked(actions, j).Some?) && (k < n ==> Asked(actions, k).None?)
    decreases n - i
  {
    if i == n || Asked(actions, i).None? then i else FirstUnknown(actions, n, i + 1)
  }

  /** Core `j` once it has been told what to do. */
  function Told(core: CoreState, actions: seq<Action>, j: nat): CoreState
    requires Asked(actions, j).Some?
  {
    core.SetResumeType(ResumeTypeFor(core, Asked(actions, j).value))
  }

  lemma {:induction false} ApplyFromMeaning(cores: seq<CoreState>, actions: seq<Action>, i: nat)
    requires i <= |cores|
    ensures var (after, vector) := ApplyFrom(cores, actions, i);
            var k := FirstUnknown(actions, |cores|, i);
            && |after| == |cores|
            && (vector.Some? <==> k == |cores|)
            && (forall j | i <= j < k :: after[j] == Told(cores[j], actions, j))
            && (forall j | 0 <= j < i || k <= j < |cores| :: after[j] == cores[j])
            && (vector.Some? ==> |vector.value| == |cores| - i)
            && (vector.Some? ==> forall j | i <= j < |cores| :: vector.value[j - i] == after[j].resumeType)
    decreases |cores| - i
  {
    if i < |cores| && Asked(actions, i).Some? {
      var next := cores[i := Told(cores[i], actions, i)];
      ApplyFromMeaning(next, actions, i + 1);
      var (after, vector) := ApplyFrom(cores, actions, i);
      var (after', rest) := ApplyFrom(next, actions, i + 1);
      assert after == after';
      if vector.Some? {
        forall j | i <= j < |cores| ensures vector.value[j - i] == after[j].resumeType {
          if j > i {
            assert vector.value[j - i] == rest.value[j - (i + 1)];
          }
        }
      }
    }
  }

  /** An accepted packet: the target gets one entry per core, entry j is what the packet's actions
      ask of process j + 1, forced to none for a dead core; the stored resume types are that vector
      and nothing else of any core changes.  It is accepted exactly when every core's letter is
      known. */
  lemma AcceptedVector(s: Server, payload: seq<byte>)
    requires Parse(payload).Parsed?
    ensures var actions, n := Parse(payload).actions, |s.cores|;
            && (EnteringVCont(s, payload).Some? <==> forall j | 0 <= j < n :: Asked(actions, j).Some?)
            && (EnteringVCont(s, payload).Some? ==>
                  var e := EnteringVCont(s, payload).value;
                  && e.trace != [] && e.trace[..|e.trace| - 1] == s.trace && e.trace[|s.trace|].Prepared?
                  && var vector := e.trace[|s.trace|].actions;
                  && |vector| == n == |e.cores|
                  && (forall j | 0 <= j < n ::
                        && vector[j] == (if s.cores[j].isLive then Asked(actions, j).value else Idle)
                        && e.cores[j] == s.cores[j].(resumeType := vector[j])))
  {
    hide ApplyFrom, Parse, Asked;
    var actions, n := Parse(payload).actions, |s.cores|;
    ApplyFromMeaning(s.cores, actions, 0);
    var k := FirstUnknown(actions, n, 0);
    if EnteringVCont(s, payload).Some? {
      var (after, vector) := ApplyFrom(s.cores, actions, 0);
      forall j | 0 <= j < n ensures vector.value[j] == after[j].resumeType {
        assert vector.value[j - 0] == after[j].resumeType;
      }
    }
  }

  /** A refused packet: the cores before the first unknown letter have been changed all the same,
      the target is not told, and the answer is an error.  Nothing has changed exactly when each of
      those cores already had the resume type it was given. */
  lemma RefusedVContEffect(s: Server, payload: seq<byte>, env: Env)
    requires |s.cores| < 0x1_0000_0000 && Parse(payload).Parsed? && EnteringVCont(s, payload).None?
    ensures var actions, n := Parse(payload).actions, |s.cores|;
            var k, r := FirstUnknown(actions, n, 0), VContRequest(s, payload, env);
            && k < n && r.status == Done && r.server == Send(s.(cores := r.server.cores), Error)
            && (forall j | 0 <= j < k :: r.server.cores[j] == Told(s.cores[j], actions, j))
            && (forall j | k <= j < n :: r.server.cores[j] == s.cores[j])
            && (r.server.cores == s.cores <==> forall j | 0 <= j < k :: Told(s.cores[j], actions, j) == s.cores[j])
  {
    ApplyFromMeaning(s.cores, Parse(payload).actions, 0);
    var after := ApplyFrom(s.cores, Parse(payload).actions, 0).0;
    assert after == s.cores <==> forall j | 0 <= j < |s.cores| :: after[j] == s.cores[j];
  }

  // ---- From the client's requests ----

  predicate Names(r: Request, num: nat) {
    r.ForAll? || r.ptid.pid == Ptids.PTID_ALL || r.ptid.pid == num
  }

  /** The first request that names process `num`. */
  function Intended(requests: seq<Request>, num: nat): Option<Request> {
    if requests == [] then None
    else if Names(requests[0], num) then Some(requests[0])
    else Intended(requests[1..], num)
  }

  function Letter(r: Request): byte { if r.text == [] then 0 else r.text[0] }

  /** What the client wants of process `num`. */
  function Wanted(requests: seq<Request>, num: nat): ResumeType {
    match Intended(requests, num)
    case None => Idle
    case Some(r) => if Letter(r) in {LOWER_S, UPPER_S} then ResumeType.Step else Continue
  }

  /** The letters a client may use. */
  predicate KnownLetter(r: Request) {
    Letter(r) in {LOWER_C, UPPER_C, LOWER_S, UPPER_S}
  }

  lemma ActionOfRequest(r: Request, num: nat)
    requires WellFormed(r) && 1 <= num < 0xFFFF_FFFF
    ensures ActionOf(r).text != [] && ActionOf(r).text[0] == Letter(r)
    ensures Applies(ActionOf(r), num) <==> Names(r, num)
  {
    hide Ptids.Encode;
  }

  lemma {:induction false} ActionFollowsIntent(requests: seq<Request>, num: nat)
    requires forall r | r in requests :: WellFormed(r)
    requires 1 <= num < 0xFFFF_FFFF
    ensures CoreAction(ActionsOf(requests), num)
         == if Intended(requests, num).Some? then Letter(Intended(requests, num).value) else 0
    ensures Intended(requests, num).Some? ==> Intended(requests, num).value in requests
  {
    hide ActionOf, Names, Applies;
    if requests != [] {
      var r := requests[0];
      assert r in requests;
      ActionFollowsIntent(requests[1..], num);
      assert ActionsOf(requests)[1..] == ActionsOf(requests[1..]);
      ActionOfRequest(r, num);
    }
  }

  /** vCont semantics, end to end: whatever requests a client writes into a packet, each live core
      is told to step or continue as the leftmost request naming it says, and to do nothing if none
      does or if it is dead. */
  lemma ClientRequestsReachCores(s: Server, header: seq<byte>, requests: seq<Request>)
    requires |s.cores| < 0xFFFF_FFFF && |header| == HEADER_LENGTH
    requires forall r | r in requests :: WellFormed(r) && KnownLetter(r)
    ensures var payload := Payload(header, requests);
            && EnteringVCont(s, payload).Some?
            && var e := EnteringVCont(s, payload).value;
               && |e.cores| == |s.cores|
               && forall j | 0 <= j < |s.cores| ::
                    e.cores[j] == s.cores[j].(resumeType := if s.cores[j].isLive then Wanted(requests, j + 1) else Idle)
  {
    hide Payload, Parse, CoreAction, EnteringVCont, Intended;
    var payload := Payload(header, requests);
    VContRoundTrip(header, requests);
    AcceptedVector(s, payload);
    forall j | 0 <= j < |s.cores| ensures Asked(ActionsOf(requests), j) == Some(Wanted(requests, j + 1)) {
      WantedIsAsked(requests, j);
    }
  }

  lemma WantedIsAsked(requests: seq<Request>, j: nat)
    requires forall r | r in requests :: WellFormed(r) && KnownLetter(r)
    requires j + 1 < 0xFFFF_FFFF
    ensures Asked(ActionsOf(requests), j) == Some(Wanted(requests, j + 1))
  {
    hide CoreAction, Intended;
    ActionFollowsIntent(requests, j + 1);
  }

  // ---- The older packets ----

  /** A `c`, `C`, `s` or `S` packet is taken as one request for all: every live core continues or
      steps as its letter says, and a dead one does nothing.  (A packet too long to follow `vCont;` in
      a buffer is lost, and then no core is to run.) */
  lemma LegacyReachesCores(cfg: Config, s: Server, data: seq<byte>)
    requires |s.cores| < 0xFFFF_FFFF && 6 <= cfg.maxPacketSize
    requires WellFormed(ForAll(data)) && data[0] as char in {'c', 'C', 's', 'S'}
    ensures var entering := Entering(cfg, s, LegacyPacket(data));
            && entering.Some? && |entering.value.cores| == |s.cores|
            && forall j | 0 <= j < |s.cores| ::
                 entering.value.cores[j] == s.cores[j].(resumeType :=
                   if !s.cores[j].isLive || 6 + |data| > cfg.maxPacketSize then Idle
                   else if data[0] as char in {'s', 'S'} then ResumeType.Step else Continue)
  {
    hide EnteringVCont, Parse, Payload;
    var fits := 6 + |data| <= cfg.maxPacketSize;
    var requests := if fits then [ForAll(data)] else [];
    LegacyIsVCont(cfg, data);
    ClientRequestsReachCores(s, VCONT_HEADER, requests);
    assert LegacyPayload(data, cfg) == Payload(VCONT_HEADER, requests);
    var entered := Entering(cfg, s, LegacyPacket(data)).value.cores;
    forall j | 0 <= j < |s.cores|
      ensures entered[j] == s.cores[j].(resumeType := if s.cores[j].isLive then WantedOfAll(data, fits) else Idle)
    {
      WantedOfOne(data, j + 1);
    }
  }

  function WantedOfAll(data: seq<byte>, fits: bool): ResumeType
    requires data != []
  {
    if !fits then Idle else if data[0] as char in {'s', 'S'} then ResumeType.Step else Continue
  }

  lemma WantedOfOne(data: seq<byte>, num: nat)
    requires data != [] && data[0] as char in {'c', 'C', 's', 'S'}
    ensures Wanted([ForAll(data)], num) == WantedOfAll(data, true) && Wanted([], num) == WantedOfAll(data, false)
  {
    assert Intended([ForAll(data)], num) == Some(ForAll(data));
  }

  lemma LegacyIsVCont(cfg: Config, data: seq<byte>)
    requires 6 <= cfg.maxPacketSize
    ensures LegacyPayload(data, cfg)
         == Payload(VCONT_HEADER, if 6 + |data| <= cfg.maxPacketSize then [ForAll(data)] else [])
  {
    var requests := [ForAll(data)];
    assert requests[1..] == [];
    assert TokensOf(requests) == [data];
    assert [] + VCONT_HEADER == VCONT_HEADER;
    assert VCONT_HEADER + [] == VCONT_HEADER;
  }

  /** The header is the one the parser skips. */
  lemma VContHeader()
    ensures |VCONT_HEADER| == HEADER_LENGTH
    ensures forall i | 0 <= i < 6 :: VCONT_HEADER[i] as char == "vCont;"[i]
  {
  }

  // ---- Packets that are no vCont ----

  /** A packet with a bad token changes no core: it is answered with an error, or fails the assertion
      on the number of digits. */
  lemma BadRequestChangesNothing(
      s: Server, header: seq<byte>, requests: seq<Request>, text: seq<byte>, ptid: seq<byte>, rest: seq<seq<byte>>, env: Env)
    requires |s.cores| < 0x1_0000_0000 && |header| == HEADER_LENGTH
    requires (forall r | r in requests :: WellFormed(r)) && Without(text, COLON)
    requires var tokens := [text + [COLON] + ptid] + rest;
             CleanTokens(tokens, SEMICOLON) && forall t | t in tokens :: Without(t, 0)
    ensures var payload := header + Join(TokensOf(requests) + [text + [COLON] + ptid] + rest, SEMICOLON);
            var decoded := Ptids.Decode(Ptids.Value(Ptids.PTID_ALL, Ptids.PTID_ALL), ptid);
            && (decoded.Rejected? || (decoded.Decoded? && decoded.ptid.pid == 0) ==>
                  VContRequest(s, payload, env) == Result(s.(trace := s.trace + [Sent(Error)]), Done))
            && (decoded.AssertFailure? ==> VContRequest(s, payload, env) == Result(s, AssertFailed(TooManyDigits)))
  {
    hide Ptids.Decode, ParseToken, Parse, Join, TokensOf, WellFormed, CleanTokens, Without;
    BadToken(text, ptid);
    if !ParseToken(text + [COLON] + ptid).Parsed? {
      BadTokenSpoilsPacket(header, requests, text + [COLON] + ptid, rest);
    }
  }

  /** Continue process 1; something unknown of process 2. */
  const HALF_KNOWN: seq<Request> := [For([LOWER_C], Ptids.Value(1, 1)), For([120], Ptids.Value(2, 1))]

  lemma HalfKnownAsks()
    ensures forall r | r in HALF_KNOWN :: WellFormed(r)
    ensures Asked(ActionsOf(HALF_KNOWN), 0) == Some(Continue) && Asked(ActionsOf(HALF_KNOWN), 1) == None
  {
    var requests := HALF_KNOWN;
    assert requests[1..] == [requests[1]] && requests[1..][1..] == [];
    assert Intended(requests, 1) == Some(requests[0]);
    assert Intended(requests, 2) == Some(requests[1]);
    hide ActionsOf, CoreAction, Intended;
    ActionFollowsIntent(requests, 1);
    ActionFollowsIntent(requests, 2);
  }

  /** The refusal can leave a trace: continuing process 1 and asking something unknown of process 2
      is answered with an error, yet core 0 is left marked as running. */
  lemma RefusalCanLeaveATrace(header: seq<byte>, env: Env)
    requires |header| == HEADER_LENGTH
    ensures var r := VContRequest(Initial(2), Payload(header, HALF_KNOWN), env);
            r.status == Done && r.server.trace == [Sent(Error)] && |r.server.cores| == 2 && r.server.cores[0].IsRunning()
  {
    HalfKnownAsks();
    hide Payload, Parse, Asked, ActionsOf, VContRequest, WellFormed, EnteringVCont, HALF_KNOWN;
    var payload := Payload(header, HALF_KNOWN);
    VContRoundTrip(header, HALF_KNOWN);
    AcceptedVector(Initial(2), payload);
    RefusedVContEffect(Initial(2), payload, env);
  }
}
