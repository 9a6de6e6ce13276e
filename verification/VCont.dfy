/** Decoding vCont packets (VContActions.cpp). */
module VCont {
  import opened Bytes
  import opened Split
  import opened Ptids

  datatype Action = Action(text: seq<byte>, ptid: Value)

  datatype ParseResult = Parsed(actions: seq<Action>) | Malformed | ParseAborted

  const HEADER_LENGTH: nat := 6  // strlen("vCont;")

  /** A C string read from a buffer ends at the first NUL. */
  function CString(s: seq<byte>): seq<byte> { s[..Find(s, 0)] }

  /** What follows the header.  A shorter payload is followed by the buffer's zero fill. */
  function ActionText(payload: seq<byte>): seq<byte> {
    CString(if |payload| >= HEADER_LENGTH then payload[HEADER_LENGTH..] else [])
  }

  /** One token: the identifier after its first `:`, or ALL and ALL. */
  function ParseToken(token: seq<byte>): ParseResult {
    var pos := Find(token, COLON);
    if pos == |token| then Parsed([Action(token, Value(PTID_ALL, PTID_ALL))])
    else
      match Decode(Value(PTID_ALL, PTID_ALL), token[pos + 1..])
      case AssertFailure => ParseAborted
      case Rejected => Malformed
      case Decoded(ptid) => if ptid.pid == 0 then Malformed else Parsed([Action(token, ptid)])
  }

  function ParseTokens(tokens: seq<seq<byte>>): ParseResult {
    if tokens == [] then Parsed([])
    else
      var first := ParseToken(tokens[0]);
      if !first.Parsed? then first
      else
        var rest := ParseTokens(tokens[1..]);
        if rest.Parsed? then Parsed(first.actions + rest.actions) else rest
  }

  function Parse(payload: seq<byte>): ParseResult {
    ParseTokens(Tokens(ActionText(payload), SEMICOLON))
  }

  /** The cast to unsigned int. */
  function ToU32(n: int): nat { n % 0x1_0000_0000 }

  predicate Applies(a: Action, num: nat) {
    ToU32(a.ptid.pid) == 0xFFFF_FFFF || ToU32(a.ptid.pid) == num
  }

  /** The letter of the leftmost action that applies to process `num`, or 0. */
  function CoreAction(actions: seq<Action>, num: nat): byte {
    if actions == [] then 0
    else if Applies(actions[0], num) && actions[0].text != [] then actions[0].text[0]
    else CoreAction(actions[1..], num)
  }

  /** CoreAction picks the leftmost applicable action, and 0 only when there is none. */
  lemma {:induction false} CoreActionIsLeftmost(actions: seq<Action>, num: nat)
    requires forall i | 0 <= i < |actions| :: actions[i].text != [] && 0 !in actions[i].text
    ensures CoreAction(actions, num) == 0 <==> forall i | 0 <= i < |actions| :: !Applies(actions[i], num)
    ensures CoreAction(actions, num) != 0 ==>
              exists i | 0 <= i < |actions| :: Applies(actions[i], num) && CoreAction(actions, num) == actions[i].text[0]
                && forall j | 0 <= j < i :: !Applies(actions[j], num)
  {
    if actions != [] {
      var rest := actions[1..];
      if Applies(actions[0], num) {
        assert actions[0].text[0] in actions[0].text;
      } else {
        CoreActionIsLeftmost(rest, num);
        assert forall i | 0 < i < |actions| :: actions[i] == rest[i - 1];
        if CoreAction(rest, num) != 0 {
          var i :| 0 <= i < |rest| && Applies(rest[i], num) && CoreAction(rest, num) == rest[i].text[0]
            && forall j | 0 <= j < i :: !Applies(rest[j], num);
          assert Applies(actions[i + 1], num);
          assert forall j | 0 <= j < i + 1 :: !Applies(actions[j], num);
        } else {
          forall i | 0 <= i < |actions| ensures !Applies(actions[i], num) {
            if i > 0 {
              assert !Applies(rest[i - 1], num);
            }
          }
        }
      }
    }
  }

  /** What parsing guarantees of its actions. */
  predicate GoodAction(a: Action) {
    a.text != [] && 0 !in a.text && a.ptid.pid != 0
  }

  lemma ParsedActionsAreGood(payload: seq<byte>)
    requires Parse(payload).Parsed?
    ensures forall a | a in Parse(payload).actions :: GoodAction(a)
  {
    var text := ActionText(payload);
    TokensLoseNothing(text, SEMICOLON);
    TokensFrom(text, SEMICOLON, 0);
    TokensAreGood(Tokens(text, SEMICOLON));
  }

  lemma {:induction false} TokensFrom(s: seq<byte>, d: byte, b: byte)
    requires Without(s, b)
    ensures forall t | t in Tokens(s, d) :: Without(t, b)
    decreases |s|
  {
    if s != [] {
      var k := if s[0] == d then 1 else Find(s, d);
      TokensFrom(s[k..], d, b);
    }
  }

  lemma TokenIsGood(token: seq<byte>)
    requires token != [] && Without(token, 0) && ParseToken(token).Parsed?
    ensures forall a | a in ParseToken(token).actions :: GoodAction(a)
  {
    assert 0 !in token;
  }

  lemma {:induction false} TokensAreGood(tokens: seq<seq<byte>>)
    requires forall t | t in tokens :: t != [] && Without(t, 0)
    requires ParseTokens(tokens).Parsed?
    ensures forall a | a in ParseTokens(tokens).actions :: GoodAction(a)
  {
    if tokens != [] {
      assert tokens[0] in tokens;
      TokenIsGood(tokens[0]);
      TokensAreGood(tokens[1..]);
    }
  }

  // ---- What a client means, and how it writes it ----

  /** An action letter, possibly with a signal, and the process it names, if any. */
  datatype Request = ForAll(text: seq<byte>) | For(text: seq<byte>, ptid: Value)

  predicate WellFormed(r: Request) {
    && r.text != [] && Without(r.text, SEMICOLON) && Without(r.text, COLON) && Without(r.text, 0)
    && (r.For? ==> Encodable(r.ptid.pid) && Encodable(r.ptid.tid) && r.ptid.pid != PTID_ANY
                   && !(r.ptid.pid == PTID_ALL && (r.ptid.tid == PTID_ALL || r.ptid.tid == PTID_ANY)))
  }

  function TokenOf(r: Request): seq<byte> {
    if r.ForAll? then r.text else r.text + [COLON] + Encode(r.ptid)
  }

  function TokensOf(requests: seq<Request>): seq<seq<byte>> {
    if requests == [] then [] else [TokenOf(requests[0])] + TokensOf(requests[1..])
  }

  function ActionOf(r: Request): Action {
    Action(TokenOf(r), if r.ForAll? then Value(PTID_ALL, PTID_ALL) else r.ptid)
  }

  function ActionsOf(requests: seq<Request>): seq<Action> {
    if requests == [] then [] else [ActionOf(requests[0])] + ActionsOf(requests[1..])
  }

  /** The packet: the six-character header and the requests joined by `;`. */
  function Payload(header: seq<byte>, requests: seq<Request>): seq<byte> {
    header + Join(TokensOf(requests), SEMICOLON)
  }

  lemma TokenRoundTrip(r: Request)
    requires WellFormed(r)
    ensures ParseToken(TokenOf(r)) == Parsed([ActionOf(r)])
    ensures TokenOf(r) != [] && Without(TokenOf(r), SEMICOLON) && Without(TokenOf(r), 0)
  {
    hide Decode, Encode;
    if r.For? {
      EncodeClean(r.ptid);
      PtidRoundTrip(Value(PTID_ALL, PTID_ALL), r.ptid);
      TokenSplits(r.text, Encode(r.ptid));
    } else {
      FindSkips(r.text, COLON, []);
    }
  }

  lemma EncodeClean(p: Value)
    requires Encodable(p.pid) && Encodable(p.tid)
    ensures Without(Encode(p), SEMICOLON) && Without(Encode(p), 0)
  {
    hide EncodeField, DecodeField;
    FieldRoundTrip(p.pid);
    FieldRoundTrip(p.tid);
  }

  lemma TokenSplits(text: seq<byte>, ptid: seq<byte>)
    requires Without(text, COLON)
    ensures var token := text + [COLON] + ptid;
            Find(token, COLON) == |text| < |token| && token[|text| + 1..] == ptid
  {
    FindSkips(text, COLON, ptid);
  }

  lemma {:induction false} TokensRoundTrip(requests: seq<Request>)
    requires forall r | r in requests :: WellFormed(r)
    ensures ParseTokens(TokensOf(requests)) == Parsed(ActionsOf(requests))
    ensures CleanTokens(TokensOf(requests), SEMICOLON)
    ensures Without(Join(TokensOf(requests), SEMICOLON), 0)
  {
    if requests != [] {
      TokenRoundTrip(requests[0]);
      TokensRoundTrip(requests[1..]);
      assert TokensOf(requests)[1..] == TokensOf(requests[1..]);
    }
  }

  /** Any list of well-formed requests survives the trip through text, split, identifier decoding
      and back, in order. */
  lemma VContRoundTrip(header: seq<byte>, requests: seq<Request>)
    requires |header| == HEADER_LENGTH && forall r | r in requests :: WellFormed(r)
    ensures Parse(Payload(header, requests)) == Parsed(ActionsOf(requests))
  {
    hide Join, Tokens, ParseTokens, TokensOf, ActionsOf, Find;
    TokensRoundTrip(requests);
    var text := Join(TokensOf(requests), SEMICOLON);
    assert Payload(header, requests)[HEADER_LENGTH..] == text;
    FindSkips(text, 0, []);
    assert text[..|text|] == text;
    TokensOfJoin(TokensOf(requests), SEMICOLON);
  }

  /** A token whose identifier is no identifier, or names process 0. */
  lemma BadToken(text: seq<byte>, ptid: seq<byte>)
    requires Without(text, COLON)
    ensures var decoded := Decode(Value(PTID_ALL, PTID_ALL), ptid);
            var r := ParseToken(text + [COLON] + ptid);
            && (r.ParseAborted? <==> decoded.AssertFailure?)
            && (r.Malformed? <==> decoded.Rejected? || (decoded.Decoded? && decoded.ptid.pid == 0))
  {
    hide Decode;
    TokenSplits(text, ptid);
  }

  lemma {:induction false} BadTokenSpoils(requests: seq<Request>, bad: seq<byte>, rest: seq<seq<byte>>)
    requires (forall r | r in requests :: WellFormed(r)) && !ParseToken(bad).Parsed?
    ensures ParseTokens(TokensOf(requests) + [bad] + rest) == ParseToken(bad)
  {
    hide ParseToken, WellFormed, TokenOf;
    var all := TokensOf(requests) + [bad] + rest;
    if requests == [] {
      assert all[0] == bad;
    } else {
      TokenRoundTrip(requests[0]);
      BadTokenSpoils(requests[1..], bad, rest);
      assert all[0] == TokenOf(requests[0]) && all[1..] == TokensOf(requests[1..]) + [bad] + rest;
    }
  }

  /** One bad token spoils the packet, whatever good requests come before and whatever comes after. */
  lemma BadTokenSpoilsPacket(header: seq<byte>, requests: seq<Request>, bad: seq<byte>, rest: seq<seq<byte>>)
    requires |header| == HEADER_LENGTH && forall r | r in requests :: WellFormed(r)
    requires !ParseToken(bad).Parsed?
    requires CleanTokens([bad] + rest, SEMICOLON) && forall t | t in [bad] + rest :: Without(t, 0)
    ensures Parse(header + Join(TokensOf(requests) + [bad] + rest, SEMICOLON)) == ParseToken(bad)
  {
    TokensRoundTrip(requests);
    var all := TokensOf(requests) + [bad] + rest;
    NulFree(requests);
    assert CleanTokens(all, SEMICOLON) && forall t | t in all :: Without(t, 0) by {
      assert all == TokensOf(requests) + ([bad] + rest);
    }
    hide Join, Tokens, ParseTokens, ParseToken, TokensOf, Find;
    var text := Join(all, SEMICOLON);
    JoinWithout(all, SEMICOLON, 0);
    assert (header + text)[HEADER_LENGTH..] == text;
    FindSkips(text, 0, []);
    assert text[..|text|] == text;
    TokensOfJoin(all, SEMICOLON);
    BadTokenSpoils(requests, bad, rest);
  }

  lemma {:induction false} NulFree(requests: seq<Request>)
    requires forall r | r in requests :: WellFormed(r)
    ensures forall t | t in TokensOf(requests) :: Without(t, 0)
  {
    hide WellFormed, TokenOf;
    if requests != [] {
      TokenRoundTrip(requests[0]);
      NulFree(requests[1..]);
    }
  }

  lemma {:induction false} JoinWithout(parts: seq<seq<byte>>, d: byte, b: byte)
    requires d != b && forall t | t in parts :: Without(t, b)
    ensures Without(Join(parts, d), b)
  {
    if parts != [] {
      assert parts[0] in parts;
      JoinWithout(parts[1..], d, b);
    }
  }

  /** A packet that ends before its header does asks for nothing. */
  lemma ShortPacketAsksNothing(payload: seq<byte>)
    requires |payload| <= HEADER_LENGTH
    ensures Parse(payload) == Parsed([])
  {
    assert ActionText(payload) == [];
  }

  /** A NUL ends the packet for the parser: what comes after it does not matter. */
  lemma ParseStopsAtNul(header: seq<byte>, text: seq<byte>, rest: seq<byte>)
    requires |header| == HEADER_LENGTH && Without(text, 0)
    ensures Parse(header + text + [0] + rest) == Parse(header + text)
  {
    hide ParseTokens, Tokens, Find;
    assert (header + text + [0] + rest)[HEADER_LENGTH..] == text + [0] + rest;
    assert (header + text)[HEADER_LENGTH..] == text;
    FindSkips(text, 0, rest);
    assert (text + [0] + rest)[..|text|] == text == text[..|text|];
  }

  /** The result once the actions parsed so far are put in front. */
  function Following(done: seq<Action>, r: ParseResult): ParseResult {
    if r.Parsed? then Parsed(done + r.actions) else r
  }

  lemma ParseNext(done: seq<Action>, tokens: seq<seq<byte>>)
    requires tokens != []
    ensures Following(done, ParseTokens(tokens))
         == if ParseToken(tokens[0]).Parsed? then Following(done + ParseToken(tokens[0]).actions, ParseTokens(tokens[1..]))
            else ParseToken(tokens[0])
  {
    var first, rest := ParseToken(tokens[0]), ParseTokens(tokens[1..]);
    if first.Parsed? && rest.Parsed? {
      assert done + (first.actions + rest.actions) == done + first.actions + rest.actions;
    }
  }

  class VContActions {
    var mActions: seq<Action>
    var mValid: bool

    constructor ()
      ensures mActions == [] && !mValid
    {
      mActions, mValid := [], false;
    }

    /** Set up from a packet's payload; `aborted` stands for a failed assertion in hex2Val. */
    method ParsePayload(payload: seq<byte>) returns (aborted: bool)
      modifies this
      ensures aborted == Parse(payload).ParseAborted?
      ensures mValid == Parse(payload).Parsed?
      ensures mValid ==> mActions == Parse(payload).actions
    {
      hide Tokens, ParseToken;
      var text := if |payload| >= HEADER_LENGTH then payload[HEADER_LENGTH..] else [];
      var end := FindFrom(text, 0);
      var tokens := SplitString(text[..end], SEMICOLON);
      mActions, mValid, aborted := [], false, false;
      var i := 0;
      assert tokens[0..] == tokens;
      while i < |tokens|
        invariant 0 <= i <= |tokens| && !mValid && !aborted
        invariant Parse(payload) == Following(mActions, ParseTokens(tokens[i..]))
      {
        ParseNext(mActions, tokens[i..]);
        assert tokens[i..][1..] == tokens[i + 1..];
        var r := ParseOneToken(tokens[i]);
        if !r.Parsed? {
          aborted := r.ParseAborted?;
          return;
        }
        mActions := mActions + r.actions;
        i := i + 1;
      }
      mValid := true;
    }

    method ParseOneToken(token: seq<byte>) returns (r: ParseResult)
      ensures r == ParseToken(token)
    {
      hide Decode;
      var ptid := new Ptid(PTID_ALL, PTID_ALL);
      var pos := FindFrom(token, COLON);
      if pos != |token| {
        var d := ptid.DecodeText(token[pos + 1..]);
        if d.AssertFailure? {
          return ParseAborted;
        }
        if d.Rejected? || ptid.mPid == 0 {
          return Malformed;
        }
      }
      return Parsed([Action(token, ptid.View())]);
    }

    method GetCoreAction(num: nat) returns (letter: byte)
      requires mValid && forall a | a in mActions :: GoodAction(a)
      ensures letter == CoreAction(mActions, num)
    {
      var i := 0;
      assert mActions[0..] == mActions;
      while i < |mActions|
        invariant 0 <= i <= |mActions| && CoreAction(mActions, num) == CoreAction(mActions[i..], num)
      {
        var a := mActions[i];
        assert mActions[i..][1..] == mActions[i + 1..];
        if ToU32(a.ptid.pid) == 0xFFFF_FFFF || ToU32(a.ptid.pid) == num {
          assert a in mActions;
          return a.text[0];
        }
        i := i + 1;
      }
      letter := 0;
    }
  }
}
