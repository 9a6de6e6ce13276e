/** AbstractConnection: the link layer over a raw byte stream (AbstractConnection.cpp). */
module Connection {
  import opened Bytes
  import opened Framing
  import opened PacketBuilder
  import Receiver
  import Sender
  import Pushback

  /** `current` is what is still to come of `goal`, with `sent` already written. */
  ghost predicate Continues(goal: Receiver.Reception, sent: seq<byte>, current: Receiver.Reception) {
    goal == current.(replies := sent + current.replies)
  }

  lemma Continue(goal: Receiver.Reception, sent: seq<byte>, here: Receiver.Reception, reply: seq<byte>, next: Receiver.Reception)
    requires Continues(goal, sent, here) && Continues(here, reply, next)
    ensures Continues(goal, sent + reply, next)
  {
    assert sent + (reply + next.replies) == sent + reply + next.replies;
  }

  lemma Appended(before: seq<byte>, sent: seq<byte>, reply: seq<byte>)
    ensures before + sent + reply == before + (sent + reply)
  {
  }

  class AbstractConnection {
    /** The transport: bytes not read yet, bytes written, and how many more the client will take. */
    var input: seq<byte>
    var output: seq<byte>
    var credit: nat

    var mHavePendingBreak: bool
    var mNoAckMode: bool
    var mGetCharBuf: int
    var mNumGetBufChars: nat

    const maxPacketSize: nat

    ghost predicate Valid()
      reads this
    {
      mNumGetBufChars <= 1 && (mNumGetBufChars == 1 ==> 0 <= mGetCharBuf < 256)
    }

    ghost function View(): (l: Pushback.Link)
      requires Valid()
      reads this
      ensures Pushback.Valid(l)
    {
      Pushback.Link(input, if mNumGetBufChars == 1 then [mGetCharBuf] else [], mHavePendingBreak)
    }

    ghost function Unread(): seq<byte>
      requires Valid()
      reads this
    {
      Pushback.Unread(View())
    }

    ghost function Config(): Receiver.Config
      reads this
    {
      Receiver.Config(maxPacketSize, mNoAckMode, false)
    }

    constructor (input: seq<byte>, credit: nat, maxPacketSize: nat)
      ensures Valid() && View() == Pushback.Link(input, [], false)
      ensures output == [] && this.credit == credit && this.maxPacketSize == maxPacketSize && !mNoAckMode
    {
      this.input, this.output, this.credit := input, [], credit;
      mHavePendingBreak, mNoAckMode, mNumGetBufChars := false, false, 0;
      mGetCharBuf := 0;
      this.maxPacketSize := maxPacketSize;
    }

    /** The raw read: -1 at the end of the stream, or if it would block and must not. */
    method GetRspCharRaw(blocking: bool, ready: bool) returns (ch: int)
      modifies this`input
      ensures ch == -1 ==> input == old(input) && (input == [] || !(blocking || ready))
      ensures ch != -1 ==> old(input) != [] && ch == old(input)[0] && input == old(input)[1..]
      ensures ch != -1 ==> blocking || ready
    {
      if input == [] || !(blocking || ready) {
        return -1;
      }
      ch := input[0];
      input := input[1..];
    }

    method PutRspChar(c: byte) returns (ok: bool)
      modifies this`output, this`credit
      ensures ok == (old(credit) > 0)
      ensures ok ==> output == old(output) + [c] && credit == old(credit) - 1
      ensures !ok ==> output == old(output) && credit == 0
    {
      if credit == 0 {
        return false;
      }
      output := output + [c];
      credit := credit - 1;
      ok := true;
    }

    method GetRspChar() returns (ch: int)
      requires Valid()
      modifies this`input, this`mNumGetBufChars
      ensures Valid() && mNumGetBufChars == 0
      ensures View() == Pushback.GetChar(old(View())).0
      ensures Pushback.GetChar(old(View())).1 == if ch == -1 then [] else [ch]
      ensures ch == -1 ==> old(Unread()) == [] && Unread() == []
      ensures ch != -1 ==> 0 <= ch < 256 && old(Unread()) == [ch] + Unread()
    {
      if mNumGetBufChars > 0 {
        ch := mGetCharBuf;
        mNumGetBufChars := 0;
      } else {
        ch := GetRspCharRaw(true, true);
      }
    }

    method HaveBreak(ready: bool) returns (answer: bool)
      requires Valid()
      modifies this`input, this`mHavePendingBreak, this`mGetCharBuf, this`mNumGetBufChars
      ensures Valid() && (View(), answer) == Pushback.Poll(old(View()), ready)
      ensures answer <==> old(mHavePendingBreak)
                          || (old(mNumGetBufChars) == 0 && ready && old(input) != [] && old(input)[0] == 0x03)
    {
      if !mHavePendingBreak && mNumGetBufChars == 0 {
        var nextChar := GetRspCharRaw(false, ready);
        if nextChar != -1 {
          if nextChar == BREAK {
            mHavePendingBreak := true;
          } else {
            mGetCharBuf := nextChar;
            mNumGetBufChars := 1;
          }
        }
      }
      if mHavePendingBreak {
        mHavePendingBreak := false;
        answer := true;
      } else {
        answer := false;
      }
    }

    /** Wait around for the start character, ignoring all others. */
    method SkipToStart(ghost buf: seq<byte>, ghost cfg: Receiver.Config, ghost left: nat) returns (found: bool)
      requires Valid() && |buf| <= cfg.capacity && !cfg.eraseAtStart
      modifies this`input, this`mNumGetBufChars
      ensures Valid() && mNumGetBufChars == 0
      ensures found ==> |Unread()| < old(|Unread()|)
                        && Receiver.Hunt(old(Unread()), buf, cfg, left) == Receiver.Body(Unread(), buf, 0, cfg, left)
      ensures !found ==> Unread() == []
                         && Receiver.Hunt(old(Unread()), buf, cfg, left) == Receiver.Reception(Receiver.CommsFailure, [], [])
    {
      ghost var u := Unread();
      ghost var goal := Receiver.Hunt(u, buf, cfg, left);
      var ch := GetRspChar();
      while ch != DOLLAR
        invariant Valid() && mNumGetBufChars == 0
        invariant ch == -1 ==> Unread() == [] && goal == Receiver.Reception(Receiver.CommsFailure, [], [])
        invariant ch != -1 ==> 0 <= ch < 256 && |Unread()| < |u|
        invariant ch != -1 ==> goal == Receiver.Hunt([ch] + Unread(), buf, cfg, left)
        decreases |Unread()|, ch
      {
        if ch == -1 {
          return false;
        }
        assert ([ch] + Unread())[1..] == Unread();
        ch := GetRspChar();
      }
      assert ([ch] + Unread())[1..] == Unread();
      found := true;
    }

    /** Read until a '#' or the end of the buffer is found. */
    method ReadBody(newPkt: RspPacketBuilder, ghost cfg: Receiver.Config, ghost left: nat) returns (ch: int, checksum: byte)
      requires Valid() && newPkt.Valid() && newPkt.data.Length == cfg.capacity
      requires mNumGetBufChars == 0
      modifies this`input, this`mNumGetBufChars, newPkt`len, newPkt.data
      ensures Valid() && newPkt.Valid() && mNumGetBufChars == 0 && |Unread()| <= old(|Unread()|)
      ensures Receiver.Body(old(Unread()), old(newPkt.Contents()), 0, cfg, left)
           == if ch == -1 then Receiver.Reception(Receiver.CommsFailure, [], [])
              else if ch == HASH then Receiver.Trailer(Unread(), newPkt.Contents(), checksum, cfg, left)
              else Receiver.Hunt(Unread(), newPkt.Contents(), cfg, left)
      ensures ch == -1 ==> Unread() == []
      ensures ch == HASH ==> |newPkt.Contents()| < cfg.capacity
    {
      ghost var goal := Receiver.Body(Unread(), newPkt.Contents(), 0, cfg, left);
      ch := DOLLAR;
      checksum := 0;
      while newPkt.GetRemaining() > 0
        invariant Valid() && mNumGetBufChars == 0 && |Unread()| <= old(|Unread()|)
        invariant newPkt.Valid() && ch != HASH && ch != -1
        invariant goal == Receiver.Body(Unread(), newPkt.Contents(), checksum, cfg, left)
        decreases |Unread()|
      {
        ghost var u := Unread();
        ch := GetRspChar();
        if ch == -1 {
          return;
        }
        assert u[0] == ch && u[1..] == Unread();
        if ch == DOLLAR {
          checksum := 0;
          newPkt.Erase();
          continue;
        }
        if ch == HASH {
          return;
        }
        checksum := (checksum + ch) % 256;
        newPkt.AppendChar(ch);
      }
    }

    method GetPkt() returns (outcome: Receiver.Outcome)
      requires Valid()
      modifies this`input, this`mNumGetBufChars, this`output, this`credit
      ensures Valid()
      ensures var (l, r) := Pushback.Receive(old(View()), Config(), old(credit));
              && outcome == r.outcome && View() == l
              && output == old(output) + r.replies && credit == old(credit) - |r.replies|
    {
      hide Receiver.Hunt;
      ghost var goal := Receiver.Hunt(Unread(), [], Config(), credit);
      ghost var sent: seq<byte> := [];
      Receiver.HuntReadsPrefix(Unread(), [], Config(), credit);
      var newPkt := new RspPacketBuilder(maxPacketSize);

      // Each turn reads one frame; only a matching checksum or a dead connection ends the loop.
      var done := false;
      outcome := Receiver.CommsFailure;
      while !done
        invariant Valid() && newPkt.Valid() && newPkt.data.Length == maxPacketSize && fresh(newPkt.data)
        invariant output == old(output) + sent && credit == old(credit) - |sent|
        invariant !done ==> Continues(goal, sent, Receiver.Hunt(Unread(), newPkt.Contents(), Config(), credit))
        invariant done ==> mNumGetBufChars == 0 && goal == Receiver.Reception(outcome, Unread(), sent)
        decreases !done, |Unread()|
      {
        ghost var reply, here := [], Receiver.Hunt(Unread(), newPkt.Contents(), Config(), credit);
        done, outcome, reply := ReceiveOnce(newPkt, Config());
        if !done {
          Continue(goal, sent, here, reply, Receiver.Hunt(Unread(), newPkt.Contents(), Config(), credit));
        }
        Appended(old(output), sent, reply);
        sent := sent + reply;
      }
    }

    /** One turn of the loop: find a start, read a body, and answer it if it ended. */
    method ReceiveOnce(newPkt: RspPacketBuilder, ghost cfg: Receiver.Config)
      returns (done: bool, outcome: Receiver.Outcome, ghost reply: seq<byte>)
      requires Valid() && newPkt.Valid() && newPkt.data.Length == cfg.capacity && cfg == Config()
      modifies this`input, this`mNumGetBufChars, this`output, this`credit, newPkt`len, newPkt.data
      ensures Valid() && newPkt.Valid() && mNumGetBufChars == 0
      ensures output == old(output) + reply && credit == old(credit) - |reply|
      ensures var r := Receiver.Hunt(old(Unread()), old(newPkt.Contents()), cfg, old(credit));
        if done then r == Receiver.Reception(outcome, Unread(), reply)
        else |Unread()| < old(|Unread()|)
             && Continues(r, reply, Receiver.Hunt(Unread(), newPkt.Contents(), cfg, credit))
    {
      reply := [];
      var found := SkipToStart(newPkt.Contents(), cfg, credit);
      if !found {
        return true, Receiver.CommsFailure, [];
      }
      var ch, checksum := ReadBody(newPkt, cfg, credit);
      if ch == -1 {
        return true, Receiver.CommsFailure, [];
      }
      if ch == HASH {
        ghost var written := output;
        done, outcome := Answer(newPkt.Contents(), checksum, cfg);
        reply := output[|written|..];
      } else {
        done, outcome := false, Receiver.CommsFailure;  // the packet overran the buffer
      }
    }

    /** Read the checksum digits and acknowledge; `done` unless the client has to send again. */
    method Answer(payload: seq<byte>, checksum: byte, ghost cfg: Receiver.Config)
      returns (done: bool, outcome: Receiver.Outcome)
      requires Valid() && cfg == Config() && |payload| < cfg.capacity && mNumGetBufChars == 0
      modifies this`input, this`mNumGetBufChars, this`output, this`credit
      ensures Valid() && mNumGetBufChars == 0 && |Unread()| <= old(|Unread()|)
      ensures var r := Receiver.Trailer(old(Unread()), payload, checksum, cfg, old(credit));
        if done then outcome == r.outcome && Unread() == r.rest && output == old(output) + r.replies
                     && credit == old(credit) - |r.replies|
        else old(credit) > 0 && output == old(output) + [MINUS] && credit == old(credit) - 1
             && r == Receiver.After(MINUS, Receiver.Hunt(Unread(), payload, cfg, credit))
    {
      var trailer := ReadTrailer();
      if !trailer.Accepted? {
        return true, trailer;
      }
      if mNoAckMode {
        return true, Receiver.Accepted(payload);
      }
      if checksum != trailer.payload[0] {
        var ok := PutRspChar(MINUS);
        if !ok {
          return true, Receiver.CommsFailure;
        }
        return false, Receiver.CommsFailure;
      }
      var ok := PutRspChar(PLUS);
      if !ok {
        return true, Receiver.CommsFailure;
      }
      return true, Receiver.Accepted(payload);
    }

    /** The two digits after `#`, as a one-byte payload, or why there is none. */
    method ReadTrailer() returns (r: Receiver.Outcome)
      requires Valid()
      modifies this`input, this`mNumGetBufChars
      ensures Valid() && mNumGetBufChars == 0
      ensures var u := old(Unread());
        if u == [] || (IsHexDigit(u[0]) && |u| == 1) then r == Receiver.CommsFailure && Unread() == []
        else if !IsHexDigit(u[0]) then r == Receiver.AssertFailure && Unread() == u[1..]
        else if !IsHexDigit(u[1]) then r == Receiver.AssertFailure && Unread() == u[2..]
        else r == Receiver.Accepted([Receiver.DigitPair(u[0], u[1])]) && Unread() == u[2..]
    {
      ghost var u := Unread();
      var ch := GetRspChar();
      if ch == -1 {
        return Receiver.CommsFailure;
      }
      assert u[0] == ch && u[1..] == Unread();
      if !IsHexDigit(ch) {
        return Receiver.AssertFailure;
      }
      var xmitcsum := Char2Hex(ch) * 16;
      ch := GetRspChar();
      if ch == -1 {
        return Receiver.CommsFailure;
      }
      assert u[1] == ch && u[2..] == Unread();
      if !IsHexDigit(ch) {
        return Receiver.AssertFailure;
      }
      xmitcsum := xmitcsum + Char2Hex(ch);
      return Receiver.Accepted([xmitcsum]);
    }

    /** One byte of a body, preceded by `}` if it must be escaped. */
    method PutEscaped(data: byte, sum: byte) returns (ok: bool, checksum: byte)
      modifies this`output, this`credit
      ensures ok == (|EscapeByte(data)| <= old(credit))
      ensures ok ==> checksum == RunSum(sum, EscapeByte(data))
      ensures 0 <= old(credit) - credit <= |EscapeByte(data)|
      ensures output == old(output) + EscapeByte(data)[..old(credit) - credit]
      ensures if ok then credit == old(credit) - |EscapeByte(data)| else credit == 0
    {
      RunSumTwo(sum, if NeedsEscape(data) then BRACE else data, FlipBit5(data));
      var ch := data;
      checksum := sum;
      if NeedsEscape(ch) {
        ch := FlipBit5(ch);
        checksum := (checksum + BRACE) % 256;
        ok := PutRspChar(BRACE);
        if !ok {
          return;
        }
      }
      checksum := (checksum + ch) % 256;
      ok := PutRspChar(ch);
    }

    /** The body of a frame, escaping as it goes. */
    method PutBody(data: seq<byte>) returns (ok: bool, checksum: byte)
      modifies this`output, this`credit
      ensures ok == (|Escape(data)| <= old(credit))
      ensures ok ==> checksum == Checksum(Escape(data))
      ensures 0 <= old(credit) - credit <= |Escape(data)|
      ensures output == old(output) + Escape(data)[..old(credit) - credit]
      ensures if ok then credit == old(credit) - |Escape(data)| else credit == 0
    {
      hide Escape, Checksum, EscapeByte;
      EscapeNone(data);
      checksum := 0;
      var count := 0;
      while count < |data|
        invariant 0 <= count <= |data|
        invariant checksum == Checksum(Escape(data[..count]))
        invariant credit == old(credit) - |Escape(data[..count])|
        invariant output == old(output) + Escape(data[..count])
      {
        EscapeNext(data, count);
        EscapeRest(data, count + 1);
        ok, checksum := PutEscaped(data[count], checksum);
        if !ok {
          return;
        }
        count := count + 1;
      }
      assert data[..count] == data;
      ok := true;
    }

    /** One whole frame, or as much of it as the client takes. */
    method PutFrame(data: seq<byte>) returns (ok: bool)
      modifies this`output, this`credit
      ensures ok == (|Frame(data)| <= old(credit))
      ensures 0 <= old(credit) - credit <= |Frame(data)|
      ensures output == old(output) + Frame(data)[..old(credit) - credit]
      ensures if ok then credit == old(credit) - |Frame(data)| else credit == 0
    {
      FramePrefixes(data);
      hide Escape, Checksum, Frame;
      var checksum: byte;
      ok := PutRspChar(DOLLAR);
      if !ok {
        return;
      }
      ok, checksum := PutBody(data);
      if !ok {
        return;
      }
      ok := PutRspChar(HASH);
      if !ok {
        return;
      }
      ok := PutRspChar(Hex2Char(checksum / 16));
      if !ok {
        return;
      }
      ok := PutRspChar(Hex2Char(checksum % 16));
    }

    /** Send a packet and wait for its acknowledgement, sending again until it comes. */
    method PutPkt(pkt: seq<byte>) returns (outcome: Sender.SendOutcome)
      requires Valid()
      modifies this`input, this`mNumGetBufChars, this`mHavePendingBreak, this`output, this`credit
      ensures Valid()
      ensures var (l, t) := Pushback.Send(old(View()), pkt, mNoAckMode, old(credit));
              && outcome == t.outcome && View() == l
              && output == old(output) + t.wire && credit == old(credit) - |t.wire|
    {
      hide Sender.Transmit, Frame, Pushback.SendTurn;
      ghost var sent: seq<byte>, l0, l, frame := [], View(), View(), Frame(pkt);
      ghost var t := Sender.Transmit(frame, Unread(), mNoAckMode, credit, mHavePendingBreak);
      ghost var goal := t;
      var done := false;
      outcome := Sender.CommsFailure;
      while !done
        invariant Valid() && View() == l
        invariant output == old(output) + sent && credit == old(credit) - |sent|
        invariant Pushback.Owes(l0, goal, sent, l, t)
        invariant done ==> t == Sender.Transmission(outcome, Pushback.Unread(l), [], l.pending)
        invariant !done ==> t == Sender.Transmit(frame, Pushback.Unread(l), mNoAckMode, credit, l.pending)
        decreases !done, |Pushback.Unread(l)|
      {
        Pushback.SendTurnOwes(l0, goal, sent, l, frame, mNoAckMode, credit);
        ghost var turn := Pushback.SendTurn(l, frame, mNoAckMode, credit);
        done, outcome := SendOnce(pkt);
        Appended(old(output), sent, turn.wire);
        sent, l := sent + turn.wire, turn.link;
        t := if done then Sender.Transmission(outcome, Pushback.Unread(l), [], l.pending)
             else Sender.Transmit(frame, Pushback.Unread(l), mNoAckMode, credit, l.pending);
      }
    }

    /** One turn of the loop: write the frame and read one answer. */
    method SendOnce(pkt: seq<byte>) returns (done: bool, outcome: Sender.SendOutcome)
      requires Valid()
      modifies this`input, this`mNumGetBufChars, this`mHavePendingBreak, this`output, this`credit
      ensures Valid()
      ensures var turn := Pushback.SendTurn(old(View()), Frame(pkt), mNoAckMode, old(credit));
              && View() == turn.link && done == turn.done && outcome == turn.outcome
              && output == old(output) + turn.wire && credit == old(credit) - |turn.wire|
    {
      hide Frame, Sender.ReadAnswer;
      var ok := PutFrame(pkt);
      if !ok {
        return true, Sender.CommsFailure;
      }
      if mNoAckMode {
        return true, Sender.Delivered;
      }
      var verdict := ReadAck();
      done := verdict != Sender.Resend;
      outcome := match verdict
        case Closed => Sender.CommsFailure
        case TwoBreaks => Sender.AssertFailure
        case _ => Sender.Delivered;
    }

    /** Read the acknowledgement, noting a break that arrives just before it. */
    method ReadAck() returns (verdict: Sender.Verdict)
      requires Valid()
      modifies this`input, this`mNumGetBufChars, this`mHavePendingBreak
      ensures Valid()
      ensures var (v, k, brk) := Sender.ReadAnswer(old(Unread()));
              && verdict == v && Unread() == old(Unread())[k..]
              && mHavePendingBreak == (old(mHavePendingBreak) || brk)
              && (if k == 0 then View() == old(View()) else mNumGetBufChars == 0)
    {
      ghost var u := Unread();
      var ch := GetRspChar();
      if ch == -1 {
        return Sender.Closed;
      }
      assert u[0] == ch && u[1..] == Unread();
      if ch == BREAK {
        mHavePendingBreak := true;
        ch := GetRspChar();
        assert ch != -1 ==> u[1] == ch && u[2..] == Unread();
        if ch == BREAK {
          return Sender.TwoBreaks;
        }
      }
      verdict := if ch == PLUS then Sender.Ack else Sender.Resend;
    }
  }

  /** The escaped data up to and including byte `k`, and the checksum that far. */
  lemma EscapeNext(data: seq<byte>, k: nat)
    requires k < |data|
    ensures Escape(data[..k + 1]) == Escape(data[..k]) + EscapeByte(data[k])
    ensures Checksum(Escape(data[..k + 1])) == RunSum(Checksum(Escape(data[..k])), EscapeByte(data[k]))
  {
    EscapeAppend(data[..k], [data[k]]);
    assert data[..k] + [data[k]] == data[..k + 1];
    assert Escape([data[k]]) == EscapeByte(data[k]) + Escape([]);
    RunSumAppend(0, Escape(data[..k]), EscapeByte(data[k]));
  }

  lemma EscapeNone(data: seq<byte>)
    ensures Escape(data[..0]) == [] && Checksum([]) == 0
  {
  }

  /** A frame, character by character around its body. */
  lemma FramePrefixes(data: seq<byte>)
    ensures var f, e, pair := Frame(data), Escape(data), HexPair(Checksum(Escape(data)));
            && |f| == |e| + 4 && f[..0] == [] && f[..1] == [DOLLAR]
            && (forall k | 0 <= k <= |e| :: f[..1 + k] == f[..1] + e[..k])
            && f[..2 + |e|] == f[..1] + e + [HASH]
            && f[..3 + |e|] == f[..2 + |e|] + [pair[0]] && f[..4 + |e|] == f == f[..3 + |e|] + [pair[1]]
  {
    hide Escape, Checksum;
  }

  lemma RunSumTwo(sum: byte, a: byte, b: byte)
    ensures RunSum(sum, [a]) == (sum + a) % 256
    ensures RunSum(sum, [a, b]) == ((sum + a) % 256 + b) % 256
  {
    assert [a, b][1..] == [b] && [b][1..] == [];
    assert RunSum((sum + a) % 256, [b]) == ((sum + a) % 256 + b) % 256;
  }

  lemma EscapeRest(data: seq<byte>, k: nat)
    requires k <= |data|
    ensures Escape(data) == Escape(data[..k]) + Escape(data[k..])
  {
    hide Escape;
    EscapeAppend(data[..k], data[k..]);
    assert data[..k] + data[k..] == data;
  }
}
