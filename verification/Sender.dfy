/** What AbstractConnection::putPkt does with the client's answers, as a function of the stream. */
module Sender {
  import opened Bytes

  datatype SendOutcome = Delivered | CommsFailure | AssertFailure

  /** The outcome, the bytes left unread, what was written, and the pending-break flag. */
  datatype Transmission = Transmission(outcome: SendOutcome, rest: seq<byte>, wire: seq<byte>, pending: bool)

  function Again(frame: seq<byte>, t: Transmission): Transmission {
    t.(wire := frame + t.wire)
  }

  /** How one read of the client's answer ends. */
  datatype Verdict = Ack | Resend | Closed | TwoBreaks

  /** One answer, an optional break first: the verdict, how many bytes it took, whether a break
      came.  A break and then the end of the stream counts as a request to send again. */
  function ReadAnswer(s: seq<byte>): (r: (Verdict, nat, bool))
    ensures r.1 <= |s| && (r.0.Ack? || r.0.Resend? ==> r.1 > 0)
  {
    if s == [] then (Closed, 0, false)
    else if s[0] == BREAK then
      if |s| == 1 then (Resend, 1, true)
      else if s[1] == BREAK then (TwoBreaks, 2, true)
      else (if s[1] == PLUS then Ack else Resend, 2, true)
    else (if s[0] == PLUS then Ack else Resend, 1, false)
  }

  /** Write `frame` until the client answers `+`. */
  function Transmit(frame: seq<byte>, s: seq<byte>, noAck: bool, credit: nat, pending: bool): Transmission
    decreases |s|
  {
    if credit < |frame| then Transmission(CommsFailure, s, frame[..credit], pending)
    else if noAck then Transmission(Delivered, s, frame, pending)
    else
      var (verdict, k, brk) := ReadAnswer(s);
      match verdict
      case Closed => Transmission(CommsFailure, [], frame, pending)
      case TwoBreaks => Transmission(AssertFailure, s[k..], frame, true)
      case Ack => Transmission(Delivered, s[k..], frame, pending || brk)
      case Resend => Again(frame, Transmit(frame, s[k..], noAck, credit - |frame|, pending || brk))
  }

  /** One turn of the loop, given how the client answered it. */
  lemma TransmitTurn(frame: seq<byte>, s: seq<byte>, noAck: bool, credit: nat, pending: bool)
    ensures credit < |frame| ==>
              Transmit(frame, s, noAck, credit, pending) == Transmission(CommsFailure, s, frame[..credit], pending)
    ensures credit >= |frame| && noAck ==>
              Transmit(frame, s, noAck, credit, pending) == Transmission(Delivered, s, frame, pending)
    ensures credit >= |frame| && !noAck ==>
              var (verdict, k, brk) := ReadAnswer(s);
              && (k == 0 ==> s == [])
              && Transmit(frame, s, noAck, credit, pending)
                 == match verdict
                    case Closed => Transmission(CommsFailure, s[k..], frame, pending || brk)
                    case TwoBreaks => Transmission(AssertFailure, s[k..], frame, pending || brk)
                    case Ack => Transmission(Delivered, s[k..], frame, pending || brk)
                    case Resend => Again(frame, Transmit(frame, s[k..], noAck, credit - |frame|, pending || brk))
  {
  }

  // ---- The client's side ----

  /** One answer: perhaps a break, then the acknowledgement byte. */
  datatype Answer = Answer(brk: bool, ack: byte)

  function AnswerWire(a: Answer): seq<byte> {
    if a.brk then [BREAK, a.ack] else [a.ack]
  }

  function AnswerWires(answers: seq<Answer>): seq<byte> {
    if answers == [] then [] else AnswerWire(answers[0]) + AnswerWires(answers[1..])
  }

  /** `+` comes last and nowhere before; no answer is itself a break. */
  predicate FirstPlusLast(answers: seq<Answer>) {
    && answers != [] && answers[|answers| - 1].ack == PLUS
    && (forall i | 0 <= i < |answers| :: answers[i].ack != BREAK)
    && (forall i | 0 <= i < |answers| - 1 :: answers[i].ack != PLUS)
  }

  predicate AnyBreak(answers: seq<Answer>) {
    exists i | 0 <= i < |answers| :: answers[i].brk
  }

  lemma TransmitOneAnswer(frame: seq<byte>, a: Answer, s: seq<byte>, credit: nat, pending: bool)
    requires a.ack != BREAK && |frame| <= credit
    ensures Transmit(frame, AnswerWire(a) + s, false, credit, pending)
         == if a.ack == PLUS then Transmission(Delivered, s, frame, pending || a.brk)
            else Again(frame, Transmit(frame, s, false, credit - |frame|, pending || a.brk))
  {
    var t := AnswerWire(a) + s;
    assert t[|AnswerWire(a)|..] == s;
  }

  /** If the first `+` is the k-th answer, exactly k identical frames are written and exactly
      those answers are consumed; the pending flag records whether a break came with them. */
  lemma {:induction false} DeliveredOnFirstPlus(
      frame: seq<byte>, answers: seq<Answer>, tail: seq<byte>, credit: nat, pending: bool)
    requires FirstPlusLast(answers) && |Repeat(frame, |answers|)| <= credit
    ensures Transmit(frame, AnswerWires(answers) + tail, false, credit, pending)
         == Transmission(Delivered, tail, Repeat(frame, |answers|), pending || AnyBreak(answers))
    decreases answers
  {
    hide Transmit, FirstPlusLast, AnyBreak, Repeat, AnswerWire;
    AnswersTail(answers);
    var a, more := answers[0], answers[1..];
    var rest := AnswerWires(more) + tail;
    assert AnswerWires(answers) + tail == AnswerWire(a) + rest;
    RepeatNext(frame, |more|);
    TransmitOneAnswer(frame, a, rest, credit, pending);
    if more == [] {
      assert rest == tail;
    } else {
      DeliveredOnFirstPlus(frame, more, tail, credit - |frame|, pending || a.brk);
    }
  }

  lemma RepeatNext(frame: seq<byte>, k: nat)
    ensures Repeat(frame, k + 1) == frame + Repeat(frame, k)
    ensures k == 0 ==> Repeat(frame, k + 1) == frame
  {
  }

  lemma AnswersTail(answers: seq<Answer>)
    requires FirstPlusLast(answers)
    ensures |answers| > 0 && answers[0].ack != BREAK && (answers[0].ack == PLUS <==> |answers| == 1)
    ensures |answers| > 1 ==> FirstPlusLast(answers[1..])
    ensures AnyBreak(answers) <==> answers[0].brk || (|answers| > 1 && AnyBreak(answers[1..]))
  {
    AnyBreakFirst(answers);
    assert |answers| == 1 ==> answers[1..] == [];
    hide AnyBreak;
    var more := answers[1..];
    assert forall i | 0 <= i < |more| :: more[i] == answers[i + 1];
    assert AnyBreak([]) <==> false by { NoBreaks(); }
  }

  lemma NoBreaks()
    ensures !AnyBreak([])
  {
  }

  /** A delivery starts with one complete answer. */
  lemma FirstAnswer(frame: seq<byte>, s: seq<byte>, credit: nat, pending: bool) returns (a: Answer, rest: seq<byte>)
    requires Transmit(frame, s, false, credit, pending).outcome.Delivered?
    ensures |frame| <= credit && a.ack != BREAK && s == AnswerWire(a) + rest && |rest| < |s|
  {
    var (verdict, k, brk) := ReadAnswer(s);
    a, rest := Answer(brk, s[k - 1]), s[k..];
  }

  /** The converse: whenever putPkt succeeds with acknowledgements on, the stream held such
      answers.  Together: success if and only if the k-th answer is the first `+`. */
  lemma {:induction false} DeliveryWasAcknowledged(frame: seq<byte>, s: seq<byte>, credit: nat, pending: bool)
    returns (answers: seq<Answer>, tail: seq<byte>)
    requires Transmit(frame, s, false, credit, pending).outcome.Delivered?
    ensures FirstPlusLast(answers) && |Repeat(frame, |answers|)| <= credit
    ensures s == AnswerWires(answers) + tail && tail == Transmit(frame, s, false, credit, pending).rest
    decreases |s|
  {
    var a, rest := FirstAnswer(frame, s, credit, pending);
    TransmitOneAnswer(frame, a, rest, credit, pending);
    if a.ack == PLUS {
      answers, tail := [a], rest;
      AnswersPrepend(a, [], tail);
    } else {
      var more;
      more, tail := DeliveryWasAcknowledged(frame, rest, credit - |frame|, pending || a.brk);
      answers := [a] + more;
      AnswersPrepend(a, more, tail);
    }
    assert Repeat(frame, |answers|) == frame + Repeat(frame, |answers| - 1);
  }

  lemma AnswersPrepend(a: Answer, more: seq<Answer>, tail: seq<byte>)
    requires a.ack != BREAK
    requires if more == [] then a.ack == PLUS else a.ack != PLUS && FirstPlusLast(more)
    ensures FirstPlusLast([a] + more)
    ensures AnswerWires([a] + more) + tail == AnswerWire(a) + (AnswerWires(more) + tail)
    ensures more == [] ==> AnswerWires([a]) + tail == AnswerWire(a) + tail
  {
    assert ([a] + more)[1..] == more;
    assert more == [] ==> [a] + more == [a] && AnswerWires(more) + tail == tail;
  }

  /** What the client must have sent for a success: nothing that is read with acknowledgements off,
      else answers of which the last is the first `+`; and how many copies it takes. */
  ghost predicate Settles(s: seq<byte>, noAck: bool, answers: seq<Answer>, tail: seq<byte>) {
    s == AnswerWires(answers) + tail && if noAck then answers == [] else FirstPlusLast(answers)
  }

  function Copies(noAck: bool, answers: seq<Answer>): nat { if noAck then 1 else |answers| }

  /** putPkt succeeds if and only if the client's bytes begin with such answers and it takes that
      many copies.  Which answers and how many copies is settled by the stream alone: whatever
      split into answers one finds describes everything that was written, read and flagged. */
  lemma DeliveredIff(frame: seq<byte>, s: seq<byte>, noAck: bool, credit: nat, pending: bool)
    ensures Transmit(frame, s, noAck, credit, pending).outcome.Delivered?
       <==> exists answers, tail ::
              Settles(s, noAck, answers, tail) && |Repeat(frame, Copies(noAck, answers))| <= credit
    ensures forall answers, tail |
              Settles(s, noAck, answers, tail) && |Repeat(frame, Copies(noAck, answers))| <= credit ::
              Transmit(frame, s, noAck, credit, pending)
              == Transmission(Delivered, tail, Repeat(frame, Copies(noAck, answers)), pending || AnyBreak(answers))
  {
    hide Transmit, AnswerWires, FirstPlusLast, Repeat;
    forall answers, tail | Settles(s, noAck, answers, tail) && |Repeat(frame, Copies(noAck, answers))| <= credit
      ensures Transmit(frame, s, noAck, credit, pending)
           == Transmission(Delivered, tail, Repeat(frame, Copies(noAck, answers)), pending || AnyBreak(answers))
    {
      if noAck {
        OneCopy(frame, s, credit, pending, tail);
      } else {
        DeliveredOnFirstPlus(frame, answers, tail, credit, pending);
      }
    }
    if Transmit(frame, s, noAck, credit, pending).outcome.Delivered? {
      if noAck {
        OneCopy(frame, s, credit, pending, s);
        assert Settles(s, noAck, [], s);
      } else {
        var answers, tail := DeliveryWasAcknowledged(frame, s, credit, pending);
        assert Settles(s, noAck, answers, tail);
      }
    }
  }

  /** The ends `t` of a transmission that cannot succeed, by what is left of the stream when `sent`
      has been written and how many more bytes the client takes. */
  ghost predicate FailsAs(t: Transmission, frame: seq<byte>, sent: seq<byte>, tail: seq<byte>, left: nat, flagged: bool) {
    && (left < |frame| ==> t == Transmission(CommsFailure, tail, sent + frame[..left], flagged))
    && (left >= |frame| && tail == [] ==> t == Transmission(CommsFailure, [], sent + frame, flagged))
    && (left >= |frame| && |tail| >= 2 && tail[0] == BREAK == tail[1] ==>
          t == Transmission(AssertFailure, tail[2..], sent + frame, true))
    && (left >= |frame| && tail == [BREAK] ==>
          t == Transmission(CommsFailure, [], sent + frame + AsFarAs(frame, left - |frame|), true))
  }

  /** How putPkt fails, after `answers` none of which is `+`: the client stops taking bytes, in the
      middle of a copy or before it; or the stream ends; or two breaks come in a row.  A single break
      at the end of the stream is no answer: the frame goes out once more, as far as it is taken. */
  lemma {:induction false} UndeliveredForms(
      frame: seq<byte>, answers: seq<Answer>, tail: seq<byte>, credit: nat, pending: bool)
    requires forall i | 0 <= i < |answers| :: answers[i].ack != PLUS && answers[i].ack != BREAK
    requires |Repeat(frame, |answers|)| <= credit
    ensures FailsAs(Transmit(frame, AnswerWires(answers) + tail, false, credit, pending), frame,
                    Repeat(frame, |answers|), tail, credit - |Repeat(frame, |answers|)|, pending || AnyBreak(answers))
    decreases answers
  {
    hide FailsAs;
    if answers == [] {
      NoBreaks();
      assert AnswerWires(answers) + tail == tail;
      LastTurnFails(frame, tail, credit, pending);
    } else {
      hide Transmit, AnyBreak, Repeat, AnswerWire;
      var a, more := answers[0], answers[1..];
      var rest := AnswerWires(more) + tail;
      assert AnswerWires(answers) + tail == AnswerWire(a) + rest;
      RepeatNext(frame, |more|);
      TransmitOneAnswer(frame, a, rest, credit, pending);
      AnyBreakFirst(answers);
      UndeliveredForms(frame, more, tail, credit - |frame|, pending || a.brk);
      FailsAgain(Transmit(frame, rest, false, credit - |frame|, pending || a.brk), frame, Repeat(frame, |more|),
                 tail, credit - |Repeat(frame, |answers|)|, pending || AnyBreak(answers));
    }
  }

  lemma FailsAgain(t: Transmission, frame: seq<byte>, sent: seq<byte>, tail: seq<byte>, left: nat, flagged: bool)
    requires FailsAs(t, frame, sent, tail, left, flagged)
    ensures FailsAs(Again(frame, t), frame, frame + sent, tail, left, flagged)
  {
    hide AsFarAs;
    var part := if left < |frame| then frame[..left] else AsFarAs(frame, left - |frame|);
    assert frame + (sent + frame) == frame + sent + frame;
    assert frame + (sent + part) == frame + sent + part;
    assert frame + (sent + frame + part) == frame + sent + frame + part;
  }

  lemma AnyBreakFirst(answers: seq<Answer>)
    requires answers != []
    ensures AnyBreak(answers) <==> answers[0].brk || AnyBreak(answers[1..])
  {
    var more := answers[1..];
    assert forall i | 0 <= i < |more| :: more[i] == answers[i + 1];
    if AnyBreak(answers) && !answers[0].brk {
      var i :| 0 <= i < |answers| && answers[i].brk;
      assert more[i - 1].brk;
    }
    if AnyBreak(more) {
      var i :| 0 <= i < |more| && more[i].brk;
      assert answers[i + 1].brk;
    }
  }

  lemma LastTurnFails(frame: seq<byte>, tail: seq<byte>, credit: nat, pending: bool)
    ensures FailsAs(Transmit(frame, tail, false, credit, pending), frame, Repeat(frame, 0), tail, credit, pending)
  {
    assert forall s: seq<byte> :: Repeat(frame, 0) + s == s;
    if credit >= |frame| && tail == [BREAK] {
      assert tail[1..] == [];
      assert Transmit(frame, [], false, credit - |frame|, true)
          == Transmission(CommsFailure, [], AsFarAs(frame, credit - |frame|), true);
    }
  }

  /** As much of a frame as the client takes. */
  function AsFarAs(frame: seq<byte>, left: nat): seq<byte> {
    if left < |frame| then frame[..left] else frame
  }

  /** There is no other way to fail: every stream on which putPkt does not succeed is of one of these
      forms. */
  lemma {:induction false} UndeliveredIs(frame: seq<byte>, s: seq<byte>, credit: nat, pending: bool)
    returns (answers: seq<Answer>, tail: seq<byte>)
    requires !Transmit(frame, s, false, credit, pending).outcome.Delivered?
    ensures s == AnswerWires(answers) + tail && |Repeat(frame, |answers|)| <= credit
    ensures forall i | 0 <= i < |answers| :: answers[i].ack != PLUS && answers[i].ack != BREAK
    ensures || credit - |Repeat(frame, |answers|)| < |frame|
            || tail == [] || tail == [BREAK] || (|tail| >= 2 && tail[0] == BREAK == tail[1])
    decreases |s|
  {
    hide Transmit, AnswerWire, Repeat;
    if credit < |frame| || s == [] || s == [BREAK] || (|s| >= 2 && s[0] == BREAK == s[1]) {
      answers, tail := [], s;
      assert AnswerWires([]) + s == s;
      RepeatNone(frame);
    } else {
      var a, rest := FirstNotPlus(frame, s, credit, pending);
      var more;
      more, tail := UndeliveredIs(frame, rest, credit - |frame|, pending || a.brk);
      answers := [a] + more;
      assert answers[1..] == more;
      assert AnswerWire(a) + (AnswerWires(more) + tail) == AnswerWire(a) + AnswerWires(more) + tail;
      RepeatNext(frame, |more|);
    }
  }

  lemma RepeatNone(frame: seq<byte>)
    ensures Repeat(frame, 0) == []
  {
  }

  /** The answer to a copy that has to be sent again. */
  lemma FirstNotPlus(frame: seq<byte>, s: seq<byte>, credit: nat, pending: bool) returns (a: Answer, rest: seq<byte>)
    requires credit >= |frame| && s != [] && s != [BREAK] && !(|s| >= 2 && s[0] == BREAK == s[1])
    requires !Transmit(frame, s, false, credit, pending).outcome.Delivered?
    ensures a.ack != PLUS && a.ack != BREAK && s == AnswerWire(a) + rest && |rest| < |s|
    ensures !Transmit(frame, rest, false, credit - |frame|, pending || a.brk).outcome.Delivered?
  {
    var (verdict, k, brk) := ReadAnswer(s);
    a, rest := Answer(brk, s[k - 1]), s[k..];
  }

  lemma OneCopy(frame: seq<byte>, s: seq<byte>, credit: nat, pending: bool, tail: seq<byte>)
    ensures AnswerWires([]) + s == s && (s == AnswerWires([]) + tail ==> tail == s)
    ensures Repeat(frame, 1) == frame
    ensures var t := Transmit(frame, s, true, credit, pending);
            && (t.outcome.Delivered? <==> |frame| <= credit)
            && (|frame| <= credit ==> t == Transmission(Delivered, s, frame, pending))
  {
    assert Repeat(frame, 1) == frame + Repeat(frame, 0);
  }

  /** Whatever the outcome, the frame goes out as a prefix of identical copies, the answers come
      off the front of the stream, and no more than `credit` bytes are written. */
  lemma {:induction false} TransmitReadsPrefix(frame: seq<byte>, s: seq<byte>, noAck: bool, credit: nat, pending: bool)
    ensures var t := Transmit(frame, s, noAck, credit, pending);
            && |t.wire| <= credit && |t.rest| <= |s| && s[|s| - |t.rest|..] == t.rest
            && (pending ==> t.pending)
    decreases |s|
  {
    hide Transmit;
    TransmitTurn(frame, s, noAck, credit, pending);
    var (verdict, k, brk) := ReadAnswer(s);
    if credit >= |frame| && !noAck && verdict == Resend {
      TransmitReadsPrefix(frame, s[k..], noAck, credit - |frame|, pending || brk);
    }
  }
}
