/** The one-character pushback buffer and the pending-break flag shared by getRspChar and
    haveBreak, and what any interleaving of the connection's operations does to them. */
module Pushback {
  import opened Bytes
  import opened Framing
  import Receiver
  import Sender

  /** Unread raw input, the buffered character (at most one) and the pending-break flag. */
  datatype Link = Link(input: seq<byte>, held: seq<byte>, pending: bool)

  /** Everything the client sent that no reader has been given yet. */
  function Unread(l: Link): seq<byte> { l.held + l.input }

  predicate Valid(l: Link) { |l.held| <= 1 }

  function GetChar(l: Link): (r: (Link, seq<byte>))
    requires Valid(l)
  {
    if l.held != [] then (l.(held := []), l.held)
    else if l.input == [] then (l, [])
    else (l.(input := l.input[1..]), [l.input[0]])
  }

  /** haveBreak; `ready` says whether the non-blocking read finds a character waiting. */
  function Poll(l: Link, ready: bool): (r: (Link, bool))
    requires Valid(l)
  {
    var peeked :=
      if !l.pending && l.held == [] && ready && l.input != [] then
        if l.input[0] == BREAK then l.(input := l.input[1..], pending := true)
        else Link(l.input[1..], [l.input[0]], l.pending)
      else l;
    (peeked.(pending := false), peeked.pending)
  }

  /** haveBreak answers true exactly when a break is pending or the non-blocking read finds one with
      nothing held back.  That byte is then gone, any other byte found is held for the next reader,
      and otherwise nothing is read; the flag is down afterwards. */
  lemma PollMeaning(l: Link, ready: bool)
    requires Valid(l)
    ensures var (l', answer) := Poll(l, ready);
            var looks := !l.pending && l.held == [] && ready && l.input != [];
            && (answer <==> l.pending || (looks && l.input[0] == 0x03))
            && !l'.pending
            && (looks && l.input[0] == 0x03 ==> l'.input == l.input[1..] && l'.held == [])
            && (looks && l.input[0] != 0x03 ==> l'.input == l.input[1..] && l'.held == [l.input[0]])
            && (!looks ==> l'.input == l.input && l'.held == l.held)
  {
  }

  /** A reader that was handed everything before `rest` has emptied the buffer. */
  function ReadDownTo(l: Link, rest: seq<byte>): Link {
    if |rest| == |Unread(l)| then l else Link(rest, [], l.pending)
  }

  function Receive(l: Link, cfg: Receiver.Config, credit: nat): (r: (Link, Receiver.Reception)) {
    var r := Receiver.Hunt(Unread(l), [], cfg, credit);
    (ReadDownTo(l, r.rest), r)
  }

  function Send(l: Link, payload: seq<byte>, noAck: bool, credit: nat): (r: (Link, Sender.Transmission)) {
    var t := Sender.Transmit(Frame(payload), Unread(l), noAck, credit, l.pending);
    (ReadDownTo(l, t.rest).(pending := t.pending), t)
  }

  /** One turn of putPkt's loop: what it writes and whether it ends there. */
  datatype Turn = Turn(link: Link, wire: seq<byte>, done: bool, outcome: Sender.SendOutcome)

  function SendTurn(l: Link, frame: seq<byte>, noAck: bool, credit: nat): Turn {
    if credit < |frame| then Turn(l, frame[..credit], true, Sender.CommsFailure)
    else if noAck then Turn(l, frame, true, Sender.Delivered)
    else
      var (verdict, k, brk) := Sender.ReadAnswer(Unread(l));
      var l' := ReadDownTo(l, Unread(l)[k..]).(pending := l.pending || brk);
      match verdict
      case Ack => Turn(l', frame, true, Sender.Delivered)
      case Resend => Turn(l', frame, false, Sender.Delivered)
      case Closed => Turn(l', frame, true, Sender.CommsFailure)
      case TwoBreaks => Turn(l', frame, true, Sender.AssertFailure)
  }

  /** `t` is what the connection at `l` still has to do, out of `goal`, after writing `sent`. */
  ghost predicate Owes(l0: Link, goal: Sender.Transmission, sent: seq<byte>, l: Link, t: Sender.Transmission) {
    && goal == t.(wire := sent + t.wire)
    && |Unread(l)| <= |Unread(l0)| && l == ReadDownTo(l0, Unread(l)).(pending := l.pending)
  }

  lemma SendTurnOwes(l0: Link, goal: Sender.Transmission, sent: seq<byte>, l: Link, frame: seq<byte>, noAck: bool, credit: nat)
    requires Owes(l0, goal, sent, l, Sender.Transmit(frame, Unread(l), noAck, credit, l.pending))
    ensures var turn := SendTurn(l, frame, noAck, credit);
            && |turn.wire| <= credit
            && (if turn.done then
                  Owes(l0, goal, sent + turn.wire, turn.link,
                       Sender.Transmission(turn.outcome, Unread(turn.link), [], turn.link.pending))
                else
                  && |Unread(turn.link)| < |Unread(l)|
                  && Owes(l0, goal, sent + turn.wire, turn.link,
                          Sender.Transmit(frame, Unread(turn.link), noAck, credit - |turn.wire|, turn.link.pending)))
  {
    hide Sender.Transmit, Sender.ReadAnswer;
    var s, turn := Unread(l), SendTurn(l, frame, noAck, credit);
    Sender.TransmitTurn(frame, s, noAck, credit, l.pending);
    if |frame| <= credit && !noAck {
      ReadDownToSuffix(l, Sender.ReadAnswer(s).1);
    }
    var next := if turn.done then Sender.Transmission(turn.outcome, Unread(turn.link), [], turn.link.pending)
                else Sender.Transmit(frame, Unread(turn.link), noAck, credit - |turn.wire|, turn.link.pending);
    assert turn.wire + [] == turn.wire;
    assert Sender.Transmit(frame, s, noAck, credit, l.pending) == next.(wire := turn.wire + next.wire);
    assert sent + (turn.wire + next.wire) == sent + turn.wire + next.wire;
  }

  lemma ReadDownToSuffix(l: Link, k: nat)
    requires k <= |Unread(l)|
    ensures Unread(ReadDownTo(l, Unread(l)[k..])) == Unread(l)[k..]
  {
  }

  // ---- Runs ----

  datatype Op =
    | DoGetChar
    | DoPoll(ready: bool)
    | DoReceive(cfg: Receiver.Config, credit: nat)
    | DoSend(payload: seq<byte>, noAck: bool, credit: nat)

  /** What became of a character taken off the raw input, or a break the client was told about. */
  datatype Event =
    | Handed(chars: seq<byte>)  // given to a reader, in order
    | TookBreak                 // a break consumed by haveBreak itself
    | RaisedBreak               // putPkt noticed a break while none was pending
    | SawBreak                  // haveBreak answered true

  function Handing(l: Link, l': Link): seq<Event> {
    var n, n' := |Unread(l)|, |Unread(l')|;
    if n' <= n then [Handed(Unread(l)[..n - n'])] else []
  }

  function Step(l: Link, op: Op): (r: (Link, seq<Event>))
    requires Valid(l)
  {
    match op
    case DoGetChar =>
      var (l', c) := GetChar(l);
      (l', [Handed(c)])
    case DoPoll(ready) =>
      var (l', answer) := Poll(l, ready);
      var taken := if |Unread(l')| < |Unread(l)| then [TookBreak] else [];
      (l', taken + if answer then [SawBreak] else [])
    case DoReceive(cfg, credit) =>
      var (l', _) := Receive(l, cfg, credit);
      (l', Handing(l, l'))
    case DoSend(payload, noAck, credit) =>
      var (l', _) := Send(l, payload, noAck, credit);
      (l', Handing(l, l') + if l'.pending && !l.pending then [RaisedBreak] else [])
  }

  lemma StepValid(l: Link, op: Op)
    requires Valid(l)
    ensures Valid(Step(l, op).0)
  {
  }

  function Run(l: Link, ops: seq<Op>): (r: (Link, seq<Event>))
    requires Valid(l)
    ensures Valid(r.0)
    decreases ops
  {
    if ops == [] then (l, [])
    else
      var (l', events) := Step(l, ops[0]);
      StepValid(l, ops[0]);
      var (l'', more) := Run(l', ops[1..]);
      (l'', events + more)
  }

  /** The raw characters the events account for. */
  function Raw(events: seq<Event>): seq<byte> {
    if events == [] then []
    else
      (match events[0] case Handed(c) => c case TookBreak => [BREAK] case _ => []) + Raw(events[1..])
  }

  function CountOf(events: seq<Event>, e: Event): nat {
    if events == [] then 0 else (if events[0] == e then 1 else 0) + CountOf(events[1..], e)
  }

  function Flag(b: bool): nat { if b then 1 else 0 }

  lemma {:induction false} RawAppend(a: seq<Event>, b: seq<Event>)
    ensures Raw(a + b) == Raw(a) + Raw(b)
  {
    if a == [] {
      assert a + b == b;
    } else {
      assert (a + b)[1..] == a[1..] + b;
      RawAppend(a[1..], b);
    }
  }

  lemma {:induction false} CountAppend(a: seq<Event>, b: seq<Event>, e: Event)
    ensures CountOf(a + b, e) == CountOf(a, e) + CountOf(b, e)
  {
    if a == [] {
      assert a + b == b;
    } else {
      assert (a + b)[1..] == a[1..] + b;
      CountAppend(a[1..], b, e);
    }
  }

  lemma ReadDownToKeeps(l: Link, rest: seq<byte>)
    requires Valid(l) && |rest| <= |Unread(l)| && Unread(l)[|Unread(l)| - |rest|..] == rest
    ensures Unread(ReadDownTo(l, rest)) == rest
    ensures Unread(l)[..|Unread(l)| - |rest|] + rest == Unread(l)
  {
    var u := Unread(l);
    var n := |u| - |rest|;
    assert u[..n] + u[n..] == u;
    if n > 0 {
      assert [] + rest == rest;
    }
  }

  /** No character is lost, duplicated or reordered, and breaks balance. */
  ghost predicate Balanced(l: Link, l': Link, events: seq<Event>) {
    && Unread(l) == Raw(events) + Unread(l')
    && CountOf(events, SawBreak) + Flag(l'.pending)
       == Flag(l.pending) + CountOf(events, TookBreak) + CountOf(events, RaisedBreak)
  }

  lemma BalancedAppend(l: Link, l': Link, l'': Link, events: seq<Event>, more: seq<Event>)
    requires Balanced(l, l', events) && Balanced(l', l'', more)
    ensures Balanced(l, l'', events + more)
  {
    RawAppend(events, more);
    CountAppend(events, more, SawBreak);
    CountAppend(events, more, TookBreak);
    CountAppend(events, more, RaisedBreak);
    assert Raw(events) + (Raw(more) + Unread(l'')) == Raw(events) + Raw(more) + Unread(l'');
  }

  lemma HandedBalances(l: Link, l': Link, c: seq<byte>)
    requires Unread(l) == c + Unread(l') && l.pending == l'.pending
    ensures Balanced(l, l', [Handed(c)])
  {
    var events := [Handed(c)];
    assert events[1..] == [];
    assert Raw(events) == c + Raw([]) == c;
  }

  lemma HandingBalances(l: Link, rest: seq<byte>)
    requires Valid(l) && |rest| <= |Unread(l)| && Unread(l)[|Unread(l)| - |rest|..] == rest
    ensures Balanced(l, ReadDownTo(l, rest), Handing(l, ReadDownTo(l, rest)))
  {
    ReadDownToKeeps(l, rest);
    HandedBalances(l, ReadDownTo(l, rest), Unread(l)[..|Unread(l)| - |rest|]);
  }

  /** One event that hands out nothing. */
  lemma BreakBalances(l: Link, l': Link, e: Event)
    requires e == TookBreak || e == RaisedBreak || e == SawBreak
    requires Unread(l) == (if e == TookBreak then [BREAK] else []) + Unread(l')
    requires l.pending == (e == SawBreak) && l'.pending == (e != SawBreak)
    ensures Balanced(l, l', [e])
  {
    assert [e][1..] == [];
    assert Raw([e]) == (if e == TookBreak then [BREAK] else []) + Raw([]);
    assert forall f :: CountOf([e], f) == (if e == f then 1 else 0) + CountOf([], f);
  }

  lemma NothingBalances(l: Link, l': Link)
    requires Unread(l) == Unread(l') && l.pending == l'.pending
    ensures Balanced(l, l', [])
  {
    assert Raw([]) == [];
  }

  /** What haveBreak takes off the raw input, before it answers. */
  lemma PeekBalances(l: Link, ready: bool)
    requires Valid(l)
    ensures var (l', answer) := Poll(l, ready);
            && !l'.pending
            && Balanced(l, l'.(pending := answer), if |Unread(l')| < |Unread(l)| then [TookBreak] else [])
  {
    hide Balanced;
    var (l', answer) := Poll(l, ready);
    var mid := l'.(pending := answer);
    if !l.pending && l.held == [] && ready && l.input != [] {
      assert l.input == [l.input[0]] + l.input[1..] && [] + l.input == l.input;
      if l.input[0] == BREAK {
        assert Unread(l) == [BREAK] + Unread(mid);
        BreakBalances(l, mid, TookBreak);
      } else {
        NothingBalances(l, mid);
      }
    } else {
      NothingBalances(l, mid);
    }
  }

  lemma PollBalances(l: Link, ready: bool)
    requires Valid(l)
    ensures Balanced(l, Step(l, DoPoll(ready)).0, Step(l, DoPoll(ready)).1)
  {
    PeekBalances(l, ready);
    hide Balanced, Poll;
    var (l', answer) := Poll(l, ready);
    var mid := l'.(pending := answer);
    var taken := if |Unread(l')| < |Unread(l)| then [TookBreak] else [];
    if answer {
      assert [] + Unread(l') == Unread(mid);
      BreakBalances(mid, l', SawBreak);
      BalancedAppend(l, mid, l', taken, [SawBreak]);
    } else {
      assert taken + [] == taken;
    }
  }

  lemma SendBalances(l: Link, payload: seq<byte>, noAck: bool, credit: nat)
    requires Valid(l)
    ensures Balanced(l, Step(l, DoSend(payload, noAck, credit)).0, Step(l, DoSend(payload, noAck, credit)).1)
  {
    hide Balanced, Sender.Transmit, Frame;
    var (l', t) := Send(l, payload, noAck, credit);
    Sender.TransmitReadsPrefix(Frame(payload), Unread(l), noAck, credit, l.pending);
    HandingBalances(l, t.rest);
    var mid := ReadDownTo(l, t.rest);
    assert Unread(mid) == Unread(l') && mid.pending == l.pending;
    if l'.pending && !l.pending {
      assert [] + Unread(l') == Unread(mid);
      BreakBalances(mid, l', RaisedBreak);
      BalancedAppend(l, mid, l', Handing(l, mid), [RaisedBreak]);
    } else {
      assert mid == l' && Handing(l, mid) + [] == Handing(l, mid);
    }
  }

  lemma StepBalances(l: Link, op: Op)
    requires Valid(l)
    ensures Balanced(l, Step(l, op).0, Step(l, op).1)
  {
    hide Balanced;
    match op {
      case DoGetChar =>
        GetCharHands(l);
        HandedBalances(l, GetChar(l).0, GetChar(l).1);
      case DoPoll(ready) =>
        PollBalances(l, ready);
      case DoReceive(cfg, credit) =>
        hide Receiver.Hunt;
        Receiver.HuntReadsPrefix(Unread(l), [], cfg, credit);
        HandingBalances(l, Receive(l, cfg, credit).1.rest);
      case DoSend(payload, noAck, credit) =>
        SendBalances(l, payload, noAck, credit);
    }
  }

  lemma GetCharHands(l: Link)
    requires Valid(l)
    ensures Unread(l) == GetChar(l).1 + Unread(GetChar(l).0) && l.pending == GetChar(l).0.pending
  {
  }

  /** Pushback conservation over every interleaving of getRspChar, haveBreak, getPkt and putPkt:
      the raw input is, in order, what was handed out and the breaks haveBreak took, then the
      buffered character and what is still unread; the buffer never holds more than one; and each
      break taken by haveBreak or flagged by putPkt is reported once or still pending. */
  lemma {:induction false} RunConserves(l: Link, ops: seq<Op>)
    requires Valid(l)
    ensures var (l', events) := Run(l, ops);
            && |l'.held| <= 1
            && l.held + l.input == Raw(events) + (l'.held + l'.input)
            && CountOf(events, SawBreak) + Flag(l'.pending)
               == Flag(l.pending) + CountOf(events, TookBreak) + CountOf(events, RaisedBreak)
    decreases ops
  {
    if ops != [] {
      var (l1, events) := Step(l, ops[0]);
      StepBalances(l, ops[0]);
      StepValid(l, ops[0]);
      RunConserves(l1, ops[1..]);
      var (l2, more) := Run(l1, ops[1..]);
      BalancedAppend(l, l1, l2, events, more);
    }
  }
}
