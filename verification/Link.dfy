/** The two ends of the link together: what putPkt writes, getPkt reads. */
module Link {
  import opened Bytes
  import opened Framing
  import Receiver
  import Sender

  /** Stop and wait.  However often the answers made the sender write its frame, a receiver that
      starts fresh takes the first copy, whatever `$`-free noise comes before it, answers `+` once,
      unescapes the very payload that was sent, and leaves the other copies unread. */
  lemma DeliveredPayloadArrives(
      p: seq<byte>, answers: seq<byte>, credit: nat, pending: bool,
      noise: seq<byte>, tail: seq<byte>, cfg: Receiver.Config, credit': nat) returns (copies: nat)
    requires Sender.Transmit(Frame(p), answers, false, credit, pending).outcome.Delivered?
    requires Without(noise, DOLLAR) && |Escape(p)| < cfg.capacity && (cfg.noAck || credit' > 0)
    ensures var wire := Sender.Transmit(Frame(p), answers, false, credit, pending).wire;
            && copies >= 1 && wire == Repeat(Frame(p), copies)
            && Receiver.Hunt(noise + wire + tail, [], cfg, credit')
               == Receiver.Reception(Receiver.Accepted(Escape(p)), Repeat(Frame(p), copies - 1) + tail,
                                     if cfg.noAck then [] else [PLUS])
    ensures WellEscaped(Escape(p)) && Unescape(Escape(p)) == p
  {
    hide Sender.Transmit, Receiver.Hunt, Frame, Escape, Unescape, WellEscaped, Repeat, Without,
         Sender.FirstPlusLast, Sender.AnswerWires;
    var rs, rest := Sender.DeliveryWasAcknowledged(Frame(p), answers, credit, pending);
    AtLeastOne(rs);
    Sender.DeliveredOnFirstPlus(Frame(p), rs, rest, credit, pending);
    copies := |rs|;
    FirstCopy(noise, Frame(p), copies, tail);
    Receiver.LinkRoundTrip(noise, p, Repeat(Frame(p), copies - 1) + tail, cfg, credit');
  }

  lemma AtLeastOne(rs: seq<Sender.Answer>)
    requires Sender.FirstPlusLast(rs)
    ensures |rs| >= 1
  {
  }

  lemma FirstCopy(noise: seq<byte>, f: seq<byte>, k: nat, tail: seq<byte>)
    requires k >= 1
    ensures noise + Repeat(f, k) + tail == noise + f + (Repeat(f, k - 1) + tail)
  {
    assert Repeat(f, k) == f + Repeat(f, k - 1);
  }

  // ---- Both directions at once ----

  /** getPkt called again and again on one stream: the payloads it takes and all it answers. */
  datatype Session = Session(taken: seq<seq<byte>>, replies: seq<byte>)

  function Receive(s: seq<byte>, buf: seq<byte>, cfg: Receiver.Config, credit: nat): Session
    requires |buf| <= cfg.capacity
    decreases |s|
  {
    var r := Receiver.Hunt(s, buf, cfg, credit);
    match r.outcome
    case Accepted(payload) =>
      Receiver.HuntReadsPrefix(s, buf, cfg, credit);
      var next := Receive(r.rest, [], cfg, credit - |r.replies|);
      Session([payload] + next.taken, r.replies + next.replies)
    case _ => Session([], r.replies)
  }

  /** The copies that arrive undamaged. */
  function Intact(arrivals: seq<Receiver.Attempt>): nat
    requires forall a | a in arrivals :: Receiver.WellFormed(a)
  {
    if arrivals == [] then 0 else Intact(arrivals[1..]) + if Receiver.ChecksumOk(arrivals[0]) then 1 else 0
  }

  /** One answer for each copy: `+` if it is undamaged, else `-`. */
  function Verdicts(arrivals: seq<Receiver.Attempt>): (r: seq<byte>)
    requires forall a | a in arrivals :: Receiver.WellFormed(a)
    ensures |r| == |arrivals|
    ensures forall i | 0 <= i < |r| :: r[i] == if Receiver.ChecksumOk(arrivals[i]) then PLUS else MINUS
  {
    seq(|arrivals|, i requires 0 <= i < |arrivals| => if Receiver.ChecksumOk(arrivals[i]) then PLUS else MINUS)
  }

  /** What the calls of getPkt take, one after the other, starting with `buf` in the buffer. */
  function Taken(buf: seq<byte>, arrivals: seq<Receiver.Attempt>, erase: bool): seq<seq<byte>>
    requires forall a | a in arrivals :: Receiver.WellFormed(a)
    decreases arrivals
  {
    if arrivals == [] then []
    else
      var kept := Receiver.Kept(buf, arrivals[0], erase);
      if Receiver.ChecksumOk(arrivals[0]) then [kept] + Taken([], arrivals[1..], erase)
      else Taken(kept, arrivals[1..], erase)
  }

  /** No arrival overruns the buffer; each accepted one leaves it empty for the next call. */
  ghost predicate Room(buf: seq<byte>, arrivals: seq<Receiver.Attempt>, cfg: Receiver.Config)
    requires forall a | a in arrivals :: Receiver.WellFormed(a)
    decreases arrivals
  {
    arrivals == []
    || (&& Receiver.Fits(buf, arrivals[0], cfg)
        && Room(if Receiver.ChecksumOk(arrivals[0]) then [] else Receiver.Kept(buf, arrivals[0], cfg.eraseAtStart),
                arrivals[1..], cfg))
  }

  lemma {:induction false} SessionTakesIntact(
      arrivals: seq<Receiver.Attempt>, buf: seq<byte>, cfg: Receiver.Config, credit: nat)
    requires forall a | a in arrivals :: Receiver.WellFormed(a)
    requires Room(buf, arrivals, cfg) && |buf| <= cfg.capacity && !cfg.noAck && |arrivals| <= credit
    ensures Receive(Receiver.Wires(arrivals), buf, cfg, credit)
         == Session(Taken(buf, arrivals, cfg.eraseAtStart), Verdicts(arrivals))
    decreases arrivals
  {
    hide Receiver.Hunt, Receiver.Wire, Receiver.WellFormed, Receiver.ChecksumOk, Receiver.Fits, Receiver.Kept, Receive;
    if arrivals == [] {
      HuntNothing(buf, cfg, credit);
      ReceiveTurn([], buf, cfg, credit);
    } else {
      var a, more := arrivals[0], arrivals[1..];
      var s := Receiver.Wires(more);
      if Receiver.ChecksumOk(a) {
        Receiver.HuntAccepts(a, s, buf, cfg, credit);
        ReceiveTurn(Receiver.Wire(a) + s, buf, cfg, credit);
        SessionTakesIntact(more, [], cfg, credit - 1);
      } else {
        Receiver.HuntRejects(a, s, buf, cfg, credit);
        var kept := Receiver.Kept(buf, a, cfg.eraseAtStart);
        ReceiveAfterMinus(Receiver.Wire(a) + s, s, buf, kept, cfg, credit);
        SessionTakesIntact(more, kept, cfg, credit - 1);
      }
    }
  }

  /** The next call of getPkt, from what its first frame came to. */
  lemma ReceiveTurn(s: seq<byte>, buf: seq<byte>, cfg: Receiver.Config, credit: nat)
    requires |buf| <= cfg.capacity
    ensures var r := Receiver.Hunt(s, buf, cfg, credit);
            && (r.outcome.Accepted? ==>
                  && |r.replies| <= credit
                  && var next := Receive(r.rest, [], cfg, credit - |r.replies|);
                  && Receive(s, buf, cfg, credit) == Session([r.outcome.payload] + next.taken, r.replies + next.replies))
            && (!r.outcome.Accepted? ==> Receive(s, buf, cfg, credit) == Session([], r.replies))
  {
    hide Receiver.Hunt;
    Receiver.HuntReadsPrefix(s, buf, cfg, credit);
  }

  /** A rejected frame only puts its `-` in front of what the same call goes on to do. */
  lemma ReceiveAfterMinus(
      s: seq<byte>, rest: seq<byte>, buf: seq<byte>, kept: seq<byte>, cfg: Receiver.Config, credit: nat)
    requires |buf| <= cfg.capacity && |kept| <= cfg.capacity && credit > 0
    requires Receiver.Hunt(s, buf, cfg, credit) == Receiver.After(MINUS, Receiver.Hunt(rest, kept, cfg, credit - 1))
    ensures var next := Receive(rest, kept, cfg, credit - 1);
            Receive(s, buf, cfg, credit) == Session(next.taken, [MINUS] + next.replies)
  {
    hide Receiver.Hunt, Receive;
    ReceiveTurn(s, buf, cfg, credit);
    ReceiveTurn(rest, kept, cfg, credit - 1);
    var r := Receiver.Hunt(rest, kept, cfg, credit - 1);
    if r.outcome.Accepted? {
      var next := Receive(r.rest, [], cfg, credit - 1 - |r.replies|);
      assert [MINUS] + r.replies + next.replies == [MINUS] + (r.replies + next.replies);
    }
  }

  lemma HuntNothing(buf: seq<byte>, cfg: Receiver.Config, credit: nat)
    requires |buf| <= cfg.capacity
    ensures Receiver.Hunt([], buf, cfg, credit) == Receiver.Reception(Receiver.CommsFailure, [], [])
  {
  }

  /** As many payloads as undamaged copies; all of them what was sent, unless bytes of damaged
      copies are left in the buffer. */
  lemma {:induction false} TakenPayloads(
      sent: seq<byte>, buf: seq<byte>, arrivals: seq<Receiver.Attempt>, erase: bool)
    requires forall a | a in arrivals :: Receiver.WellFormed(a) && (Receiver.ChecksumOk(a) ==> a.body == sent)
    ensures |Taken(buf, arrivals, erase)| == Intact(arrivals)
    ensures erase || (buf == [] && forall a | a in arrivals :: Receiver.ChecksumOk(a)) ==>
              forall payload | payload in Taken(buf, arrivals, erase) :: payload == sent
    decreases arrivals
  {
    hide Receiver.WellFormed, Receiver.ChecksumOk;
    if arrivals != [] {
      var a := arrivals[0];
      TakenPayloads(sent, if Receiver.ChecksumOk(a) then [] else Receiver.Kept(buf, a, erase), arrivals[1..], erase);
      assert [] + a.body == a.body;
    }
  }

  lemma {:induction false} OnlyLastIntact(arrivals: seq<Receiver.Attempt>)
    requires forall a | a in arrivals :: Receiver.WellFormed(a)
    requires arrivals != [] && Receiver.ChecksumOk(arrivals[|arrivals| - 1])
    ensures Intact(arrivals) >= 1
    ensures Intact(arrivals) == 1 <==> forall i | 0 <= i < |arrivals| - 1 :: !Receiver.ChecksumOk(arrivals[i])
  {
    hide Receiver.WellFormed, Receiver.ChecksumOk;
    var more := arrivals[1..];
    if more != [] {
      OnlyLastIntact(more);
      assert forall i | 0 <= i < |more| :: more[i] == arrivals[i + 1];
    } else {
      assert Intact(more) == 0;
    }
  }

  /** The channel may damage any copy and any answer, and slip in breaks and noise, but it does not
      forge: a damaged copy has a wrong checksum, and a `+` comes out only where the receiver put
      one in. */
  ghost predicate NoForgery(sent: seq<byte>, arrivals: seq<Receiver.Attempt>) {
    forall a | a in arrivals :: Receiver.WellFormed(a) && (Receiver.ChecksumOk(a) ==> a.body == sent)
  }

  predicate Relays(replies: seq<byte>, answers: seq<Sender.Answer>) {
    |replies| == |answers| && forall i | 0 <= i < |answers| :: answers[i].ack == PLUS ==> replies[i] == PLUS
  }

  /** The closed loop.  A sender goes on until a `+` gets through; what it hears are the answers of
      the receiver, and what the receiver reads are the sender's copies, both through a channel that
      does not forge.  Then each copy is answered once, the payload is taken at least once, and it is
      taken exactly once if and only if no `+` was spoilt on the way, which is to say that the last
      copy was the only one to arrive undamaged. */
  lemma ExactlyOnceIff(
      p: seq<byte>, arrivals: seq<Receiver.Attempt>, answers: seq<Sender.Answer>, tail: seq<byte>,
      cfg: Receiver.Config, credit: nat, credit': nat, pending: bool)
    requires NoForgery(Escape(p), arrivals) && Room([], arrivals, cfg) && !cfg.noAck && |arrivals| <= credit'
    requires Sender.FirstPlusLast(answers) && |Repeat(Frame(p), |answers|)| <= credit
    requires Relays(Receive(Receiver.Wires(arrivals), [], cfg, credit').replies, answers)
    ensures var got := Receive(Receiver.Wires(arrivals), [], cfg, credit');
            && Sender.Transmit(Frame(p), Sender.AnswerWires(answers) + tail, false, credit, pending)
               == Sender.Transmission(Sender.Delivered, tail, Repeat(Frame(p), |arrivals|), pending || Sender.AnyBreak(answers))
            && got.replies == Verdicts(arrivals)
            && |got.taken| == Intact(arrivals) >= 1
            && (|got.taken| == 1 <==> forall i | 0 <= i < |answers| :: got.replies[i] == PLUS ==> answers[i].ack == PLUS)
            && (|got.taken| == 1 <==> forall i | 0 <= i < |arrivals| - 1 :: !Receiver.ChecksumOk(arrivals[i]))
            && (cfg.eraseAtStart || (forall a | a in arrivals :: Receiver.ChecksumOk(a)) ==>
                  forall payload | payload in got.taken :: payload == Escape(p))
  {
    hide Receiver.Wires, Receiver.WellFormed, Receiver.ChecksumOk, Receive, Sender.Transmit, Sender.AnswerWires,
         Escape, Frame, Room, Taken, Intact, Repeat, Sender.AnyBreak;
    SessionTakesIntact(arrivals, [], cfg, credit');
    Sender.DeliveredOnFirstPlus(Frame(p), answers, tail, credit, pending);
    TakenPayloads(Escape(p), [], arrivals, cfg.eraseAtStart);
    assert answers[|answers| - 1].ack == PLUS;
    OnlyLastIntact(arrivals);
  }
}
