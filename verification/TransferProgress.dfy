/** Bounded progress: what a resend achieves once it has been delivered and answered. */
module TransferProgress {
  import opened Pdu
  import opened Messages
  import opened Window
  import opened Chunking
  import opened Session
  import opened SenderFacts
  import opened ReceiverFacts
  import opened ReceiverRefinement
  import opened Transfer
  import opened TransferInvariant
  import S = SenderModel
  import R = ReceiverModel

  /** What is still missing: chunks to be written and chunks to be acknowledged. */
  ghost function Missing(c: Session, t: System): int
    requires c.Valid()
  {
    (c.Eof() - t.receiver.ring.current) + (c.Eof() - t.sender.ring.lower)
  }

  lemma {:induction false} SlideForward(ring: Ring, rr: int)
    ensures S.Slide(ring, rr).lower >= ring.lower
    decreases rr - ring.lower
  {
    if ring.lower < rr {
      SlideForward(IncrementEdges(RemovePdu(ring, ring.lower)), rr);
    }
  }

  lemma SenderForward(s: S.Sender, ev: AckEvent)
    ensures S.OnPoll(s, ev).sender.ring.lower >= s.ring.lower
    ensures S.Act(s).sender.ring.lower >= s.ring.lower
  {
    if ev.GotRr? {
      SlideForward(s.ring, ev.number);
    }
  }

  lemma ReceiverForward(r: R.Receiver, ev: DataEvent)
    ensures R.OnPoll(r, ev).receiver.ring.current >= r.ring.current
    ensures R.FlushStep(r).receiver.ring.current >= r.ring.current
  {
  }

  lemma ApplyForward(t: System, event: Label)
    ensures Apply(t, event).sender.ring.lower >= t.sender.ring.lower
    ensures Apply(t, event).receiver.ring.current >= t.receiver.ring.current
  {
    match event
    case SenderHears(fault) =>
      if t.replies != [] {
        SenderForward(t.sender, HeardEvent(t, fault));
      }
    case Delivered(f, fault) =>
      ReceiverForward(t.receiver, ArrivalEvent(t, f, fault));
    case ReceiverWaits => ReceiverForward(t.receiver, Quiet);
    case ReceiverFlushes => ReceiverForward(t.receiver, Quiet);
    case _ => SenderForward(t.sender, Silence);
  }

  /** Neither end ever goes back. */
  lemma {:induction false} Forward(t: System, schedule: seq<Label>)
    ensures Execute(t, schedule).sender.ring.lower >= t.sender.ring.lower
    ensures Execute(t, schedule).receiver.ring.current >= t.receiver.ring.current
  {
    if schedule != [] {
      Forward(t, schedule[..|schedule| - 1]);
      ApplyForward(Execute(t, schedule[..|schedule| - 1]), schedule[|schedule| - 1]);
    }
  }

  /** A sender that waits for the receiver rather than for its own next chunk. */
  predicate Waiting(s: S.Sender) {
    S.Polling(s) && s.phase != S.AwaitPoll
  }

  /** The frame a timeout resends. */
  ghost function LowestFrame(c: Session, t: System): Frame
    requires c.Valid()
  {
    if t.sender.ring.lower < c.Eof()
    then c.DataFrame(t.sender.ring.lower).(flag := RESENT_TIMEOUT_DATA_PACKET_FLAG)
    else c.EofFrame()
  }

  lemma TimeoutResendsLowest(c: Session, t: System)
    requires c.Valid() && Inv(c, t) && Waiting(t.sender)
    ensures Inv(c, Apply(t, SenderWaits))
    ensures c.Genuine(LowestFrame(c, t)) && LowestFrame(c, t).seqNo == t.sender.ring.lower
    ensures var t' := Apply(t, SenderWaits);
            && t'.data == t.data + {LowestFrame(c, t)}
            && t'.sender == t.sender.(phase := if t.sender.phase.EofSent? then S.EofSent(t.sender.phase.count + 1)
                                               else S.WindowClosed(t.sender.phase.count + 1))
            && t'.receiver == t.receiver && t'.replies == t.replies && t'.log == t.log
  {
    SenderWaitsKeeps(c, t);
    ResendGenuine(c, t.sender, t.sender.ring.lower, RESENT_TIMEOUT_DATA_PACKET_FLAG);
    var o := S.Resend(t.sender, t.sender.ring.lower, RESENT_TIMEOUT_DATA_PACKET_FLAG);
    assert o.frames == [LowestFrame(c, t)];
  }

  /** What a frame at or below current makes the receiver say: an RR beyond it, or the EOF ACK. */
  predicate Answers(reply: Reply, k: nat) {
    (reply.Rr? && reply.number > k) || reply.EofAck?
  }

  lemma ArrivalAnswered(r: R.Receiver, f: Frame)
    requires Shape(r) && R.Polling(r) && f.seqNo <= r.ring.current && f.payload != []
    requires r.phase == R.Buffering && f.seqNo == r.ring.current ==> f.flag != EOF_FLAG
    ensures var o := R.OnPoll(r, Arrived(f));
            && |o.replies| == 1 && Answers(o.replies[0], f.seqNo)
            && (o.receiver.phase == R.Done ==> o.replies[0].EofAck?)
  {
  }

  /** A receiver that buffers holds a frame beyond current, so the current number is not that of EOF. */
  lemma NoEofWhileBuffering(c: Session, t: System, f: Frame)
    requires c.Valid() && Inv(c, t) && f in t.data
    ensures t.receiver.phase == R.Buffering && f.seqNo == t.receiver.ring.current ==> f.flag != EOF_FLAG
  {
    if t.receiver.phase == R.Buffering {
      BufferingHoldsLaterFrame(t.receiver);
      var k :| InRing(t.receiver, k) && k > t.receiver.ring.current && GetPdu(t.receiver.ring, k).Some?
               && GetPdu(t.receiver.ring, k).value.seqNo == k;
      assert Sendable(c, t.sender, GetPdu(t.receiver.ring, k).value);
      assert Sendable(c, t.sender, f);
    }
  }

  lemma DeliveryAnswered(c: Session, t: System, f: Frame)
    requires c.Valid() && Inv(c, t) && R.Polling(t.receiver)
    requires f in t.data && f.seqNo <= t.receiver.ring.current
    ensures var t' := Apply(t, Delivered(f, Intact));
            && Inv(c, t')
            && |t'.replies| == |t.replies| + 1 && t'.replies[..|t.replies|] == t.replies
            && Answers(t'.replies[|t.replies|], f.seqNo)
            && t'.sender == t.sender
            && (t'.receiver.phase == R.Done ==> t'.replies[|t.replies|].EofAck?)
            && t'.receiver.ring.current >= t.receiver.ring.current
  {
    hide ArrivalEvent, R.OnPoll;
    DeliveredKeeps(c, t, f, Intact);
    DeliveredFrame(c, t, f, Intact);
    c.PayloadSizes();
    NoEofWhileBuffering(c, t, f);
    ArrivalAnswered(t.receiver, f);
    ReceiverForward(t.receiver, Arrived(f));
  }

  /** What hearing an RR does to a polling sender. */
  lemma RrHeard(c: Session, s: S.Sender, n: int)
    requires c.Valid() && SenderInv(c, s) && S.Polling(s) && n <= s.ring.current
    ensures var s' := S.OnPoll(s, GotRr(n)).sender;
            && s'.ring.lower == Max(s.ring.lower, n)
            && s'.unread == s.unread
            && s'.phase == if s.phase.EofSent? then S.EofSent(0) else S.WindowOpen
  {
    PollKeeps(c, s, GotRr(n));
  }

  /** On an undamaged reply path the sender acts on what the reply says. */
  lemma HearsIntact(c: Session, t: System)
    requires c.Valid() && Inv(c, t) && S.Polling(t.sender) && t.replies != []
    ensures Apply(t, SenderHears(Intact)) ==
            SenderGoes(t.(replies := t.replies[1..]), S.OnPoll(t.sender, Meaning(t.replies[0])))
  {
    HeardIsHearable(c, t, Intact);
  }

  /** Both ends have stopped and the whole file has been written. */
  ghost predicate Completed(c: Session, t: System) {
    t.sender.phase == S.Done && t.receiver.phase == R.Done && t.receiver.output == c.file
  }

  /** The sender hears the EOF ACK. */
  ghost predicate HearsEofAck(t: System, event: Label) {
    event.SenderHears? && S.Polling(t.sender) && t.replies != [] && HeardEvent(t, event.fault) == GotEofAck
  }

  /** A sender that hears the EOF ACK completes the transfer. */
  lemma EofAckCompletes(c: Session, t: System, event: Label)
    requires c.Valid() && Inv(c, t) && HearsEofAck(t, event)
    ensures Completed(c, Apply(t, event)) && t.replies[0].EofAck?
  {
    hide SenderInv, Shape, Asked, DataPath, Buffered;
    HeardIsHearable(c, t, event.fault);
    assert ReplyOk(c, t.sender, t.receiver, t.replies[0]);
    assert c.Payloads()[..c.Eof()] == c.Payloads();
    FlattenChunks(c.file, c.bufferSize);
  }

  lemma EofAckHeard(c: Session, t: System)
    requires c.Valid() && Inv(c, t) && S.Polling(t.sender) && t.replies != [] && t.replies[0].EofAck?
    ensures HearsEofAck(t, SenderHears(Intact)) && Completed(c, Apply(t, SenderHears(Intact)))
  {
    hide HeardEvent, S.OnPoll, Inv, Completed;
    HeardIsHearable(c, t, Intact);
    EofAckCompletes(c, t, SenderHears(Intact));
  }

  /** Hearing an answer moves the sender's window beyond the number it answers, or ends the transfer. */
  lemma AnswerHeard(c: Session, t: System, k: nat)
    requires c.Valid() && Inv(c, t) && S.Polling(t.sender) && t.replies != [] && Answers(t.replies[0], k)
    ensures var t' := Apply(t, SenderHears(Intact));
            && Inv(c, t')
            && t'.receiver == t.receiver && t'.replies == t.replies[1..]
            && if t.replies[0].EofAck? then Completed(c, t') && HearsEofAck(t, SenderHears(Intact))
               else t'.sender.ring.lower > k && t'.sender.ring.lower >= t.sender.ring.lower
                    && t'.sender.unread == t.sender.unread
                    && t'.sender.phase == if t.sender.phase.EofSent? then S.EofSent(0) else S.WindowOpen
  {
    HearsIntact(c, t);
    HearingKeeps(c, t, Meaning(t.replies[0]));
    if t.replies[0].EofAck? {
      EofAckHeard(c, t);
    } else {
      assert ReplyOk(c, t.sender, t.receiver, t.replies[0]);
      RrHeard(c, t.sender, t.replies[0].number);
    }
  }

  /**
   Bounded progress: once the copy that a timeout resends has been delivered and the reply it
   caused has been heard, less is missing than when the timeout happened, or the transfer is
   complete. It does not matter what else happens in between.
   */
  lemma ResendMakesProgress(c: Session, prefix: seq<Label>, a: seq<Label>, b: seq<Label>)
    requires c.Valid() && Waiting(After(c, prefix).sender)
    requires var t := After(c, prefix);
             var f := LowestFrame(c, t);
             var t1 := Execute(Apply(t, SenderWaits), a);
             var t2 := Execute(Apply(t1, Delivered(f, Intact)), b);
             && R.Polling(t1.receiver)
             && S.Polling(t2.sender) && t2.replies != []
             && [t2.replies[0]] == Apply(t1, Delivered(f, Intact)).replies[|t1.replies|..]
    ensures var t := After(c, prefix);
            var t1 := Execute(Apply(t, SenderWaits), a);
            var t2 := Execute(Apply(t1, Delivered(LowestFrame(c, t), Intact)), b);
            var t3 := Apply(t2, SenderHears(Intact));
            (HearsEofAck(t2, SenderHears(Intact)) && Completed(c, t3)) || Missing(c, t3) < Missing(c, t)
  {
    var t := After(c, prefix);
    var f := LowestFrame(c, t);
    AfterInv(c, prefix);
    TimeoutResendsLowest(c, t);
    var t0 := Apply(t, SenderWaits);
    ExecuteKeeps(c, t0, a);
    Forward(t0, a);
    DataStays(t0, a, f);
    var t1 := Execute(t0, a);
    DeliveryAnswered(c, t1, f);
    var t1' := Apply(t1, Delivered(f, Intact));
    ExecuteKeeps(c, t1', b);
    Forward(t1', b);
    var t2 := Execute(t1', b);
    assert t2.replies[0] == t1'.replies[|t1.replies|];
    AnswerHeard(c, t2, f.seqNo);
  }

  /** A frame once sent stays available to the data path. */
  lemma {:induction false} DataStays(t: System, schedule: seq<Label>, f: Frame)
    requires f in t.data
    ensures f in Execute(t, schedule).data
  {
    if schedule != [] {
      DataStays(t, schedule[..|schedule| - 1], f);
    }
  }
}
