/** Runs that show where the code's guarantees end. */
module ParticularRuns {
  import opened Pdu
  import opened Messages
  import opened Session
  import opened SenderFacts
  import opened Transfer
  import opened TransferInvariant
  import opened TransferProgress
  import opened TransferCompletion
  import opened SenderPatience
  import S = SenderModel
  import R = ReceiverModel

  // ----- A sender that hears nothing -----

  /** k chunks are sent and the poll after each finds nothing. */
  function SendsUnheard(k: nat): seq<Label> {
    if k == 0 then [] else SendsUnheard(k - 1) + [SenderActs] + [SenderWaits]
  }

  lemma AfterOneMore(c: Session, schedule: seq<Label>, event: Label)
    requires c.Valid()
    ensures After(c, schedule + [event]) == Apply(After(c, schedule), event)
  {
    assert (schedule + [event])[..|schedule|] == schedule;
  }

  /** The state after k unheard chunks, none of which has been delivered. */
  ghost predicate SentUnheard(c: Session, t: System, k: nat)
    requires c.Valid()
  {
    && t.sender.ring.lower == 0 && t.sender.ring.current == k
    && t.receiver == Initial(c).receiver && t.replies == []
    && (k <= c.Eof() ==> forall j :: 0 <= j < k ==> c.DataFrame(j) in t.data)
  }

  lemma OneMoreChunk(c: Session, t: System, k: nat)
    requires c.Valid() && Inv(c, t) && SentUnheard(c, t, k) && t.sender.phase == S.WindowOpen
    requires k < c.Eof() && k < c.windowSize
    ensures SentUnheard(c, Apply(t, SenderActs), k + 1) && Apply(t, SenderActs).sender.phase == S.AwaitPoll
  {
    NextChunk(c, t.sender);
    SendDataIs(c, t.sender);
  }

  lemma {:induction false} SendsUnheardWorks(c: Session, k: nat)
    requires c.Valid() && k <= c.Eof() && k <= c.windowSize
    ensures SentUnheard(c, After(c, SendsUnheard(k)), k) && After(c, SendsUnheard(k)).sender.phase == S.WindowOpen
  {
    if k > 0 {
      var before := SendsUnheard(k - 1);
      SendsUnheardWorks(c, k - 1);
      AfterInv(c, before);
      OneMoreChunk(c, After(c, before), k - 1);
      AfterOneMore(c, before, SenderActs);
      AfterOneMore(c, before + [SenderActs], SenderWaits);
    }
  }

  /** The phase in which a sender that hears nothing counts its silent polls. */
  ghost function WaitingPhase(c: Session, count: nat): S.Phase
    requires c.Valid()
  {
    if c.Eof() >= c.windowSize then S.WindowClosed(count) else S.EofSent(count)
  }

  /** From the start into the loop of window_closed, or into that of end_of_file if the file fits the window. */
  ghost function UntilWaiting(c: Session): seq<Label>
    requires c.Valid()
  {
    if c.Eof() >= c.windowSize then SendsUnheard(c.windowSize) + [SenderActs]
    else SendsUnheard(c.Eof()) + [SenderActs] + [SenderActs]
  }

  lemma UntilWaitingWorks(c: Session)
    requires c.Valid()
    ensures var t := After(c, UntilWaiting(c));
            t.sender.phase == WaitingPhase(c, 0) && t.receiver == Initial(c).receiver && t.replies == []
  {
    var k := if c.Eof() >= c.windowSize then c.windowSize else c.Eof();
    var sends := SendsUnheard(k);
    SendsUnheardWorks(c, k);
    AfterInv(c, sends);
    NextChunk(c, After(c, sends).sender);
    AfterOneMore(c, sends, SenderActs);
    AfterOneMore(c, sends + [SenderActs], SenderActs);
  }

  lemma StandsWaiting(c: Session, t: System, count: nat)
    requires c.Valid() && Inv(c, t) && t.sender.phase == WaitingPhase(c, count) && count < 10
    ensures Waiting(t.sender)
  {
  }

  lemma {:induction false} SilentPollsWork(c: Session, n: nat)
    requires c.Valid() && n < 10
    ensures var t := After(c, UntilWaiting(c) + SilentPolls(n));
            && t.sender.phase == WaitingPhase(c, n) && Waiting(t.sender)
            && t.receiver == Initial(c).receiver && t.replies == []
  {
    hide Inv, Apply, UntilWaiting, After;
    var schedule := UntilWaiting(c) + SilentPolls(n);
    if n == 0 {
      UntilWaitingWorks(c);
      assert schedule == UntilWaiting(c);
    } else {
      var before := UntilWaiting(c) + SilentPolls(n - 1);
      SilentPollsWork(c, n - 1);
      AfterInv(c, before);
      TimeoutResendsLowest(c, After(c, before));
      AfterOneMore(c, before, SenderWaits);
      assert schedule == before + [SenderWaits];
    }
    AfterInv(c, schedule);
    StandsWaiting(c, After(c, schedule), n);
  }

  /** Before the tenth silent poll an answer to a resent copy still helps. */
  lemma NinthAnswerHelps(c: Session, t: System)
    requires c.Valid() && Inv(c, t) && Resent(c, t) && Waiting(t.sender) && t.sender.phase.count == 9
    requires R.Polling(t.receiver) && t.replies == []
    ensures var u := Apply(t, Delivered(LowestFrame(c, t), Intact));
            var t' := Apply(u, SenderHears(Intact));
            HearsEofAck(u, SenderHears(Intact)) || (t'.sender.ring.lower > t.sender.ring.lower && !GaveUp(t'.sender))
  {
    hide HeardEvent, ArrivalEvent, S.OnPoll, R.OnPoll, SenderInv;
    TimeoutResendsLowest(c, t);
    DeliveryAnswered(c, t, LowestFrame(c, t));
    var u := Apply(t, Delivered(LowestFrame(c, t), Intact));
    assert u.replies[0] == u.replies[|t.replies|];
    AnswerHeard(c, u, t.sender.ring.lower);
  }

  /** After it, the answer is left unread, and nothing can tell the sender that the file has arrived. */
  lemma TenthAnswerIsInVain(c: Session, t: System)
    requires c.Valid() && Inv(c, t) && Waiting(t.sender) && t.sender.phase.count == 9
    requires R.Polling(t.receiver) && t.replies == []
    ensures var t' := Apply(Apply(t, SenderWaits), Delivered(LowestFrame(c, t), Intact));
            && |t'.replies| == 1 && Answers(t'.replies[0], t.sender.ring.lower)
            && Apply(t', SenderHears(Intact)) == t'
            && forall more :: !Told(t', more)
  {
    TimeoutResendsLowest(c, t);
    var u := Apply(t, SenderWaits);
    DeliveryAnswered(c, u, LowestFrame(c, t));
    var t' := Apply(u, Delivered(LowestFrame(c, t), Intact));
    assert GaveUp(t'.sender) && !S.Polling(t'.sender);
    hide Apply, Inv, GaveUp;
    forall more
      ensures !Told(t', more)
    {
      NeverTold(t', more);
    }
  }

  /**
   Every transfer has a run in which nine polls in a row have been silent, in window_closed when
   the file fills the window and in end_of_file otherwise. If a copy of the lowest frame now
   arrives, its answer is heard and obeyed. If the tenth poll is silent too, the copy that is
   sent may arrive and be answered, but the answer is never read.
   */
  lemma AnsweredInVain(c: Session)
    requires c.Valid()
    ensures exists schedule ::
              var t := After(c, schedule);
              var f := LowestFrame(c, t);
              var early, late := Apply(t, Delivered(f, Intact)), Apply(Apply(t, SenderWaits), Delivered(f, Intact));
              var heard := Apply(early, SenderHears(Intact));
              && t.sender.phase == WaitingPhase(c, 9) && Waiting(t.sender)
              && (HearsEofAck(early, SenderHears(Intact))
                  || (heard.sender.ring.lower > t.sender.ring.lower && !GaveUp(heard.sender)))
              && |late.replies| == 1 && Answers(late.replies[0], t.sender.ring.lower)
              && Apply(late, SenderHears(Intact)) == late
              && forall more :: !Told(late, more)
  {
    hide Apply, Inv, HearsEofAck, Answers, Told, GaveUp, Waiting, S.Polling, Resent, UntilWaiting;
    var schedule := UntilWaiting(c) + SilentPolls(9);
    SilentPollsWork(c, 9);
    AfterResent(c, schedule);
    assert R.Polling(After(c, schedule).receiver);
    NinthAnswerHelps(c, After(c, schedule));
    TenthAnswerIsInVain(c, After(c, schedule));
  }

  lemma NeverTold(t: System, schedule: seq<Label>)
    requires GaveUp(t.sender)
    ensures !Told(t, schedule)
  {
    if schedule != [] {
      StaysGivenUp(t, schedule[..|schedule| - 1]);
    }
  }

  // ----- An SREJ that could be overtaken -----

  /**
   Wherever two chunks fit the window there is a run in which an SREJ for packet 0 and an RR for
   packet 1 are in flight to a polling sender. Were the RR heard first, the SREJ would name a
   packet below the window.
   */
  lemma SrejAndRrInFlight(c: Session)
    requires c.Valid() && c.Eof() >= 2 && c.windowSize >= 2
    ensures exists schedule ::
              var t := After(c, schedule);
              && S.Polling(t.sender) && t.replies == [Srej(1, 0), Rr(2, 1)]
              && SenderInv(c, S.OnPoll(t.sender, GotRr(1)).sender)
              && S.OnPoll(t.sender, GotRr(1)).sender.ring.lower == 1
  {
    var sends := SendsUnheard(1) + [SenderActs];
    SendsUnheardWorks(c, 1);
    AfterInv(c, SendsUnheard(1));
    OneMoreChunk(c, After(c, SendsUnheard(1)), 1);
    AfterOneMore(c, SendsUnheard(1), SenderActs);
    AfterInv(c, sends);
    var first, second := Delivered(c.DataFrame(1), Intact), Delivered(c.DataFrame(0), Intact);
    OutOfOrder(c, After(c, sends));
    AfterOneMore(c, sends, first);
    AfterOneMore(c, sends + [first], second);
    RrKeeps(c, After(c, sends).sender, 1, S.WindowOpen);
  }

  /** The second packet arrives before the first. */
  lemma OutOfOrderReplies(r: R.Receiver, second: Frame, first: Frame)
    requires r.phase == R.InOrder && r.ring.current == 0 && r.sendSeq == 1
    requires second.seqNo == 1 && first.seqNo == 0 && first.flag == DATA_PACKET_FLAG
    ensures var o := R.OnPoll(r, Arrived(second));
            && R.Polling(o.receiver) && o.replies == [Srej(1, 0)]
            && R.OnPoll(o.receiver, Arrived(first)).replies == [Rr(2, 1)]
  {
  }

  lemma OutOfOrder(c: Session, t: System)
    requires c.Valid() && Inv(c, t) && SentUnheard(c, t, 2) && c.Eof() >= 2
    ensures var t' := Apply(Apply(t, Delivered(c.DataFrame(1), Intact)), Delivered(c.DataFrame(0), Intact));
            t'.replies == [Srej(1, 0), Rr(2, 1)] && t'.sender == t.sender
  {
    hide Inv, R.OnPoll, R.FlushStep, S.OnPoll, S.Act, ArrivalEvent, HeardEvent;
    var second, first := c.DataFrame(1), c.DataFrame(0);
    OutOfOrderReplies(t.receiver, second, first);
    DeliveredFrame(c, t, second, Intact);
    DeliveredKeeps(c, t, second, Intact);
    hide SentUnheard, Session.DataFrame;
    DeliveredFrame(c, Apply(t, Delivered(second, Intact)), first, Intact);
  }
}
