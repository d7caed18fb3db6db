/**
 Completion: exactly when the sender can still be told that the file has arrived, and how far
 its patience goes.
 */
module TransferCompletion {
  import opened Messages
  import opened Session
  import opened SenderFacts
  import opened ReceiverFacts
  import opened ReceiverRefinement
  import opened Transfer
  import opened TransferInvariant
  import opened TransferProgress
  import S = SenderModel
  import R = ReceiverModel

  // ----- The copies a timeout has sent are on the data path -----

  /** A sender that has polled in vain has sent its lowest frame again. */
  ghost predicate Resent(c: Session, t: System)
    requires c.Valid()
  {
    match t.sender.phase
    case WindowClosed(count) => count > 0 ==> LowestFrame(c, t) in t.data
    case EofSent(count) => count > 0 ==> LowestFrame(c, t) in t.data
    case _ => true
  }

  /** No silent poll has been counted since anything else happened to the sender. */
  predicate Fresh(s: S.Sender) {
    match s.phase
    case WindowClosed(count) => count == 0
    case EofSent(count) => count == 0
    case _ => true
  }

  lemma StepsFresh(s: S.Sender, ev: AckEvent)
    ensures S.Polling(s) && (ev != Silence || s.phase == S.AwaitPoll) ==> Fresh(S.OnPoll(s, ev).sender)
    ensures !S.Polling(s) ==> Fresh(S.Act(s).sender)
  {
  }

  lemma ApplyResent(c: Session, t: System, event: Label)
    requires c.Valid() && Inv(c, t) && Resent(c, t)
    ensures Resent(c, Apply(t, event))
  {
    hide Inv, S.OnPoll, S.Act, R.OnPoll, R.FlushStep, HeardEvent, ArrivalEvent;
    match event
    case SenderActs => StepsFresh(t.sender, Silence);
    case SenderWaits =>
      if Waiting(t.sender) {
        TimeoutResendsLowest(c, t);
      } else {
        StepsFresh(t.sender, Silence);
      }
    case SenderHears(fault) =>
      if t.replies != [] {
        HeardIsHearable(c, t, fault);
        StepsFresh(t.sender, HeardEvent(t, fault));
      }
    case _ =>
  }

  lemma {:induction false} AfterResent(c: Session, schedule: seq<Label>)
    requires c.Valid()
    ensures Inv(c, After(c, schedule)) && Resent(c, After(c, schedule))
  {
    AfterInv(c, schedule);
    if schedule != [] {
      AfterResent(c, schedule[..|schedule| - 1]);
      ApplyResent(c, After(c, schedule[..|schedule| - 1]), schedule[|schedule| - 1]);
    }
  }

  // ----- Giving up -----

  /** The sender has stopped, or has polled in vain ten times in a row and is about to. */
  predicate GaveUp(s: S.Sender) {
    match s.phase
    case Done => true
    case WindowClosed(count) => count >= 10
    case EofSent(count) => count >= 10
    case _ => false
  }

  predicate EofAckComing(replies: seq<Reply>) {
    exists i :: 0 <= i < |replies| && replies[i].EofAck?
  }

  /** Neither end has given up: a receiver that has stopped has an EOF ACK on its way. */
  predicate Live(t: System) {
    !GaveUp(t.sender) && (t.receiver.phase == R.Done ==> EofAckComing(t.replies))
  }

  /** The last label of the schedule lets the sender hear the EOF ACK. */
  ghost predicate Told(t: System, schedule: seq<Label>) {
    schedule != [] && HearsEofAck(Execute(t, schedule[..|schedule| - 1]), schedule[|schedule| - 1])
  }

  lemma ApplyHopeless(t: System, event: Label)
    requires !Live(t)
    ensures !Live(Apply(t, event))
  {
    hide HeardEvent, ArrivalEvent, R.OnPoll;
    var t' := Apply(t, event);
    if EofAckComing(t'.replies) && t.receiver.phase == R.Done {
      var i :| 0 <= i < |t'.replies| && t'.replies[i].EofAck?;
      assert t'.replies[i] in t.replies;
      var j :| 0 <= j < |t.replies| && t.replies[j] == t'.replies[i];
      assert t.replies[j].EofAck?;
    }
  }

  lemma {:induction false} StaysHopeless(t: System, schedule: seq<Label>)
    requires !Live(t)
    ensures !Live(Execute(t, schedule))
  {
    if schedule != [] {
      StaysHopeless(t, schedule[..|schedule| - 1]);
      ApplyHopeless(Execute(t, schedule[..|schedule| - 1]), schedule[|schedule| - 1]);
    }
  }

  /** A sender that hears the EOF ACK had not given up, and nor had the receiver. */
  lemma HearsWhileLive(c: Session, t: System, event: Label)
    requires c.Valid() && Inv(c, t) && HearsEofAck(t, event)
    ensures Live(t)
  {
    EofAckCompletes(c, t, event);
  }

  // ----- The way to completion -----

  /**
   What a network that from now on carries only timeout resends and replies lets happen:
   nothing is damaged, no reply is lost, a poll stays silent only when nothing is in flight
   to the sender, and the only frame delivered is the copy of the sender's lowest frame that a
   timeout has sent. The receiver does not time out and read() does not fail.
   */
  ghost predicate Lean(c: Session, t: System, event: Label)
    requires c.Valid()
  {
    match event
    case SenderHears(fault) => fault == Intact
    case Delivered(f, fault) => fault == Intact && f in t.data && f == LowestFrame(c, t)
    case SenderWaits => t.replies == []
    case SenderActs => true
    case ReceiverFlushes => true
    case _ => false
  }

  ghost predicate LeanRun(c: Session, t: System, schedule: seq<Label>)
    requires c.Valid()
  {
    schedule != [] ==>
      && LeanRun(c, t, schedule[..|schedule| - 1])
      && Lean(c, Execute(t, schedule[..|schedule| - 1]), schedule[|schedule| - 1])
  }

  lemma Extended(c: Session, t: System, schedule: seq<Label>, event: Label)
    requires c.Valid()
    ensures Execute(t, schedule + [event]) == Apply(Execute(t, schedule), event)
    ensures LeanRun(c, t, schedule + [event]) <==> LeanRun(c, t, schedule) && Lean(c, Execute(t, schedule), event)
    ensures Told(t, schedule + [event]) <==> HearsEofAck(Execute(t, schedule), event)
  {
    assert (schedule + [event])[..|schedule|] == schedule;
  }

  lemma {:induction false} Joined(c: Session, t: System, a: seq<Label>, b: seq<Label>)
    requires c.Valid() && LeanRun(c, t, a) && LeanRun(c, Execute(t, a), b)
    ensures LeanRun(c, t, a + b)
    ensures b != [] ==> (Told(t, a + b) <==> Told(Execute(t, a), b))
  {
    if b == [] {
      assert a + b == a;
    } else {
      var front := b[..|b| - 1];
      Joined(c, t, a, front);
      ExecuteAppend(t, a, front);
      assert (a + b)[..|a + b| - 1] == a + front;
    }
  }

  /** What is known of a live system in a run. */
  ghost predicate Hopeful(c: Session, t: System)
    requires c.Valid()
  {
    Inv(c, t) && Resent(c, t) && Live(t)
  }

  /** A waiting sender that will still poll after its next timeout. */
  predicate Patient(s: S.Sender) {
    match s.phase
    case WindowClosed(count) => count + 1 < 10
    case EofSent(count) => count + 1 < 10
    case _ => true
  }

  /**
   What happens next: the receiver finishes its flush, replies are heard in order, and a
   timeout comes only when there is nothing left to hear; then the resent frame is delivered
   and answered. At its tenth poll the sender must not time out again, so there an earlier
   copy is delivered.
   */
  ghost function Round(c: Session, t: System): (round: seq<Label>)
    requires c.Valid()
    ensures round != []
  {
    var f := LowestFrame(c, t);
    if t.receiver.phase == R.Flush then [ReceiverFlushes]
    else if !S.Polling(t.sender) then [SenderActs]
    else if t.replies != [] then [SenderHears(Intact)]
    else if t.sender.phase == S.AwaitPoll then [SenderWaits]
    else if Patient(t.sender) then [SenderWaits] + [Delivered(f, Intact)] + [SenderHears(Intact)]
    else [Delivered(f, Intact)] + [SenderHears(Intact)]
  }

  function SenderRank(s: S.Sender): nat {
    match s.phase
    case AwaitPoll => 3
    case WindowOpen => 2
    case EndOfFile => 1
    case _ => 0
  }

  function FlushRank(r: R.Receiver): nat {
    if r.phase == R.Flush then 1 else 0
  }

  /** The lexicographic order in which every round goes down. */
  ghost predicate Nearer(c: Session, t': System, t: System)
    requires c.Valid()
  {
    || Missing(c, t') < Missing(c, t)
    || (Missing(c, t') == Missing(c, t) &&
        (|| |t'.sender.unread| < |t.sender.unread|
         || (|t'.sender.unread| == |t.sender.unread| &&
             (|| FlushRank(t'.receiver) < FlushRank(t.receiver)
              || (FlushRank(t'.receiver) == FlushRank(t.receiver) &&
                  (|| |t'.replies| < |t.replies|
                   || (|t'.replies| == |t.replies| && SenderRank(t'.sender) < SenderRank(t.sender))))))))
  }

  /** The last label of a round that started in t tells the sender, or brings the end nearer. */
  ghost predicate Works(c: Session, t: System, u: System, event: Label)
    requires c.Valid()
  {
    HearsEofAck(u, event) || (Hopeful(c, Apply(u, event)) && Nearer(c, Apply(u, event), t))
  }

  /** A trip round the loop of flush writes a frame, or acknowledges EOF, or goes back to buffering. */
  lemma FlushTrip(r: R.Receiver)
    requires r.phase == R.Flush
    ensures var o := R.FlushStep(r);
            || (o.receiver.ring.current > r.ring.current && o.receiver.phase != R.Done)
            || (o.receiver.ring == r.ring && o.receiver.phase == R.Done && |o.replies| == 1 && o.replies[0].EofAck?)
            || (o.receiver.ring == r.ring && o.receiver.phase == R.Buffering && o.replies == [])
  {
  }

  lemma FlushNearer(c: Session, t: System, o: R.Output)
    requires c.Valid() && t.receiver.phase == R.Flush
    requires o.receiver.ring.current > t.receiver.ring.current
             || (o.receiver.ring == t.receiver.ring && o.receiver.phase != R.Flush)
    ensures Nearer(c, ReceiverGoes(t, o), t)
  {
  }

  lemma FlushLive(c: Session, t: System, o: R.Output)
    requires c.Valid() && Live(t) && Resent(c, t)
    requires o.receiver.phase == R.Done ==> |o.replies| == 1 && o.replies[0].EofAck?
    ensures Live(ReceiverGoes(t, o)) && Resent(c, ReceiverGoes(t, o))
  {
    assert o.receiver.phase == R.Done ==> ReceiverGoes(t, o).replies[|t.replies|].EofAck?;
  }

  lemma FlushRound(c: Session, t: System)
    requires c.Valid() && Hopeful(c, t) && t.receiver.phase == R.Flush
    ensures Works(c, t, t, ReceiverFlushes)
  {
    hide Inv, Resent, Live, Nearer, R.FlushStep, ReceiverGoes;
    FlushKeeps(c, t);
    FlushTrip(t.receiver);
    FlushNearer(c, t, R.FlushStep(t.receiver));
    FlushLive(c, t, R.FlushStep(t.receiver));
  }

  lemma ActRound(c: Session, t: System)
    requires c.Valid() && Hopeful(c, t) && !S.Polling(t.sender)
    ensures Works(c, t, t, SenderActs)
  {
    SenderActsKeeps(c, t);
    ActKeeps(c, t.sender);
    ApplyResent(c, t, SenderActs);
  }

  /** An RR or SREJ restarts the count of silent polls and leaves the file position alone. */
  lemma HearingRestarts(s: S.Sender, ev: AckEvent)
    requires S.Polling(s) && (ev.GotRr? || ev.GotSrej?)
    ensures var s' := S.OnPoll(s, ev).sender;
            s'.unread == s.unread && !GaveUp(s')
  {
  }

  lemma EofAckStaysComing(replies: seq<Reply>)
    requires EofAckComing(replies) && !replies[0].EofAck?
    ensures EofAckComing(replies[1..])
  {
    var i :| 0 <= i < |replies| && replies[i].EofAck?;
    assert replies[1..][i - 1].EofAck?;
  }

  lemma HearRound(c: Session, t: System)
    requires c.Valid() && Hopeful(c, t) && S.Polling(t.sender) && t.replies != [] && t.receiver.phase != R.Flush
    ensures Works(c, t, t, SenderHears(Intact))
  {
    if t.replies[0].EofAck? {
      EofAckHeard(c, t);
    } else {
      var ev := Meaning(t.replies[0]);
      HearsIntact(c, t);
      HearingKeeps(c, t, ev);
      HearingRestarts(t.sender, ev);
      ApplyResent(c, t, SenderHears(Intact));
      HeardReplyRound(c, t, Apply(t, SenderHears(Intact)));
    }
  }

  lemma HeardReplyRound(c: Session, t: System, t': System)
    requires c.Valid() && Hopeful(c, t) && Inv(c, t') && Resent(c, t') && t.replies != [] && !t.replies[0].EofAck?
    requires t'.receiver == t.receiver && t'.replies == t.replies[1..]
    requires t'.sender.unread == t.sender.unread && t'.sender.ring.lower >= t.sender.ring.lower
    requires !GaveUp(t'.sender)
    ensures Hopeful(c, t') && Nearer(c, t', t)
  {
    if t.receiver.phase == R.Done {
      EofAckStaysComing(t.replies);
    }
  }

  /** The lowest frame, once it is on the data path, is delivered and its answer heard. */
  lemma CopyRound(c: Session, t: System)
    requires c.Valid() && Inv(c, t) && Resent(c, t) && Waiting(t.sender) && t.replies == [] && R.Polling(t.receiver)
    requires LowestFrame(c, t) in t.data
    ensures LowestFrame(c, t).seqNo == t.sender.ring.lower
    ensures Works(c, t, Apply(t, Delivered(LowestFrame(c, t), Intact)), SenderHears(Intact))
  {
    hide HeardEvent, ArrivalEvent, S.OnPoll, R.OnPoll, SenderInv, Shape, Asked, DataPath, Buffered, Resent;
    var f := LowestFrame(c, t);
    TimeoutResendsLowest(c, t);
    DeliveryAnswered(c, t, f);
    ApplyResent(c, t, Delivered(f, Intact));
    var u := Apply(t, Delivered(f, Intact));
    assert u.replies[0] == u.replies[|t.replies|];
    AnswerHeard(c, u, f.seqNo);
    ApplyResent(c, u, SenderHears(Intact));
  }

  /** Nothing to hear after a chunk: the sender goes on. */
  lemma PauseRound(c: Session, t: System)
    requires c.Valid() && Hopeful(c, t) && t.sender.phase == S.AwaitPoll
    ensures Works(c, t, t, SenderWaits)
  {
    SenderWaitsKeeps(c, t);
  }

  /** A timeout that leaves the sender patient changes nothing but its count and what is on the data path. */
  lemma ResendRound(c: Session, t: System)
    requires c.Valid() && Hopeful(c, t) && Waiting(t.sender) && Patient(t.sender) && t.replies == []
    requires R.Polling(t.receiver)
    ensures var f := LowestFrame(c, t);
            var u := Apply(t, SenderWaits);
            && f == LowestFrame(c, u) && f in u.data
            && Works(c, t, Apply(u, Delivered(f, Intact)), SenderHears(Intact))
  {
    hide HearsEofAck, SenderInv, Shape, Asked, DataPath, Buffered;
    TimeoutResendsLowest(c, t);
    ApplyResent(c, t, SenderWaits);
    CopyRound(c, Apply(t, SenderWaits));
  }

  /** A round keeps to the lean network, and it tells the sender or brings the end nearer. */
  ghost predicate RoundOk(c: Session, t: System, round: seq<Label>)
    requires c.Valid()
  {
    && LeanRun(c, t, round)
    && (Told(t, round) || (Hopeful(c, Execute(t, round)) && Nearer(c, Execute(t, round), t)))
  }

  lemma LastLabelWorks(c: Session, t: System, round: seq<Label>, event: Label)
    requires c.Valid() && LeanRun(c, t, round) && Lean(c, Execute(t, round), event)
    requires Works(c, t, Execute(t, round), event)
    ensures RoundOk(c, t, round + [event])
  {
    hide Lean, Hopeful, Nearer, HearsEofAck, Told, LeanRun;
    Extended(c, t, round, event);
  }

  lemma SingleLabelWorks(c: Session, t: System, event: Label)
    requires c.Valid() && Lean(c, t, event) && Works(c, t, t, event)
    ensures RoundOk(c, t, [event])
  {
    assert [] + [event] == [event];
    assert Execute(t, []) == t && LeanRun(c, t, []);
    hide Lean, Works, LeanRun, RoundOk;
    LastLabelWorks(c, t, [], event);
  }

  lemma FirstLabelLean(c: Session, t: System, event: Label)
    requires c.Valid() && Lean(c, t, event)
    ensures LeanRun(c, t, [event]) && Execute(t, [event]) == Apply(t, event)
  {
    assert [] + [event] == [event];
    assert Execute(t, []) == t && LeanRun(c, t, []);
    hide Lean, LeanRun;
    Extended(c, t, [], event);
  }

  lemma RoundWorks(c: Session, t: System)
    requires c.Valid() && Hopeful(c, t)
    ensures RoundOk(c, t, Round(c, t))
  {
    hide Apply, Inv, RoundOk, Works, LeanRun, EofAckComing;
    var f := LowestFrame(c, t);
    if t.receiver.phase == R.Flush {
      FlushRound(c, t);
      SingleLabelWorks(c, t, ReceiverFlushes);
    } else if !S.Polling(t.sender) {
      ActRound(c, t);
      SingleLabelWorks(c, t, SenderActs);
    } else if t.replies != [] {
      HearRound(c, t);
      SingleLabelWorks(c, t, SenderHears(Intact));
    } else if t.sender.phase == S.AwaitPoll {
      PauseRound(c, t);
      SingleLabelWorks(c, t, SenderWaits);
    } else {
      ReceiverPolls(t);
      if Patient(t.sender) {
        ResendRound(c, t);
        FirstLabelLean(c, t, SenderWaits);
        Extended(c, t, [SenderWaits], Delivered(f, Intact));
        LastLabelWorks(c, t, [SenderWaits] + [Delivered(f, Intact)], SenderHears(Intact));
      } else {
        CopyRound(c, t);
        FirstLabelLean(c, t, Delivered(f, Intact));
        LastLabelWorks(c, t, [Delivered(f, Intact)], SenderHears(Intact));
      }
    }
  }

  /** With nothing on its way to a live sender, the receiver has not stopped. */
  lemma ReceiverPolls(t: System)
    requires Live(t) && t.replies == [] && t.receiver.phase != R.Flush
    ensures R.Polling(t.receiver)
  {
  }

  /** Rounds until the sender has been told. */
  ghost function Rounds(c: Session, t: System): (schedule: seq<Label>)
    requires c.Valid() && Hopeful(c, t)
    ensures LeanRun(c, t, schedule) && Told(t, schedule)
    decreases Missing(c, t), |t.sender.unread|, FlushRank(t.receiver), |t.replies|, SenderRank(t.sender)
  {
    RoundWorks(c, t);
    var round := Round(c, t);
    if Told(t, round) then round
    else
      var rest := Rounds(c, Execute(t, round));
      Joined(c, t, round, rest);
      round + rest
  }

  /** A schedule that ends with the sender being told completes the transfer. */
  lemma ToldCompletes(c: Session, prefix: seq<Label>, schedule: seq<Label>)
    requires c.Valid() && Told(After(c, prefix), schedule)
    ensures Completed(c, After(c, prefix + schedule)) && Live(After(c, prefix))
  {
    var t := After(c, prefix);
    var front := schedule[..|schedule| - 1];
    AfterInv(c, prefix);
    ExecuteKeeps(c, t, front);
    EofAckCompletes(c, Execute(t, front), schedule[|schedule| - 1]);
    HearsWhileLive(c, Execute(t, front), schedule[|schedule| - 1]);
    if !Live(t) {
      StaysHopeless(t, front);
    }
    ExecuteAppend(Initial(c), prefix, schedule);
  }

  /**
   Completion stays possible: whatever has happened so far, as long as neither end has given
   up, a network that from now on carries only the timeout resends and the replies brings the
   transfer to its end: the whole file is written and the sender hears the EOF ACK.
   */
  lemma CompletionReachable(c: Session, prefix: seq<Label>)
    requires c.Valid() && Live(After(c, prefix))
    ensures exists schedule ::
              && LeanRun(c, After(c, prefix), schedule) && Told(After(c, prefix), schedule)
              && Completed(c, After(c, prefix + schedule))
  {
    AfterResent(c, prefix);
    var schedule := Rounds(c, After(c, prefix));
    ToldCompletes(c, prefix, schedule);
  }

  /** Exactly when neither end has given up can the sender still be told that the file has arrived. */
  lemma CompletionExact(c: Session, prefix: seq<Label>)
    requires c.Valid()
    ensures (exists schedule :: Told(After(c, prefix), schedule)) <==> Live(After(c, prefix))
  {
    if Live(After(c, prefix)) {
      CompletionReachable(c, prefix);
    }
    forall schedule | Told(After(c, prefix), schedule)
      ensures Live(After(c, prefix))
    {
      ToldCompletes(c, prefix, schedule);
    }
  }

  /** Every transfer can complete. */
  lemma TransferCanComplete(c: Session)
    requires c.Valid()
    ensures exists schedule ::
              LeanRun(c, Initial(c), schedule) && Told(Initial(c), schedule) && Completed(c, After(c, schedule))
  {
    assert After(c, []) == Initial(c);
    CompletionReachable(c, []);
    var schedule :| LeanRun(c, Initial(c), schedule) && Told(Initial(c), schedule)
                    && Completed(c, After(c, [] + schedule));
    assert [] + schedule == schedule;
  }

  // ----- The tenth silent poll -----

  /**
   A timeout's copy can be answered to a sender that polls again just when the silent poll is
   not the tenth in a row, in window_closed and in end_of_file alike.
   */
  lemma PatienceIsExact(c: Session, t: System)
    requires c.Valid() && Inv(c, t) && Waiting(t.sender)
    ensures LowestFrame(c, t) in Apply(t, SenderWaits).data
    ensures S.Polling(Apply(t, SenderWaits).sender) <==> Patient(t.sender)
    ensures GaveUp(Apply(t, SenderWaits).sender) <==> !Patient(t.sender)
  {
    TimeoutResendsLowest(c, t);
  }

  /**
   After the tenth silent poll in a row the sender resends but never polls again: whatever
   happens, it is never told, its window stays as it is, and it can only stop.
   */
  lemma TenthResendIsUnheard(c: Session, t: System, schedule: seq<Label>)
    requires c.Valid() && Inv(c, t) && Waiting(t.sender) && !Patient(t.sender)
    ensures var t' := Execute(Apply(t, SenderWaits), schedule);
            && !S.Polling(t'.sender) && t'.sender.ring == t.sender.ring
            && !Told(Apply(t, SenderWaits), schedule)
            && (SenderActs in schedule ==> t'.sender.phase == S.Done)
  {
    TimeoutResendsLowest(c, t);
    StaysGivenUp(Apply(t, SenderWaits), schedule);
    if schedule != [] {
      StaysGivenUp(Apply(t, SenderWaits), schedule[..|schedule| - 1]);
    }
  }

  lemma GivenUpStays(t: System, event: Label)
    requires GaveUp(t.sender)
    ensures GaveUp(Apply(t, event).sender) && Apply(t, event).sender.ring == t.sender.ring
    ensures event == SenderActs || t.sender.phase == S.Done ==> Apply(t, event).sender.phase == S.Done
  {
  }

  lemma {:induction false} StaysGivenUp(t: System, schedule: seq<Label>)
    requires GaveUp(t.sender)
    ensures GaveUp(Execute(t, schedule).sender) && Execute(t, schedule).sender.ring == t.sender.ring
    ensures SenderActs in schedule ==> Execute(t, schedule).sender.phase == S.Done
  {
    if schedule != [] {
      StaysGivenUp(t, schedule[..|schedule| - 1]);
      GivenUpStays(Execute(t, schedule[..|schedule| - 1]), schedule[|schedule| - 1]);
    }
  }
}
