/** What the receiver says, reply by reply, and what its replies over a whole run add up to. */
module ReceiverTraffic {
  import opened Pdu
  import opened Messages
  import opened Session
  import opened ReceiverFacts
  import opened ReceiverRefinement
  import opened Transfer
  import opened TransferInvariant
  import opened TransferProgress
  import S = SenderModel
  import R = ReceiverModel

  // ----- One poll -----

  /** An old frame, whatever it carries, is answered by one RR for current and changes nothing else. */
  lemma OldFrameAnswered(r: R.Receiver, f: Frame)
    requires Shape(r) && R.Polling(r) && f.seqNo < r.ring.current
    ensures R.OnPoll(r, Arrived(f)) == R.Output(r.(sendSeq := r.sendSeq + 1), [Rr(r.sendSeq, r.ring.current)])
  {
  }

  /** The frame expected is acknowledged once: by an RR for the next number, or by an EOF ACK. */
  lemma ExpectedFrameAnswered(r: R.Receiver, f: Frame)
    requires R.Polling(r) && f.seqNo == r.ring.current
    ensures R.OnPoll(r, Arrived(f)).replies ==
            if f.flag == 10 then (if r.phase == R.InOrder then [EofAck(r.sendSeq, r.pad)] else [])
            else if r.phase == R.InOrder && f.payload == [] then []
            else [Rr(r.sendSeq, r.ring.current + 1)]
  {
  }

  /** A frame beyond it is answered by one SREJ for each number not yet asked for, in ascending order. */
  lemma LaterFrameAnswered(r: R.Receiver, f: Frame)
    requires R.Polling(r) && f.seqNo > r.ring.current
    ensures var lo := if r.phase == R.InOrder then r.ring.current else r.ring.highest + 1;
            var srejs := R.OnPoll(r, Arrived(f)).replies;
            && |srejs| == (if lo < f.seqNo then f.seqNo - lo else 0)
            && forall i :: 0 <= i < |srejs| ==> srejs[i] == Srej(r.sendSeq + i, lo + i)
  {
  }

  /** Silence and garbage are never answered. */
  lemma NothingAnswered(r: R.Receiver, ev: DataEvent)
    requires !ev.Arrived?
    ensures R.OnPoll(r, ev).replies == []
    ensures R.OnPoll(r, ev).receiver == if ev.Quiet? then r.(phase := R.Done) else r
  {
  }

  // ----- Over a run -----

  /**
   RR numbers never go down, none is beyond current, and every number up to current has been
   acknowledged; SREJ numbers go up, and none reaches what has not been asked for.
   */
  ghost predicate InStep(r: R.Receiver, log: seq<Reply>) {
    && (forall i, j :: 0 <= i < j < |log| && log[i].Rr? && log[j].Rr? ==> log[i].number <= log[j].number)
    && (forall i :: 0 <= i < |log| && log[i].Rr? ==> log[i].number <= r.ring.current)
    && (forall k :: 1 <= k <= r.ring.current ==> Acknowledged(log, k))
    && (forall i, j :: 0 <= i < j < |log| && log[i].Srej? && log[j].Srej? ==> log[i].number < log[j].number)
    && (r.phase != R.Done ==> forall i :: 0 <= i < |log| && log[i].Srej? ==> log[i].number < Frontier(r))
  }

  ghost predicate Acknowledged(log: seq<Reply>, k: nat) {
    exists i :: 0 <= i < |log| && log[i].Rr? && log[i].number == k
  }

  /** What one step may say: a single RR for the number it moves to, or other replies without moving. */
  ghost predicate SpeaksInStep(r: R.Receiver, o: R.Output) {
    || (o.receiver.ring.current <= r.ring.current + 1 && |o.replies| == 1 && o.replies[0].Rr?
        && o.replies[0].number == o.receiver.ring.current)
    || (o.receiver.ring.current == r.ring.current
        && (forall i :: 0 <= i < |o.replies| ==> !o.replies[i].Rr?)
        && (forall i :: 0 <= i < |o.replies| && o.replies[i].Srej? ==>
              Frontier(r) <= o.replies[i].number
              && (o.receiver.phase != R.Done ==> o.replies[i].number < Frontier(o.receiver)))
        && (forall i, j :: 0 <= i < j < |o.replies| && o.replies[i].Srej? && o.replies[j].Srej? ==>
              o.replies[i].number < o.replies[j].number))
  }

  lemma StepSpeaks(r: R.Receiver, ev: DataEvent)
    requires Shape(r)
    ensures SpeaksInStep(r, R.Step(r, ev))
    ensures R.Step(r, ev).receiver.ring.current >= r.ring.current
    ensures r.phase != R.Done && R.Step(r, ev).receiver.phase != R.Done ==>
              Frontier(R.Step(r, ev).receiver) >= Frontier(r)
    ensures r.phase == R.Done ==> R.Step(r, ev) == R.Output(r, [])
  {
    if R.Polling(r) && ev.Arrived? && ev.frame.seqNo > r.ring.current {
      LaterFrameAnswered(r, ev.frame);
      assert InRing(r, r.ring.current);
    }
  }

  lemma StepInStep(r: R.Receiver, o: R.Output, log: seq<Reply>)
    requires InStep(r, log) && SpeaksInStep(r, o) && r.phase != R.Done
    requires o.receiver.ring.current >= r.ring.current
    requires o.receiver.phase != R.Done ==> Frontier(o.receiver) >= Frontier(r)
    ensures InStep(o.receiver, log + o.replies)
  {
    forall k | 1 <= k <= o.receiver.ring.current
      ensures Acknowledged(log + o.replies, k)
    {
      if k <= r.ring.current {
        assert Acknowledged(log, k);
        var i :| 0 <= i < |log| && log[i].Rr? && log[i].number == k;
        assert (log + o.replies)[i] == log[i];
      } else {
        assert (log + o.replies)[|log|] == o.replies[0];
      }
    }
  }

  lemma ApplyInStep(c: Session, t: System, event: Label)
    requires c.Valid() && Inv(c, t) && InStep(t.receiver, t.log)
    ensures InStep(Apply(t, event).receiver, Apply(t, event).log)
  {
    hide R.Step, R.OnPoll, R.FlushStep, ArrivalEvent, InStep, SpeaksInStep, Shape;
    var ev := match event case Delivered(f, fault) => ArrivalEvent(t, f, fault) case _ => Quiet;
    StepSpeaks(t.receiver, ev);
    if t.receiver.phase != R.Done {
      StepInStep(t.receiver, R.Step(t.receiver, ev), t.log);
    }
    LabelSteps(t, event, ev);
  }

  /** A label is one step of the receiver or none. */
  lemma LabelSteps(t: System, event: Label, ev: DataEvent)
    requires ev == match event case Delivered(f, fault) => ArrivalEvent(t, f, fault) case _ => Quiet
    ensures var t' := Apply(t, event);
            || (t'.receiver == t.receiver && t'.log == t.log)
            || (t.receiver.phase != R.Done && t'.receiver == R.Step(t.receiver, ev).receiver
                && t'.log == t.log + R.Step(t.receiver, ev).replies)
  {
    hide R.OnPoll, R.FlushStep, ArrivalEvent, S.OnPoll, S.Act, HeardEvent;
  }

  /** The replies of any run. */
  lemma {:induction false} RepliesInStep(c: Session, schedule: seq<Label>)
    requires c.Valid()
    ensures InStep(After(c, schedule).receiver, After(c, schedule).log)
  {
    if schedule != [] {
      RepliesInStep(c, schedule[..|schedule| - 1]);
      AfterInv(c, schedule[..|schedule| - 1]);
      ApplyInStep(c, After(c, schedule[..|schedule| - 1]), schedule[|schedule| - 1]);
    }
  }

  /** Whatever RR a label adds to the log says where the receiver then is. */
  lemma RrSaysCurrent(c: Session, schedule: seq<Label>, event: Label, i: nat)
    requires c.Valid()
    requires var t' := Apply(After(c, schedule), event);
             |After(c, schedule).log| <= i < |t'.log| && t'.log[i].Rr?
    ensures var t' := Apply(After(c, schedule), event);
            t'.log[i].number == t'.receiver.ring.current
  {
    hide R.Step, R.OnPoll, R.FlushStep, ArrivalEvent, Shape;
    var t := After(c, schedule);
    var ev := match event case Delivered(f, fault) => ArrivalEvent(t, f, fault) case _ => Quiet;
    AfterInv(c, schedule);
    StepSpeaks(t.receiver, ev);
    LabelSteps(t, event, ev);
  }

  /** A sender that hears the highest RR ever sent knows exactly how far the receiver has come. */
  lemma HighestRrHeard(c: Session, schedule: seq<Label>)
    requires c.Valid()
    requires var t := After(c, schedule);
             && S.Polling(t.sender) && t.replies != [] && t.replies[0].Rr?
             && forall i :: 0 <= i < |t.log| && t.log[i].Rr? ==> t.log[i].number <= t.replies[0].number
    ensures var t' := Apply(After(c, schedule), SenderHears(Intact));
            t'.sender.ring.lower == t'.receiver.ring.current == After(c, schedule).receiver.ring.current
  {
    var t := After(c, schedule);
    AfterInv(c, schedule);
    RepliesInStep(c, schedule);
    assert ReplyOk(c, t.sender, t.receiver, t.replies[0]);
    assert t.receiver.ring.current >= 1 ==> Acknowledged(t.log, t.receiver.ring.current);
    HearsIntact(c, t);
    RrHeard(c, t.sender, t.replies[0].number);
  }
}
