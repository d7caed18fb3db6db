/** The inductive invariant of the whole system. */
module TransferInvariant {
  import opened Options
  import opened Pdu
  import opened Messages
  import opened Window
  import opened Chunking
  import opened Session
  import opened SenderFacts
  import opened ReceiverFacts
  import opened ReceiverRefinement
  import opened Transfer
  import S = SenderModel
  import R = ReceiverModel

  /** The receiver lies inside the sender's window. */
  predicate Aligned(s: S.Sender, r: R.Receiver) {
    && Size(r.ring) == Size(s.ring)
    && s.ring.lower <= r.ring.current <= s.ring.current
  }

  /** Every frame on the data path is one the sender can have sent. */
  ghost predicate DataPath(c: Session, s: S.Sender, data: set<Frame>)
    requires c.Valid()
  {
    forall f :: f in data ==> Sendable(c, s, f)
  }

  /** Every buffered frame came from the data path. */
  ghost predicate Buffered(r: R.Receiver, data: set<Frame>) {
    forall k :: InRing(r, k) && GetPdu(r.ring, k).Some? ==> GetPdu(r.ring, k).value in data
  }

  ghost predicate Written(c: Session, r: R.Receiver)
    requires c.Valid()
  {
    r.ring.current <= c.Eof() && r.output == Flatten(c.Payloads()[..r.ring.current])
  }

  /** What one reply may say. */
  ghost predicate ReplyOk(c: Session, s: S.Sender, r: R.Receiver, reply: Reply)
    requires c.Valid()
  {
    match reply
    case Rr(_, n) => n <= r.ring.current
    case Srej(_, n) => s.ring.lower <= n < s.ring.current
    case EofAck(_, _) => r.phase == R.Done && r.ring.current == c.Eof() && PastEof(s)
  }

  /** No SREJ names a number that an RR ahead of it acknowledges. */
  predicate Ordered(replies: seq<Reply>) {
    forall i, j :: 0 <= i < j < |replies| && replies[i].Rr? && replies[j].Srej? ==>
      replies[i].number <= replies[j].number
  }

  ghost predicate ReplyPath(c: Session, s: S.Sender, r: R.Receiver, replies: seq<Reply>)
    requires c.Valid()
  {
    && (forall i :: 0 <= i < |replies| ==> ReplyOk(c, s, r, replies[i]))
    && Ordered(replies)
  }

  /** An EOF ACK has been sent only at the very end. */
  ghost predicate EofAckHonest(c: Session, r: R.Receiver, log: seq<Reply>)
    requires c.Valid()
  {
    forall i :: 0 <= i < |log| && log[i].EofAck? ==> r.phase == R.Done && r.ring.current == c.Eof()
  }

  ghost predicate Inv(c: Session, t: System)
    requires c.Valid()
  {
    && SenderInv(c, t.sender)
    && Shape(t.receiver)
    && Aligned(t.sender, t.receiver)
    && DataPath(c, t.sender, t.data)
    && Buffered(t.receiver, t.data)
    && Written(c, t.receiver)
    && ReplyPath(c, t.sender, t.receiver, t.replies)
    && EofAckHonest(c, t.receiver, t.log)
    && Asked(t.receiver, t.log)
  }

  lemma InitialInv(c: Session)
    requires c.Valid()
    ensures Inv(c, Initial(c))
  {
    assert c.Payloads()[0..] == c.Payloads();
    assert c.Payloads()[..0] == [];
  }

  // ----- Sender steps -----

  /** A sender step that goes forward keeps everything that is known about the rest of the system. */
  lemma SenderGoesKeeps(c: Session, t: System, o: S.Output)
    requires c.Valid() && Inv(c, t) && Progresses(c, t.sender, o)
    requires o.sender.ring.lower <= t.receiver.ring.current
    requires forall i :: 0 <= i < |t.replies| && t.replies[i].Srej? ==> o.sender.ring.lower <= t.replies[i].number
    ensures Inv(c, SenderGoes(t, o))
  {
    var t' := SenderGoes(t, o);
    forall f | f in t'.data
      ensures Sendable(c, t'.sender, f)
    {
      if f in t.data {
        assert Sendable(c, t.sender, f);
      }
    }
    forall i | 0 <= i < |t.replies|
      ensures ReplyOk(c, t'.sender, t'.receiver, t.replies[i])
    {
      assert ReplyOk(c, t.sender, t.receiver, t.replies[i]);
    }
  }

  lemma SenderActsKeeps(c: Session, t: System)
    requires c.Valid() && Inv(c, t) && !S.Polling(t.sender)
    ensures Inv(c, SenderGoes(t, S.Act(t.sender)))
  {
    ActKeeps(c, t.sender);
    assert forall i :: 0 <= i < |t.replies| ==> ReplyOk(c, t.sender, t.receiver, t.replies[i]);
    SenderGoesKeeps(c, t, S.Act(t.sender));
  }

  lemma SenderWaitsKeeps(c: Session, t: System)
    requires c.Valid() && Inv(c, t) && S.Polling(t.sender)
    ensures Inv(c, SenderGoes(t, S.OnPoll(t.sender, Silence)))
  {
    PollKeeps(c, t.sender, Silence);
    assert forall i :: 0 <= i < |t.replies| ==> ReplyOk(c, t.sender, t.receiver, t.replies[i]);
    SenderGoesKeeps(c, t, S.OnPoll(t.sender, Silence));
  }

  /** The head of the queue is heard as what it says or as garbage, and is always safe to act on. */
  lemma HeardIsHearable(c: Session, t: System, fault: Fault)
    requires c.Valid() && Inv(c, t) && t.replies != []
    ensures HeardEvent(t, fault) == Meaning(t.replies[0]) || HeardEvent(t, fault) == Garbled
    ensures fault == Intact ==> HeardEvent(t, fault) == Meaning(t.replies[0])
    ensures Hearable(t.sender, HeardEvent(t, fault))
  {
    var reply := t.replies[0];
    assert ReplyOk(c, t.sender, t.receiver, reply);
    OnWireFaults(ReplyFrame(reply), fault);
    ReplyOnWire(reply, Some(OnWire(ReplyFrame(reply), fault)));
  }

  lemma ReplyTailKeeps(c: Session, t: System)
    requires c.Valid() && Inv(c, t) && t.replies != []
    ensures Inv(c, t.(replies := t.replies[1..]))
  {
    assert Ordered(t.replies[1..]);
  }

  /** Acting on the head of the queue, or on garbage in its place. */
  lemma HearingKeeps(c: Session, t: System, ev: AckEvent)
    requires c.Valid() && Inv(c, t) && S.Polling(t.sender) && t.replies != []
    requires ev == Meaning(t.replies[0]) || ev == Garbled
    ensures Inv(c, SenderGoes(t.(replies := t.replies[1..]), S.OnPoll(t.sender, ev)))
    ensures S.OnPoll(t.sender, ev).sender.ring.lower ==
            if ev.GotRr? then Max(t.sender.ring.lower, ev.number) else t.sender.ring.lower
  {
    var rest := t.(replies := t.replies[1..]);
    assert ReplyOk(c, t.sender, t.receiver, t.replies[0]);
    ReplyTailKeeps(c, t);
    PollKeeps(c, t.sender, ev);
    forall i | 0 <= i < |rest.replies| && rest.replies[i].Srej?
      ensures S.OnPoll(t.sender, ev).sender.ring.lower <= rest.replies[i].number
    {
      assert ReplyOk(c, t.sender, t.receiver, t.replies[i + 1]);
    }
    SenderGoesKeeps(c, rest, S.OnPoll(t.sender, ev));
  }

  lemma SenderHearsKeeps(c: Session, t: System, fault: Fault)
    requires c.Valid() && Inv(c, t) && S.Polling(t.sender) && t.replies != []
    ensures Inv(c, Apply(t, SenderHears(fault)))
  {
    hide Inv, HeardEvent, S.OnPoll, SenderGoes;
    HeardIsHearable(c, t, fault);
    HearingKeeps(c, t, HeardEvent(t, fault));
  }

  lemma ReplyLostKeeps(c: Session, t: System, k: nat)
    requires c.Valid() && Inv(c, t) && k < |t.replies|
    ensures Inv(c, t.(replies := t.replies[..k] + t.replies[k + 1..]))
  {
    var left := t.replies[..k] + t.replies[k + 1..];
    forall i | 0 <= i < |left|
      ensures ReplyOk(c, t.sender, t.receiver, left[i])
    {
      assert left[i] == t.replies[if i < k then i else i + 1];
    }
    assert forall i :: 0 <= i < |left| ==> left[i] == t.replies[if i < k then i else i + 1];
  }

  // ----- Receiver steps -----

  /** What a receiver step says, and that it still lies inside the sender's window afterwards. */
  ghost predicate SaysWell(c: Session, t: System, o: R.Output)
    requires c.Valid()
  {
    && (forall i :: 0 <= i < |o.replies| ==> ReplyOk(c, t.sender, o.receiver, o.replies[i]))
    && (forall i :: 0 <= i < |o.replies| && o.replies[i].Srej? ==> o.replies[i].number >= t.receiver.ring.current)
    && Ordered(o.replies)
  }

  lemma ReceiverGoesKeeps(c: Session, t: System, o: R.Output)
    requires c.Valid() && Inv(c, t) && t.receiver.phase != R.Done
    requires Shape(o.receiver) && Aligned(t.sender, o.receiver) && t.receiver.ring.current <= o.receiver.ring.current
    requires Buffered(o.receiver, t.data) && Written(c, o.receiver)
    requires SaysWell(c, t, o) && Asked(o.receiver, t.log + o.replies)
    ensures Inv(c, ReceiverGoes(t, o))
  {
    var replies := t.replies + o.replies;
    forall i | 0 <= i < |replies|
      ensures ReplyOk(c, t.sender, o.receiver, replies[i])
    {
      if i < |t.replies| {
        assert ReplyOk(c, t.sender, t.receiver, t.replies[i]);
      }
    }
    forall i, j | 0 <= i < j < |replies| && replies[i].Rr? && replies[j].Srej?
      ensures replies[i].number <= replies[j].number
    {
      if i < |t.replies| {
        assert ReplyOk(c, t.sender, t.receiver, t.replies[i]);
      }
    }
    var log := t.log + o.replies;
    forall i | 0 <= i < |log| && log[i].EofAck?
      ensures o.receiver.phase == R.Done && o.receiver.ring.current == c.Eof()
    {
      if i >= |t.log| {
        assert ReplyOk(c, t.sender, o.receiver, o.replies[i - |t.log|]);
      }
    }
  }

  /** A frame on the data path arrives unchanged or is recognised as corrupt. */
  lemma DeliveredFrame(c: Session, t: System, f: Frame, fault: Fault)
    requires c.Valid() && Inv(c, t) && f in t.data
    ensures var ev := ArrivalEvent(t, f, fault);
            (ev == Arrived(f) || ev == Corrupt) && (fault == Intact ==> ev == Arrived(f))
    ensures Bounded(t.receiver, f) && c.Genuine(f) && f.seqNo <= t.sender.ring.current
  {
    c.PayloadSizes();
    OnWireFaults(f, fault);
    FrameOnWire(f, Some(OnWire(f, fault)), t.sender.bufferSize);
  }

  /** Accepting the payload under the current number writes the next chunk of the file. */
  lemma WrittenNext(c: Session, r: R.Receiver, f: Frame)
    requires c.Valid() && Written(c, r) && c.Genuine(f) && f.seqNo == r.ring.current && f.flag != EOF_FLAG
    ensures r.ring.current < c.Eof()
    ensures r.output + f.payload == Flatten(c.Payloads()[..r.ring.current + 1])
  {
    var k := r.ring.current;
    assert c.Payloads()[..k + 1][..k] == c.Payloads()[..k];
  }

  /** When the EOF packet's number comes round, everything has been written. */
  lemma EofIsLast(c: Session, t: System, f: Frame)
    requires c.Valid() && Inv(c, t) && f in t.data && f.seqNo == t.receiver.ring.current && f.flag == EOF_FLAG
    ensures t.receiver.ring.current == c.Eof() && PastEof(t.sender)
    ensures t.receiver.output == c.file
  {
    assert Sendable(c, t.sender, f);
    assert c.Payloads()[..c.Eof()] == c.Payloads();
    FlattenChunks(c.file, c.bufferSize);
  }

  lemma BufferedAfterBuffering(r: R.Receiver, f: Frame, data: set<Frame>)
    requires R.Polling(r) && Buffered(r, data) && f in data && f.seqNo > r.ring.current && Bounded(r, f)
    ensures Buffered(R.OnPoll(r, Arrived(f)).receiver, data)
  {
    BufferedSlots(r, f);
    var r' := R.OnPoll(r, Arrived(f)).receiver;
    forall k | InRing(r', k) && GetPdu(r'.ring, k).Some?
      ensures GetPdu(r'.ring, k).value in data
    {
      assert InRing(r, k);
    }
  }

  /** The SREJs for the numbers from the frontier up to an arrival name frames the sender has sent. */
  lemma SrejsSayWell(c: Session, t: System, f: Frame)
    requires c.Valid() && Inv(c, t) && R.Polling(t.receiver)
    requires t.receiver.ring.current < f.seqNo <= t.sender.ring.current
    ensures SaysWell(c, t, R.OnPoll(t.receiver, Arrived(f)))
  {
    var o := R.OnPoll(t.receiver, Arrived(f));
    assert forall i :: 0 <= i < |o.replies| ==>
             o.replies[i].Srej? && t.receiver.ring.current <= o.replies[i].number < f.seqNo;
  }

  lemma BufferingKeeps(c: Session, t: System, f: Frame)
    requires c.Valid() && Inv(c, t) && f in t.data && R.Polling(t.receiver) && f.seqNo > t.receiver.ring.current
    ensures Inv(c, ReceiverGoes(t, R.OnPoll(t.receiver, Arrived(f))))
  {
    var r := t.receiver;
    DeliveredFrame(c, t, f, Intact);
    ShapeKeptByBuffering(r, f);
    BufferedSlots(r, f);
    AskedKeptBySrejs(r, t.log, f);
    BufferedAfterBuffering(r, f, t.data);
    SrejsSayWell(c, t, f);
    ReceiverGoesKeeps(c, t, R.OnPoll(r, Arrived(f)));
  }

  /** A frame under the expected number was sent, so accepting it stays inside the sender's window. */
  lemma AcceptingSaysWell(c: Session, t: System, f: Frame)
    requires c.Valid() && Inv(c, t) && f in t.data && R.Polling(t.receiver)
    requires f.seqNo == t.receiver.ring.current && f.flag != EOF_FLAG && f.payload != []
    ensures var o := R.OnPoll(t.receiver, Arrived(f));
            Aligned(t.sender, o.receiver) && SaysWell(c, t, o)
  {
    assert Sendable(c, t.sender, f);
  }

  /** What an acceptance writes and where it leaves the receiver. */
  lemma AcceptingWrites(c: Session, r: R.Receiver, f: Frame)
    requires c.Valid() && R.Polling(r) && Written(c, r) && c.Genuine(f)
    requires f.seqNo == r.ring.current && f.flag != EOF_FLAG && f.payload != []
    ensures var r' := R.OnPoll(r, Arrived(f)).receiver;
            Written(c, r') && r'.ring.current == r.ring.current + 1
  {
    WrittenNext(c, r, f);
  }

  lemma AcceptingKeeps(c: Session, t: System, f: Frame)
    requires c.Valid() && Inv(c, t) && f in t.data && R.Polling(t.receiver)
    requires f.seqNo == t.receiver.ring.current && f.flag != EOF_FLAG
    ensures Inv(c, ReceiverGoes(t, R.OnPoll(t.receiver, Arrived(f))))
  {
    var r := t.receiver;
    DeliveredFrame(c, t, f, Intact);
    c.PayloadSizes();
    hide R.OnPoll, Shape, Asked, Buffered, Aligned, SaysWell, Written, ReceiverGoes;
    AcceptingWrites(c, r, f);
    ShapeKeptByAccepting(r, f);
    AskedKeptByAccepting(r, t.log, f);
    BufferedAfterAccepting(r, f, t.data);
    AcceptingSaysWell(c, t, f);
    ReceiverGoesKeeps(c, t, R.OnPoll(r, Arrived(f)));
  }

  lemma BufferedAfterAccepting(r: R.Receiver, f: Frame, data: set<Frame>)
    requires Shape(r) && R.Polling(r) && Buffered(r, data) && f.seqNo == r.ring.current && f.flag != EOF_FLAG
    ensures Buffered(R.OnPoll(r, Arrived(f)).receiver, data)
  {
    var r' := R.OnPoll(r, Arrived(f)).receiver;
    assert InRing(r, r.ring.current);
    Aliased(r.ring, r.ring.current);
    forall k | InRing(r', k) && GetPdu(r'.ring, k).Some?
      ensures GetPdu(r'.ring, k).value in data
    {
      assert GetPdu(r'.ring, k) == GetPdu(r.ring, k);
      assert InRing(r, k) || k == r.ring.current + Size(r.ring);
    }
  }

  lemma DeliveredKeeps(c: Session, t: System, f: Frame, fault: Fault)
    requires c.Valid() && Inv(c, t) && f in t.data && R.Polling(t.receiver)
    ensures Inv(c, Apply(t, Delivered(f, fault)))
  {
    hide Inv, ArrivalEvent, R.OnPoll, ReceiverGoes;
    DeliveredFrame(c, t, f, fault);
    CorruptKeeps(c, t);
    ArrivedKeeps(c, t, f);
  }

  lemma CorruptKeeps(c: Session, t: System)
    requires c.Valid() && Inv(c, t) && R.Polling(t.receiver)
    ensures Inv(c, ReceiverGoes(t, R.OnPoll(t.receiver, Corrupt)))
  {
    SilentKeeps(c, t, R.OnPoll(t.receiver, Corrupt));
  }

  lemma ArrivedKeeps(c: Session, t: System, f: Frame)
    requires c.Valid() && Inv(c, t) && f in t.data && R.Polling(t.receiver)
    ensures Inv(c, ReceiverGoes(t, R.OnPoll(t.receiver, Arrived(f))))
  {
    var r := t.receiver;
    if f.seqNo > r.ring.current {
      BufferingKeeps(c, t, f);
    } else if f.seqNo == r.ring.current && f.flag != EOF_FLAG {
      AcceptingKeeps(c, t, f);
    } else if f.seqNo == r.ring.current {
      EofIsLast(c, t, f);
      SilentKeeps(c, t, R.OnPoll(r, Arrived(f)));
    } else {
      SilentKeeps(c, t, R.OnPoll(r, Arrived(f)));
    }
  }

  /** A receiver step that writes nothing, buffers nothing and says at most one thing other than SREJ. */
  lemma SilentKeeps(c: Session, t: System, o: R.Output)
    requires c.Valid() && Inv(c, t) && t.receiver.phase != R.Done
    requires o.receiver.ring == t.receiver.ring && o.receiver.output == t.receiver.output
    requires o.receiver.phase == t.receiver.phase || o.receiver.phase == R.Done
             || (t.receiver.phase == R.Flush && o.receiver.phase == R.Buffering
                 && !CheckPduValid(t.receiver.ring, t.receiver.ring.current))
    requires |o.replies| <= 1
    requires |o.replies| == 1 ==> !o.replies[0].Srej? && ReplyOk(c, t.sender, o.receiver, o.replies[0])
    ensures Inv(c, ReceiverGoes(t, o))
  {
    SrejCountOthers(t.log, o.replies);
    assert forall k :: InRing(o.receiver, k) <==> InRing(t.receiver, k);
    ReceiverGoesKeeps(c, t, o);
  }

  lemma FlushKeeps(c: Session, t: System)
    requires c.Valid() && Inv(c, t) && t.receiver.phase == R.Flush
    ensures Inv(c, ReceiverGoes(t, R.FlushStep(t.receiver)))
  {
    var r := t.receiver;
    var o := R.FlushStep(r);
    assert InRing(r, r.ring.current);
    if !CheckPduValid(r.ring, r.ring.current) {
      SilentKeeps(c, t, o);
    } else {
      var f := GetPdu(r.ring, r.ring.current).value;
      DeliveredFrame(c, t, f, Intact);
      if f.flag == EOF_FLAG {
        EofIsLast(c, t, f);
        SilentKeeps(c, t, o);
      } else {
        FlushWriteKeeps(c, t, f);
      }
    }
  }

  lemma FlushWriteKeeps(c: Session, t: System, f: Frame)
    requires c.Valid() && Inv(c, t) && t.receiver.phase == R.Flush
    requires GetPdu(t.receiver.ring, t.receiver.ring.current) == Some(f) && f.flag != EOF_FLAG
    requires f in t.data && c.Genuine(f) && f.seqNo == t.receiver.ring.current
    ensures Inv(c, ReceiverGoes(t, R.FlushStep(t.receiver)))
  {
    var r := t.receiver;
    var o := R.FlushStep(r);
    WrittenNext(c, r, f);
    ShapeKeptByFlush(r);
    AskedKeptByFlush(r, t.log);
    FlushedSlots(r);
    assert Sendable(c, t.sender, f);
    forall k | InRing(o.receiver, k) && GetPdu(o.receiver.ring, k).Some?
      ensures GetPdu(o.receiver.ring, k).value in t.data
    {
      assert InRing(r, k);
    }
    ReceiverGoesKeeps(c, t, o);
  }

  // ----- Every step, every run -----

  lemma ApplyKeeps(c: Session, t: System, event: Label)
    requires c.Valid() && Inv(c, t)
    ensures Inv(c, Apply(t, event))
  {
    match event
    case SenderActs =>
      if !S.Polling(t.sender) {
        SenderActsKeeps(c, t);
      }
    case SenderReadFails =>
      if S.Reading(t.sender) {
        assert forall i :: 0 <= i < |t.replies| ==> ReplyOk(c, t.sender, t.receiver, t.replies[i]);
        SenderGoesKeeps(c, t, S.ReadFails(t.sender));
      }
    case SenderWaits =>
      if S.Polling(t.sender) {
        SenderWaitsKeeps(c, t);
      }
    case SenderHears(fault) =>
      if S.Polling(t.sender) && t.replies != [] {
        SenderHearsKeeps(c, t, fault);
      }
    case ReplyLost(k) =>
      if k < |t.replies| {
        ReplyLostKeeps(c, t, k);
      }
    case Delivered(f, fault) =>
      if f in t.data && R.Polling(t.receiver) {
        DeliveredKeeps(c, t, f, fault);
      }
    case ReceiverWaits =>
      if R.Polling(t.receiver) {
        SilentKeeps(c, t, R.OnPoll(t.receiver, Quiet));
      }
    case ReceiverFlushes =>
      if t.receiver.phase == R.Flush {
        FlushKeeps(c, t);
      }
  }

  lemma {:induction false} ExecuteKeeps(c: Session, t: System, schedule: seq<Label>)
    requires c.Valid() && Inv(c, t)
    ensures Inv(c, Execute(t, schedule))
  {
    if schedule != [] {
      ExecuteKeeps(c, t, schedule[..|schedule| - 1]);
      ApplyKeeps(c, Execute(t, schedule[..|schedule| - 1]), schedule[|schedule| - 1]);
    }
  }

  /** The state a schedule leads to from the start of the transfer. */
  ghost function After(c: Session, schedule: seq<Label>): System
    requires c.Valid()
  {
    Execute(Initial(c), schedule)
  }

  /** The invariant holds in every state of every run. */
  lemma AfterInv(c: Session, schedule: seq<Label>)
    requires c.Valid()
    ensures Inv(c, After(c, schedule))
  {
    InitialInv(c);
    ExecuteKeeps(c, Initial(c), schedule);
  }
}
