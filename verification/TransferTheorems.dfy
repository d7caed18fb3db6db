/** What holds in every state of every run. */
module TransferTheorems {
  import opened Bytes
  import opened Options
  import opened Pdu
  import opened Messages
  import opened Window
  import opened Chunking
  import opened Session
  import opened SenderFacts
  import opened ReceiverFacts
  import opened ReceiverRefinement
  import opened Transfer
  import opened TransferInvariant
  import S = SenderModel
  import R = ReceiverModel

  lemma FlattenPrefix(payloads: seq<seq<byte>>, n: nat)
    requires n <= |payloads|
    ensures Flatten(payloads[..n]) <= Flatten(payloads)
    decreases |payloads|
  {
    if n < |payloads| {
      FlattenPrefix(payloads[..|payloads| - 1], n);
      assert payloads[..|payloads| - 1][..n] == payloads[..n];
    } else {
      assert payloads[..n] == payloads;
    }
  }

  /**
   Prefix delivery: whatever is lost, repeated, reordered or damaged, the output is the
   concatenation of the first current chunks of the file, hence a prefix of the file.
   */
  lemma PrefixDelivery(c: Session, schedule: seq<Label>)
    requires c.Valid()
    ensures var r := After(c, schedule).receiver;
            && r.ring.current <= c.Eof()
            && r.output == Flatten(c.Payloads()[..r.ring.current])
            && r.ring.current * c.bufferSize >= 0
            && r.output == c.file[..Min(r.ring.current * c.bufferSize, |c.file|)]
            && r.output <= c.file
  {
    AfterInv(c, schedule);
    FirstChunks(c.file, c.bufferSize, After(c, schedule).receiver.ring.current);
    FlattenChunks(c.file, c.bufferSize);
    FlattenPrefix(c.Payloads(), After(c, schedule).receiver.ring.current);
  }

  /**
   What goes over the wire: packet k carries the k-th stretch of bufferSize bytes of the file,
   the last whatever is left, and EOF has the number of stretches.
   */
  lemma FramesAreStretches(c: Session, schedule: seq<Label>, f: Frame)
    requires c.Valid() && f in After(c, schedule).data
    ensures var count := (|c.file| + c.bufferSize - 1) / c.bufferSize;
            && f.seqNo <= count
            && (f.seqNo == count <==> f.flag == 10)
            && (f.seqNo == count ==> |f.payload| == 1)
            && (f.seqNo < count ==>
                  && f.seqNo * c.bufferSize < |c.file|
                  && f.payload == c.file[f.seqNo * c.bufferSize..Min((f.seqNo + 1) * c.bufferSize, |c.file|)])
  {
    AfterInv(c, schedule);
    assert Sendable(c, After(c, schedule).sender, f);
    hide Inv, Sendable, After;
    c.EofIsCount();
    c.GenuineIsStretch(f);
  }

  /** The windows of the two ends stay aligned, and so does everything in flight. */
  lemma WindowsAligned(c: Session, schedule: seq<Label>)
    requires c.Valid()
    ensures var t := After(c, schedule);
            && t.sender.ring.lower <= t.receiver.ring.current <= t.sender.ring.current
            && t.sender.ring.current <= t.sender.ring.upper == t.sender.ring.lower + c.windowSize
            && (forall i :: 0 <= i < |t.replies| && t.replies[i].Rr? ==> t.replies[i].number <= t.receiver.ring.current)
            && (forall f :: f in t.data ==> f.seqNo < t.receiver.ring.current + c.windowSize)
  {
    AfterInv(c, schedule);
    var t := After(c, schedule);
    forall i | 0 <= i < |t.replies| && t.replies[i].Rr?
      ensures t.replies[i].number <= t.receiver.ring.current
    {
      assert ReplyOk(c, t.sender, t.receiver, t.replies[i]);
    }
    forall f | f in t.data
      ensures f.seqNo < t.receiver.ring.current + c.windowSize
    {
      assert Sendable(c, t.sender, f);
    }
  }

  /** The receiver's ring never holds a frame under another number, so no two share a slot. */
  lemma NoAliasing(c: Session, schedule: seq<Label>, k: nat)
    requires c.Valid()
    requires InRing(After(c, schedule).receiver, k) && CheckPduValid(After(c, schedule).receiver.ring, k)
    ensures var t := After(c, schedule);
            var f := GetPdu(t.receiver.ring, k).value;
            f.seqNo == k && f in t.data && c.Genuine(f)
  {
    AfterInv(c, schedule);
    var t := After(c, schedule);
    assert Sendable(c, t.sender, GetPdu(t.receiver.ring, k).value);
  }

  /**
   The sender's window holds exactly the frames from lower on, so none of its perror
   branches is ever taken.
   */
  lemma SenderWindowExact(c: Session, schedule: seq<Label>)
    requires c.Valid()
    ensures var s := After(c, schedule).sender;
            && s.clean && s.ring.current <= c.Eof()
            && (forall k :: s.ring.lower <= k < s.ring.upper && !s.phase.Done? ==>
                  GetPdu(s.ring, k) == if k < s.ring.current then Some(c.DataFrame(k))
                                       else if k == s.ring.current && s.phase.EofSent? then Some(c.EofFrame())
                                       else None)
            && (S.Polling(s) && s.phase != S.AwaitPoll ==> CheckPduValid(s.ring, s.ring.lower))
  {
    AfterInv(c, schedule);
    var s := After(c, schedule).sender;
    assert Stored(c, s);
  }

  /** Every SREJ the sender hears names a frame that it still holds. */
  lemma SrejNamesStoredFrame(c: Session, schedule: seq<Label>, fault: Fault)
    requires c.Valid() && After(c, schedule).replies != []
    requires HeardEvent(After(c, schedule), fault).GotSrej?
    ensures var s := After(c, schedule).sender;
            var n := HeardEvent(After(c, schedule), fault).number;
            s.ring.lower <= n < s.ring.current <= c.Eof() && GetPdu(s.ring, n) == Some(c.DataFrame(n))
  {
    hide HeardEvent, Execute;
    AfterInv(c, schedule);
    HeardIsHearable(c, After(c, schedule), fault);
  }

  /**
   What resend_data_packet does with any number, by the number of the window that shares its
   slot: a frame there goes out under the number asked for, and an empty slot is read.
   */
  lemma ResendByAlias(c: Session, s: S.Sender, n: nat, flag: byte)
    requires c.Valid() && SenderInv(c, s) && s.phase != S.Done
    ensures var o := S.Resend(s, n, flag);
            var k := Alias(s.ring, s.ring.lower, n);
            o == if k < s.ring.current then S.Output(s, [Frame(ToUint32(n), flag, c.Payloads()[k])])
                 else if k == s.ring.current && s.phase.EofSent? then
                   S.Output(s, [Frame(ToUint32(n), EOF_FLAG, [c.eofPad])])
                 else S.Output(s.(clean := false), [])
  {
    OneAlias(s.ring, s.ring.lower, n);
  }

  /** The slot read for a number holds the frame stored for it exactly when it is in the window and sent. */
  lemma ResendReadsOwnSlot(c: Session, s: S.Sender, n: int)
    requires c.Valid() && SenderInv(c, s) && s.phase != S.Done
    ensures n >= 0 && GetPdu(s.ring, n).Some? && GetPdu(s.ring, n).value.seqNo == n
            <==> s.ring.lower <= n < s.ring.current || (n == s.ring.current && s.phase.EofSent?)
  {
    if n >= 0 {
      OneAlias(s.ring, s.ring.lower, n);
      var k := Alias(s.ring, s.ring.lower, n);
      assert k < s.ring.current ==> GetPdu(s.ring, k) == Some(c.DataFrame(k));
    }
  }

  /**
   Why the reply path must keep order: an SREJ that an RR has overtaken, by however many laps,
   makes the sender send the payload of another number, or EOF, under a data packet's number,
   or read an empty slot. What goes out is a frame of the transfer only where two chunks of
   the file happen to be equal.
   */
  lemma OvertakenSrej(c: Session, s: S.Sender, n: nat)
    requires c.Valid() && SenderInv(c, s) && S.Polling(s) && n < s.ring.lower
    ensures var o := S.OnPoll(s, GotSrej(n));
            var k := Alias(s.ring, s.ring.lower, n);
            && n < k && n < c.Eof()
            && if k < s.ring.current then
                 && o.sender.clean
                 && o.frames == [Frame(ToUint32(n), RESENT_SREJ_DATA_PACKET_FLAG, c.Payloads()[k])]
                 && (c.Genuine(o.frames[0]) <==> c.Payloads()[n] == c.Payloads()[k])
               else if k == s.ring.current && s.phase.EofSent? then
                 o.sender.clean && o.frames == [Frame(ToUint32(n), EOF_FLAG, [c.eofPad])] && !c.Genuine(o.frames[0])
               else !o.sender.clean && o.frames == []
  {
    ResendByAlias(c, s, n, RESENT_SREJ_DATA_PACKET_FLAG);
    OneAlias(s.ring, s.ring.lower, n);
  }

  /** An EOF ACK is only ever sent when the whole file has been written. */
  lemma CompletionIsHonest(c: Session, schedule: seq<Label>, i: nat)
    requires c.Valid() && i < |After(c, schedule).log| && After(c, schedule).log[i].EofAck?
    ensures After(c, schedule).receiver.phase == R.Done
    ensures After(c, schedule).receiver.output == c.file
  {
    AfterInv(c, schedule);
    assert c.Payloads()[..c.Eof()] == c.Payloads();
    FlattenChunks(c.file, c.bufferSize);
  }

  /** A sender that stops because of what it heard knows that the whole file has been written. */
  lemma StoppedByAck(c: Session, schedule: seq<Label>, fault: Fault)
    requires c.Valid()
    requires var t := After(c, schedule);
             t.sender.phase != S.Done && Apply(t, SenderHears(fault)).sender.phase == S.Done
    ensures After(c, schedule).receiver.phase == R.Done && After(c, schedule).receiver.output == c.file
    ensures HeardEvent(After(c, schedule), fault) == GotEofAck
  {
    AfterInv(c, schedule);
    var t := After(c, schedule);
    HeardIsHearable(c, t, fault);
    assert ReplyOk(c, t.sender, t.receiver, t.replies[0]);
    assert c.Payloads()[..c.Eof()] == c.Payloads();
    FlattenChunks(c.file, c.bufferSize);
  }

  /** No number is asked for twice, and a receiver that buffers has asked for every hole. */
  lemma SrejDiscipline(c: Session, schedule: seq<Label>)
    requires c.Valid()
    ensures var t := After(c, schedule);
            && (forall n: int :: SrejCount(t.log, n) <= 1)
            && (t.receiver.phase == R.Buffering ==>
                  var ring := t.receiver.ring;
                  forall k :: ring.current <= k < ring.highest && !CheckPduValid(ring, k) ==> SrejCount(t.log, k) == 1)
  {
    AfterInv(c, schedule);
  }

  /** While it buffers, the receiver misses the current frame, holds the highest, and cannot meet EOF at current. */
  lemma BufferingHasHole(c: Session, schedule: seq<Label>)
    requires c.Valid() && After(c, schedule).receiver.phase == R.Buffering
    ensures var t := After(c, schedule);
            var ring := t.receiver.ring;
            && ring.current < ring.highest
            && !CheckPduValid(ring, ring.current)
            && CheckPduValid(ring, ring.highest)
            && forall f :: f in t.data && f.seqNo == ring.current ==> f.flag != EOF_FLAG
  {
    AfterInv(c, schedule);
    var t := After(c, schedule);
    var ring := t.receiver.ring;
    NoAliasing(c, schedule, ring.highest);
    assert Sendable(c, t.sender, GetPdu(ring, ring.highest).value);
    forall f | f in t.data && f.seqNo == ring.current
      ensures f.flag != EOF_FLAG
    {
      assert Sendable(c, t.sender, f);
    }
  }

  /** However often a number is sent, its payload is the same, and only a data frame's flag varies. */
  lemma RetransmissionsAgree(c: Session, schedule: seq<Label>, f: Frame, g: Frame)
    requires c.Valid() && f in After(c, schedule).data && g in After(c, schedule).data && f.seqNo == g.seqNo
    ensures f.payload == g.payload
    ensures f == g.(flag := f.flag) && (f.flag == EOF_FLAG <==> g.flag == EOF_FLAG)
    ensures f.flag == EOF_FLAG ==> f == g
  {
    AfterInv(c, schedule);
    var t := After(c, schedule);
    assert Sendable(c, t.sender, f) && Sendable(c, t.sender, g);
  }

  /** Nothing protects a reply: any one of those in flight may be the one that is lost. */
  lemma AnyReplyMayBeLost(t: System, k: nat)
    requires k < |t.replies|
    ensures exists event ::
              && Apply(t, event).sender == t.sender && Apply(t, event).receiver == t.receiver
              && Apply(t, event).data == t.data && Apply(t, event).log == t.log
              && Apply(t, event).replies == t.replies[..k] + t.replies[k + 1..]
  {
    assert Apply(t, ReplyLost(k)).replies == t.replies[..k] + t.replies[k + 1..];
  }

  /** A damaged data frame is a lost one: delivering it changes nothing at all. */
  lemma DamagedFrameIsLost(c: Session, schedule: seq<Label>, f: Frame, i: nat)
    requires c.Valid() && i < |Encode(f)|
    ensures Apply(After(c, schedule), Delivered(f, ComplementByte(i))) == After(c, schedule)
  {
    AfterInv(c, schedule);
    var t := After(c, schedule);
    if f in t.data && R.Polling(t.receiver) {
      c.PayloadSizes();
      assert Sendable(c, t.sender, f);
      RoundTrip(f);
      ComplementRejected(Encode(f), i);
      assert t.replies + [] == t.replies && t.log + [] == t.log;
    }
  }

  /** What a garbled datagram does to a polling sender: its count of silent polls starts again. */
  function Restarted(s: S.Sender): S.Sender {
    s.(phase := match s.phase
                case WindowClosed(_) => S.WindowClosed(0)
                case EofSent(_) => S.EofSent(0)
                case _ => S.WindowOpen)
  }

  lemma GarbledRestarts(s: S.Sender)
    requires S.Polling(s)
    ensures S.OnPoll(s, Garbled) == S.Output(Restarted(s), [])
  {
  }

  lemma DamagedReplyGarbled(t: System, i: nat)
    requires t.replies != [] && i < |Encode(ReplyFrame(t.replies[0]))|
    ensures HeardEvent(t, ComplementByte(i)) == Garbled
  {
    var f := ReplyFrame(t.replies[0]);
    RoundTrip(f);
    ComplementRejected(Encode(f), i);
  }

  /** A damaged reply is a lost one, except that the sender's count of silent polls starts again. */
  lemma DamagedReplyIsLost(c: Session, schedule: seq<Label>, i: nat)
    requires c.Valid()
    requires After(c, schedule).replies != [] && i < |Encode(ReplyFrame(After(c, schedule).replies[0]))|
    requires S.Polling(After(c, schedule).sender)
    ensures var t := After(c, schedule);
            var lost := Apply(t, ReplyLost(0));
            Apply(t, SenderHears(ComplementByte(i))) == lost.(sender := Restarted(t.sender))
  {
    hide HeardEvent, S.OnPoll, Execute, Restarted;
    var t := After(c, schedule);
    DamagedReplyGarbled(t, i);
    GarbledRestarts(t.sender);
    assert t.replies[..0] + t.replies[1..] == t.replies[1..];
    var none: set<Frame> := set g | g in [];
    assert t.data + none == t.data;
  }

  /** Apart from ten seconds of silence, only EOF stops the receiver, and then everything has been written. */
  lemma ReceiverStopsAtEof(c: Session, schedule: seq<Label>, event: Label)
    requires c.Valid() && !event.ReceiverWaits?
    requires var t := After(c, schedule);
             t.receiver.phase != R.Done && Apply(t, event).receiver.phase == R.Done
    ensures var t' := Apply(After(c, schedule), event);
            t'.receiver.output == c.file && t'.replies != [] && t'.replies[|t'.replies| - 1].EofAck?
  {
    AfterInv(c, schedule);
    var t := After(c, schedule);
    match event
    case Delivered(f, fault) =>
      DeliveredFrame(c, t, f, fault);
      c.PayloadSizes();
      EofIsLast(c, t, f);
    case ReceiverFlushes =>
      assert InRing(t.receiver, t.receiver.ring.current);
      EofIsLast(c, t, GetPdu(t.receiver.ring, t.receiver.ring.current).value);
    case _ =>
  }

  /** Replies are numbered from the start, one after the other. */
  ghost predicate Numbered(t: System) {
    && (forall i :: 0 <= i < |t.log| ==> t.log[i].packetNo == R.FIRST_REPLY + i)
    && (t.receiver.phase != R.Done ==> t.receiver.sendSeq == R.FIRST_REPLY + |t.log|)
  }

  lemma StepNumbered(r: R.Receiver, ev: DataEvent)
    ensures var o := R.Step(r, ev);
            && (forall i :: 0 <= i < |o.replies| ==> o.replies[i].packetNo == r.sendSeq + i)
            && (o.receiver.phase != R.Done ==> o.receiver.sendSeq == r.sendSeq + |o.replies|)
            && (r.phase == R.Done ==> o.replies == [])
  {
  }

  lemma ApplyNumbered(t: System, event: Label)
    requires Numbered(t)
    ensures Numbered(Apply(t, event))
  {
    match event
    case Delivered(f, fault) => StepNumbered(t.receiver, ArrivalEvent(t, f, fault));
    case ReceiverWaits => StepNumbered(t.receiver, Quiet);
    case ReceiverFlushes => StepNumbered(t.receiver, Quiet);
    case _ =>
  }

  /** The i-th packet the receiver sends, counting the filename packet, carries the number i. */
  lemma {:induction false} RepliesNumbered(c: Session, schedule: seq<Label>)
    requires c.Valid()
    ensures Numbered(After(c, schedule))
  {
    if schedule != [] {
      RepliesNumbered(c, schedule[..|schedule| - 1]);
      ApplyNumbered(After(c, schedule[..|schedule| - 1]), schedule[|schedule| - 1]);
    }
  }
}
