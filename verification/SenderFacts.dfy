/**
 What the sender keeps true as long as the numbers it hears stay inside its window: the
 ring holds exactly the unacknowledged frames, so no perror branch is ever taken.
 */
module SenderFacts {
  import opened Bytes
  import opened Options
  import opened Pdu
  import opened Messages
  import opened Window
  import opened Chunking
  import opened Session
  import opened SenderModel

  /** What the slot of the current number may hold: nothing until the EOF packet is stored there. */
  ghost predicate SlotAtCurrent(c: Session, s: Sender)
    requires c.Valid()
  {
    var slot := GetPdu(s.ring, s.ring.current);
    match s.phase
    case EofSent(_) => slot == Some(c.EofFrame())
    case Done => slot == None || (slot == Some(c.EofFrame()) && s.ring.current == c.Eof())
    case _ => slot == None
  }

  /** The filled slots are exactly those of lower..current-1, and of current once EOF is stored. */
  ghost predicate Stored(c: Session, s: Sender)
    requires c.Valid() && s.ring.current <= c.Eof()
  {
    && (forall k :: s.ring.lower <= k < s.ring.current ==> GetPdu(s.ring, k) == Some(c.DataFrame(k)))
    && (s.ring.current < s.ring.upper ==> SlotAtCurrent(c, s))
    && (forall k :: s.ring.current < k < s.ring.upper ==> GetPdu(s.ring, k) == None)
  }

  ghost predicate SenderInv(c: Session, s: Sender)
    requires c.Valid()
  {
    && s.clean
    && s.bufferSize == c.bufferSize && s.pad == c.eofPad
    && Size(s.ring) == c.windowSize
    && s.ring.upper == s.ring.lower + c.windowSize
    && s.ring.lower <= s.ring.current <= s.ring.upper
    && s.ring.current <= c.Eof()
    && Chunks(s.unread, c.bufferSize) == c.Payloads()[s.ring.current..]
    && Stored(c, s)
    && match s.phase
       case WindowClosed(count) => s.ring.current == s.ring.upper && count <= MAX_SILENT
       case EndOfFile => s.ring.current == c.Eof() && s.ring.current < s.ring.upper
       case EofSent(count) => s.ring.current == c.Eof() && s.ring.current < s.ring.upper && count <= MAX_SILENT
       case _ => true
  }

  /** Whether the EOF packet may have been sent. */
  predicate PastEof(s: Sender) {
    s.phase.EofSent? || s.phase.Done?
  }

  /** A frame of the transfer that the sender in this state may already have sent. */
  ghost predicate Sendable(c: Session, s: Sender, f: Frame)
    requires c.Valid()
  {
    && c.Genuine(f)
    && f.seqNo < s.ring.upper
    && (if f.seqNo < c.Eof() then f.seqNo < s.ring.current else s.ring.current == c.Eof() && PastEof(s))
  }

  /** The numbers an honest receiver may name to a sender in this state. */
  predicate Hearable(s: Sender, ev: AckEvent) {
    match ev
    case GotRr(n) => n <= s.ring.current
    case GotSrej(n) => s.ring.lower <= n < s.ring.current
    case _ => true
  }

  function Max(a: int, b: int): int {
    if a < b then b else a
  }

  /** Sliding over stored frames: every removal finds its frame, and the rest stays where it was. */
  lemma {:induction false} SlideSlots(ring: Ring, rr: int)
    requires ring.upper == ring.lower + Size(ring)
    requires forall k :: ring.lower <= k < rr ==> GetPdu(ring, k).Some?
    requires rr <= ring.upper
    ensures var r' := Slide(ring, rr);
            && SlideClean(ring, rr)
            && r'.lower == Max(ring.lower, rr) && r'.upper == r'.lower + Size(ring)
            && r'.current == ring.current && Size(r') == Size(ring)
            && forall k :: r'.lower <= k < r'.upper ==>
                 GetPdu(r', k) == if k < ring.upper then GetPdu(ring, k) else None
    decreases rr - ring.lower
  {
    if ring.lower < rr {
      var next := IncrementEdges(RemovePdu(ring, ring.lower));
      forall k | ring.lower < k <= ring.upper
        ensures GetPdu(next, k) == if k < ring.upper then GetPdu(ring, k) else None
      {
        if k < ring.upper {
          GetAfterRemove(ring, ring.lower, k);
        } else {
          GetAfterRemove(ring, ring.lower, ring.lower);
          Aliased(next, ring.lower);
        }
      }
      SlideSlots(next, rr);
    }
  }

  lemma RrKeeps(c: Session, s: Sender, n: int, phase: Phase)
    requires c.Valid() && SenderInv(c, s) && n <= s.ring.current
    requires (s.phase == AwaitPoll && phase == WindowOpen) || (s.phase.WindowClosed? && phase == WindowOpen)
             || (s.phase.EofSent? && phase == EofSent(0))
    ensures SenderInv(c, OnRr(s, n).(phase := phase))
    ensures OnRr(s, n).ring.lower == Max(s.ring.lower, n)
    ensures OnRr(s, n).ring.upper >= s.ring.upper && OnRr(s, n).ring.current == s.ring.current
  {
    SlideSlots(s.ring, n);
  }

  /** A resend is a frame of the transfer under the number asked for; only the flag may differ. */
  lemma ResendGenuine(c: Session, s: Sender, n: int, flag: byte)
    requires c.Valid() && SenderInv(c, s)
    requires s.ring.lower <= n < s.ring.current || (n == s.ring.current && s.phase.EofSent?)
    requires flag in {RESENT_SREJ_DATA_PACKET_FLAG, RESENT_TIMEOUT_DATA_PACKET_FLAG}
    ensures var o := Resend(s, n, flag);
            && o.sender == s && |o.frames| == 1
            && o.frames[0].seqNo == n && c.Genuine(o.frames[0])
            && (n < c.Eof() ==> o.frames[0] == c.DataFrame(n).(flag := flag))
            && (n == c.Eof() ==> o.frames[0] == c.EofFrame())
  {
  }

  /** A new frame goes into an empty slot and disturbs no other. */
  lemma StoreSlots(ring: Ring, f: Frame)
    requires ring.upper == ring.lower + Size(ring) && ring.lower <= ring.current < ring.upper
    requires GetPdu(ring, ring.current) == None
    ensures forall k :: ring.lower <= k < ring.upper ==>
              GetPdu(AddPdu(ring, f, ring.current), k) == if k == ring.current then Some(f) else GetPdu(ring, k)
  {
    forall k | ring.lower <= k < ring.upper
      ensures GetPdu(AddPdu(ring, f, ring.current), k) == if k == ring.current then Some(f) else GetPdu(ring, k)
    {
      GetAfterAdd(ring, f, ring.current, k);
    }
  }

  /** The next read gives the next payload, or nothing at the end of the file. */
  lemma NextChunk(c: Session, s: Sender)
    requires c.Valid() && SenderInv(c, s)
    ensures var chunk := ReadChunk(s.unread, c.bufferSize);
            if chunk == [] then s.ring.current == c.Eof()
            else s.ring.current < c.Eof() && chunk == c.Payloads()[s.ring.current]
                 && Chunks(s.unread[|chunk|..], c.bufferSize) == c.Payloads()[s.ring.current + 1..]
  {
    var chunk := ReadChunk(s.unread, c.bufferSize);
    var rest := c.Payloads()[s.ring.current..];
    if chunk != [] {
      assert rest == [chunk] + Chunks(s.unread[|chunk|..], c.bufferSize);
      assert rest[0] == c.Payloads()[s.ring.current];
      assert rest[1..] == c.Payloads()[s.ring.current + 1..];
    }
  }

  lemma SendDataIs(c: Session, s: Sender)
    requires c.Valid() && SenderInv(c, s) && s.phase == WindowOpen && CheckWindowOpen(s.ring)
    requires ReadChunk(s.unread, s.bufferSize) != []
    ensures s.ring.current < c.Eof()
    ensures var f := c.DataFrame(s.ring.current);
            Act(s) == Output(s.(phase := AwaitPoll,
                                ring := AddPdu(s.ring, f, s.ring.current).(current := s.ring.current + 1),
                                unread := s.unread[|f.payload|..]), [f])
    ensures Chunks(s.unread[|c.DataFrame(s.ring.current).payload|..], c.bufferSize)
            == c.Payloads()[s.ring.current + 1..]
  {
    NextChunk(c, s);
  }

  lemma SendDataKeeps(c: Session, s: Sender)
    requires c.Valid() && SenderInv(c, s) && s.phase == WindowOpen && CheckWindowOpen(s.ring)
    requires ReadChunk(s.unread, s.bufferSize) != []
    ensures SenderInv(c, Act(s).sender)
    ensures s.ring.current < c.Eof() && Act(s).frames == [c.DataFrame(s.ring.current)]
  {
    SendDataIs(c, s);
    var s' := Act(s).sender;
    StoreSlots(s.ring, c.DataFrame(s.ring.current));
    assert forall k :: s.ring.lower <= k < s.ring.upper ==>
             GetPdu(s'.ring, k) == GetPdu(AddPdu(s.ring, c.DataFrame(s.ring.current), s.ring.current), k);
    assert Stored(c, s');
  }

  lemma DataFrameSendable(c: Session, s: Sender, k: nat)
    requires c.Valid() && k < s.ring.current <= s.ring.upper && k < c.Eof()
    ensures Sendable(c, s, c.DataFrame(k))
  {
    assert c.DataFrame(k).seqNo == k;
  }

  lemma SendEofKeeps(c: Session, s: Sender)
    requires c.Valid() && SenderInv(c, s) && s.phase == EndOfFile
    ensures SenderInv(c, Act(s).sender)
    ensures Act(s).frames == [c.EofFrame()]
  {
    StoreSlots(s.ring, c.EofFrame());
  }

  /** What a step may do to the window and to the frames in flight. */
  ghost predicate Progresses(c: Session, s: Sender, o: Output)
    requires c.Valid()
  {
    && SenderInv(c, o.sender)
    && s.ring.lower <= o.sender.ring.lower
    && s.ring.current <= o.sender.ring.current
    && (forall f :: f in o.frames ==> Sendable(c, o.sender, f))
    && (PastEof(s) ==> PastEof(o.sender))
  }

  lemma ActKeeps(c: Session, s: Sender)
    requires c.Valid() && SenderInv(c, s) && !Polling(s)
    ensures Progresses(c, s, Act(s))
    ensures Act(s).sender.ring.lower == s.ring.lower
  {
    if s.phase == WindowOpen && CheckWindowOpen(s.ring) && ReadChunk(s.unread, s.bufferSize) != [] {
      SendDataIs(c, s);
      SendDataKeeps(c, s);
      DataFrameSendable(c, Act(s).sender, s.ring.current);
    } else if s.phase == EndOfFile {
      SendEofKeeps(c, s);
    } else {
      QuietActKeeps(c, s);
    }
  }

  /** A step that sends nothing changes the phase only. */
  lemma QuietActKeeps(c: Session, s: Sender)
    requires c.Valid() && SenderInv(c, s) && !Polling(s) && s.phase != EndOfFile
    requires Reading(s) ==> ReadChunk(s.unread, s.bufferSize) == []
    ensures Progresses(c, s, Act(s)) && Act(s).sender.ring == s.ring
  {
    NextChunk(c, s);
    var o := Act(s);
    assert o == Output(s.(phase := o.sender.phase), []);
    hide Act, Polling, Chunks, ReadChunk;
    assert Stored(c, o.sender);
  }

  /** A resend leaves everything but the phase alone and puts a frame of the transfer on the wire. */
  lemma ResendKeeps(c: Session, s: Sender, n: int, flag: byte, phase: Phase)
    requires c.Valid() && SenderInv(c, s)
    requires s.ring.lower <= n < s.ring.current || (n == s.ring.current && s.phase.EofSent?)
    requires flag in {RESENT_SREJ_DATA_PACKET_FLAG, RESENT_TIMEOUT_DATA_PACKET_FLAG}
    requires SenderInv(c, s.(phase := phase)) && (PastEof(s) ==> PastEof(s.(phase := phase)))
    ensures Progresses(c, s, To(Resend(s, n, flag), phase))
    ensures To(Resend(s, n, flag), phase).sender == s.(phase := phase)
  {
    ResendGenuine(c, s, n, flag);
    var o := Resend(s, n, flag);
    assert o.frames == [o.frames[0]];
  }

  /** A waiting sender answers an SREJ with the frame it names, flagged as resent on SREJ, and nothing else. */
  lemma SrejResent(c: Session, s: Sender, n: nat)
    requires c.Valid() && SenderInv(c, s) && Polling(s) && s.ring.lower <= n < s.ring.current
    ensures var o := OnPoll(s, GotSrej(n));
            && o.frames == [c.DataFrame(n).(flag := RESENT_SREJ_DATA_PACKET_FLAG)]
            && o.sender == s.(phase := if s.phase == AwaitPoll then WindowOpen
                                       else if s.phase.WindowClosed? then WindowClosed(0)
                                       else EofSent(0))
  {
    ResendGenuine(c, s, n, RESENT_SREJ_DATA_PACKET_FLAG);
    var o := Resend(s, n, RESENT_SREJ_DATA_PACKET_FLAG);
    assert o.frames == [o.frames[0]];
  }

  lemma PollKeeps(c: Session, s: Sender, ev: AckEvent)
    requires c.Valid() && SenderInv(c, s) && Polling(s) && Hearable(s, ev)
    ensures Progresses(c, s, OnPoll(s, ev))
    ensures OnPoll(s, ev).sender.ring.lower == if ev.GotRr? then Max(s.ring.lower, ev.number) else s.ring.lower
    ensures OnPoll(s, ev).sender.ring.current == s.ring.current
  {
    var phase := OnPoll(s, ev).sender.phase;
    match ev
    case GotRr(n) => RrKeeps(c, s, n, phase);
    case GotSrej(n) => ResendKeeps(c, s, n, RESENT_SREJ_DATA_PACKET_FLAG, phase);
    case Silence =>
      if s.phase != AwaitPoll {
        ResendKeeps(c, s, s.ring.lower, RESENT_TIMEOUT_DATA_PACKET_FLAG, phase);
      }
    case _ =>
  }
}
