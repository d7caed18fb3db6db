/**
 What the receiver keeps true on its own, for any frames whose numbers stay below its
 window's upper edge: the ring holds what has been accepted above current and nothing else,
 flush writes exactly the contiguous run, and every missing number is asked for once.
 */
module ReceiverFacts {
  import opened Bytes
  import opened Options
  import opened Pdu
  import opened Messages
  import opened Window
  import opened ReceiverModel

  /** The numbers the ring has room for. */
  predicate InRing(r: Receiver, k: int) {
    InWindow(r.ring, r.ring.current, k)
  }

  /**
   The shape of the receiver's ring: no slot holds a frame of another lap, nothing lies above
   highest, and while packets are buffered a hole at current and a frame at highest exist.
   In order, nothing is buffered and highest is the last number written.
   */
  ghost predicate Shape(r: Receiver) {
    var current, highest := r.ring.current, r.ring.highest;
    && r.ring.lower == current
    && r.ring.upper == current + Size(r.ring)
    && (forall k :: InRing(r, k) && GetPdu(r.ring, k).Some? ==> GetPdu(r.ring, k).value.seqNo == k && k <= highest)
    && match r.phase
       case InOrder => (highest + 1 == current || highest == current == 0)
                       && forall k :: InRing(r, k) ==> GetPdu(r.ring, k) == None
       case Buffering => current < highest < r.ring.upper
                         && GetPdu(r.ring, current) == None && GetPdu(r.ring, highest).Some?
       case Flush => current <= highest < r.ring.upper && GetPdu(r.ring, highest).Some?
       case Done => true
  }

  /** The numbers a frame may carry without wrapping onto a slot of this lap. */
  predicate Bounded(r: Receiver, f: Frame) {
    f.seqNo < r.ring.current + Size(r.ring)
  }

  // ----- One step at the level of slots -----

  /** After an insertion above current, the ring differs from before at most at the new number. */
  lemma BufferedSlots(r: Receiver, f: Frame)
    requires Polling(r) && f.seqNo > r.ring.current && Bounded(r, f)
    ensures var r' := OnPoll(r, Arrived(f)).receiver;
            && r'.ring.current == r.ring.current && r'.phase == Buffering && r'.output == r.output
            && forall k :: InRing(r, k) ==>
                 GetPdu(r'.ring, k) == if k == f.seqNo && GetPdu(r.ring, k) == None then Some(f) else GetPdu(r.ring, k)
  {
    var r' := OnPoll(r, Arrived(f)).receiver;
    forall k | InRing(r, k)
      ensures GetPdu(r'.ring, k) == if k == f.seqNo && GetPdu(r.ring, k) == None then Some(f) else GetPdu(r.ring, k)
    {
      GetAfterAdd(r.ring, f, f.seqNo, k);
    }
  }

  /** When the slot at current is empty, accepting moves the interval up without disturbing it. */
  lemma AcceptedSlots(r: Receiver, payload: seq<byte>, phase: Phase)
    requires GetPdu(r.ring, r.ring.current) == None
    ensures var r' := Accept(r, payload, phase).receiver;
            && Size(r'.ring) == Size(r.ring)
            && GetPdu(r'.ring, r.ring.current + Size(r.ring)) == None
            && forall k :: InRing(r, k) ==> GetPdu(r'.ring, k) == GetPdu(r.ring, k)
  {
    Aliased(r.ring, r.ring.current);
  }

  /** One trip round the loop of flush takes out the frame at current only. */
  lemma FlushedSlots(r: Receiver)
    requires GetPdu(r.ring, r.ring.current).Some? && GetPdu(r.ring, r.ring.current).value.flag != EOF_FLAG
    ensures var r' := FlushStep(r).receiver;
            && Size(r'.ring) == Size(r.ring)
            && r'.ring.current == r.ring.current + 1
            && r'.ring.highest == r.ring.highest
            && (forall k :: InRing(r', k) ==>
                  GetPdu(r'.ring, k) == if k == r.ring.current + Size(r.ring) then None else GetPdu(r.ring, k))
  {
    var current := r.ring.current;
    var emptied := r.(ring := RemovePdu(r.ring, current));
    var r' := FlushStep(r).receiver;
    forall k | InRing(r', k)
      ensures GetPdu(r'.ring, k) == if k == current + Size(r.ring) then None else GetPdu(r.ring, k)
    {
      GetAfterRemove(r.ring, current, current);
      Aliased(emptied.ring, current);
      if k < current + Size(r.ring) {
        GetAfterRemove(r.ring, current, k);
      }
    }
  }

  lemma ShapeKeptByBuffering(r: Receiver, f: Frame)
    requires Shape(r) && Polling(r) && Bounded(r, f) && f.seqNo > r.ring.current
    ensures Shape(OnPoll(r, Arrived(f)).receiver)
  {
    BufferedSlots(r, f);
    var r' := OnPoll(r, Arrived(f)).receiver;
    assert InRing(r, f.seqNo) && InRing(r, r.ring.current);
    assert r.phase == Buffering ==> InRing(r, r.ring.highest);
    assert r'.ring.highest == if r.phase == InOrder || r.ring.highest < f.seqNo then f.seqNo else r.ring.highest;
  }

  lemma ShapeKeptByAccepting(r: Receiver, f: Frame)
    requires Shape(r) && Polling(r) && f.seqNo == r.ring.current && f.flag != EOF_FLAG
    ensures Shape(OnPoll(r, Arrived(f)).receiver)
  {
    assert InRing(r, r.ring.current);
    if r.phase == InOrder {
      AcceptedSlots(r.(ring := r.ring.(highest := f.seqNo)), f.payload, InOrder);
    } else {
      AcceptedSlots(r, f.payload, Flush);
    }
    var r' := OnPoll(r, Arrived(f)).receiver;
    assert forall k :: InRing(r', k) ==> InRing(r, k) || k == r.ring.current + Size(r.ring);
  }

  lemma ShapeKeptByArrival(r: Receiver, f: Frame)
    requires Shape(r) && Polling(r) && Bounded(r, f)
    ensures Shape(OnPoll(r, Arrived(f)).receiver)
  {
    if f.seqNo > r.ring.current {
      ShapeKeptByBuffering(r, f);
    } else if f.seqNo == r.ring.current && f.flag != EOF_FLAG {
      ShapeKeptByAccepting(r, f);
    }
  }

  lemma ShapeKeptByFlush(r: Receiver)
    requires Shape(r) && r.phase == Flush
    ensures Shape(FlushStep(r).receiver)
  {
    var f := GetPdu(r.ring, r.ring.current);
    if f.Some? && f.value.flag != EOF_FLAG {
      FlushedSlots(r);
    }
  }

  lemma ShapeKept(r: Receiver, ev: DataEvent)
    requires Shape(r) && (ev.Arrived? ==> Bounded(r, ev.frame))
    ensures Shape(Step(r, ev).receiver)
  {
    match r.phase
    case Done =>
    case Flush => ShapeKeptByFlush(r);
    case _ =>
      if ev.Arrived? {
        ShapeKeptByArrival(r, ev.frame);
      }
  }

  /** In BUFFERING an EOF frame never carries the expected number: a frame above it has been stored. */
  lemma BufferingHoldsLaterFrame(r: Receiver)
    requires Shape(r) && r.phase == Buffering
    ensures exists k ::
              InRing(r, k) && k > r.ring.current && GetPdu(r.ring, k).Some? && GetPdu(r.ring, k).value.seqNo == k
  {
    assert InRing(r, r.ring.highest);
  }

  /**
   The bound is exact: a frame goes into the slot of the one number of this lap that shares
   it, which is the frame's own number, and the ring stays on one lap, exactly when the
   number lies below the window's upper edge.
   */
  lemma BoundIsExact(r: Receiver, f: Frame)
    requires Shape(r) && Polling(r)
    ensures Shape(OnPoll(r, Arrived(f)).receiver) <==> Bounded(r, f)
    ensures f.seqNo > r.ring.current ==>
              var k := Alias(r.ring, r.ring.current, f.seqNo);
              && GetPdu(OnPoll(r, Arrived(f)).receiver.ring, k)
                 == (if CheckPduValid(r.ring, k) then GetPdu(r.ring, k) else Some(f))
              && (k == f.seqNo <==> Bounded(r, f))
  {
    if Bounded(r, f) {
      ShapeKeptByArrival(r, f);
    }
    OneAlias(r.ring, r.ring.current, f.seqNo);
    if f.seqNo > r.ring.current {
      var r' := OnPoll(r, Arrived(f)).receiver;
      assert r'.ring.current == r.ring.current && Size(r'.ring) == Size(r.ring);
      GetAfterAdd(r.ring, f, f.seqNo, f.seqNo);
      OneAlias(r'.ring, r.ring.current, f.seqNo);
    }
  }

  /**
   What happens beyond the bound: a frame any number of laps too far that shares the slot of
   the number after current is written by flush under that number once the expected frame has
   come.
   */
  lemma FarFrameMisfiled(r: Receiver, near: Frame, far: Frame)
    requires Shape(r) && r.phase == InOrder && near.payload != [] && near.flag != EOF_FLAG && far.flag != EOF_FLAG
    requires near.seqNo == r.ring.current && !Bounded(r, far)
    requires Alias(r.ring, r.ring.current + 1, far.seqNo) == r.ring.current + 1
    ensures var r1 := OnPoll(r, Arrived(far)).receiver;
            var r2 := OnPoll(r1, Arrived(near)).receiver;
            && r2.phase == Flush && FlushStep(r2).receiver.output == r.output + near.payload + far.payload
            && FlushStep(r2).receiver.ring.current == r.ring.current + 2
  {
    var k := r.ring.current + 1;
    OneAlias(r.ring, k, far.seqNo);
    Aliased(r.ring, r.ring.current);
    assert InRing(r, r.ring.current) && (Size(r.ring) == 1 || InRing(r, k));
    assert GetPdu(r.ring, k) == None;
    hide Shape, Alias;
    var r1 := OnPoll(r, Arrived(far)).receiver;
    GetAfterAdd(r.ring, far, far.seqNo, far.seqNo);
    OneAlias(r1.ring, k, far.seqNo);
    assert GetPdu(r1.ring, k) == Some(far);
  }

  // ----- flush -----

  /** How many frames starting at k flush would write: it stops at a hole, at an EOF, or after limit. */
  function RunLength(ring: Ring, k: nat, limit: nat): (n: nat)
    requires k <= limit
    ensures k + n <= limit
    ensures forall j :: k <= j < k + n ==> GetPdu(ring, j).Some? && GetPdu(ring, j).value.flag != EOF_FLAG
    ensures k + n < limit ==> GetPdu(ring, k + n) == None || GetPdu(ring, k + n).value.flag == EOF_FLAG
    decreases limit - k
  {
    if k < limit && GetPdu(ring, k).Some? && GetPdu(ring, k).value.flag != EOF_FLAG
    then 1 + RunLength(ring, k + 1, limit)
    else 0
  }

  /** The payloads in the slots of n numbers from k on. */
  function Payloads(ring: Ring, k: nat, n: nat): seq<byte>
    requires forall j :: k <= j < k + n ==> GetPdu(ring, j).Some?
    decreases n
  {
    if n == 0 then [] else GetPdu(ring, k).value.payload + Payloads(ring, k + 1, n - 1)
  }

  predicate EndsInEof(r: Receiver, k: nat) {
    GetPdu(r.ring, k).Some? && GetPdu(r.ring, k).value.flag == EOF_FLAG
  }

  /** The run that flush finds: from current up to the first hole or EOF, never past highest. */
  function FlushRun(r: Receiver): (n: nat)
    requires r.ring.current <= r.ring.highest
    ensures r.ring.current + n <= r.ring.highest + 1
    ensures forall j :: r.ring.current <= j < r.ring.current + n ==>
              GetPdu(r.ring, j).Some? && GetPdu(r.ring, j).value.flag != EOF_FLAG
    ensures r.ring.current + n <= r.ring.highest ==>
              GetPdu(r.ring, r.ring.current + n) == None || EndsInEof(r, r.ring.current + n)
  {
    RunLength(r.ring, r.ring.current, r.ring.highest + 1)
  }

  /** One RR for each number from lo + 1 to lo + n. */
  function RrRange(id: nat, lo: nat, n: nat): seq<Reply> {
    seq(n, i requires 0 <= i => Rr(id + i, lo + i + 1))
  }

  lemma PayloadsAgree(a: Ring, b: Ring, k: nat, n: nat)
    requires forall j :: k <= j < k + n ==> GetPdu(a, j).Some? && GetPdu(a, j) == GetPdu(b, j)
    ensures Payloads(a, k, n) == Payloads(b, k, n)
    decreases n
  {
    if n > 0 {
      PayloadsAgree(a, b, k + 1, n - 1);
    }
  }

  lemma RunLengthAgree(a: Ring, b: Ring, k: nat, limit: nat)
    requires k <= limit
    requires forall j :: k <= j < limit ==> GetPdu(a, j) == GetPdu(b, j)
    ensures RunLength(a, k, limit) == RunLength(b, k, limit)
    decreases limit - k
  {
    if k < limit {
      RunLengthAgree(a, b, k + 1, limit);
    }
  }

  /** Where flush stops after writing n frames, and why. */
  predicate FlushedTo(r: Receiver, n: nat, r': Receiver) {
    var stop := r.ring.current + n;
    && r'.ring.current == stop
    && Size(r'.ring) == Size(r.ring)
    && r'.ring.highest == r.ring.highest
    && r'.phase == (if stop > r.ring.highest then InOrder else if EndsInEof(r, stop) then Done else Buffering)
  }

  /** The slots written are empty, also under their numbers of the next lap; the rest is untouched. */
  ghost predicate FlushedRing(r: Receiver, n: nat, r': Receiver) {
    forall k :: InWindow(r.ring, r.ring.current + n, k) ==>
      GetPdu(r'.ring, k) == if k < r.ring.current + Size(r.ring) then GetPdu(r.ring, k) else None
  }

  function FlushReplies(r: Receiver, n: nat, eof: bool): seq<Reply> {
    RrRange(r.sendSeq, r.ring.current, n) + (if eof then [EofAck(r.sendSeq + n, r.pad)] else [])
  }

  ghost predicate Flushed(r: Receiver, n: nat, o: Output)
    requires forall j :: r.ring.current <= j < r.ring.current + n ==> GetPdu(r.ring, j).Some?
  {
    && FlushedTo(r, n, o.receiver)
    && FlushedRing(r, n, o.receiver)
    && o.receiver.output == r.output + Payloads(r.ring, r.ring.current, n)
    && o.replies == FlushReplies(r, n, o.receiver.phase == Done)
  }

  /** flush writes, removes and acknowledges exactly the maximal run, and says how it ended. */
  lemma {:induction false} FlushWritesRun(r: Receiver)
    requires Shape(r) && r.phase == Flush
    ensures Flushed(r, FlushRun(r), FlushAll(r))
    ensures Shape(FlushAll(r).receiver)
    decreases Filled(r.ring.slots)
  {
    hide FlushRun, FlushStep, Flushed, FlushedRing, Payloads;
    FlushStepEmpties(r);
    ShapeKeptByFlush(r);
    var next := FlushStep(r).receiver;
    if FlushRun(r) == 0 {
      FlushStopsAtOnce(r);
    } else if next.phase == Flush {
      FlushOne(r);
      FlushWritesRun(next);
      FlushRunAfterOne(r);
      FlushedFromNext(r, next, FlushRun(r), FlushAll(next));
    } else {
      FlushLast(r);
    }
  }

  /** The last trip round the loop uses the ring up. */
  lemma FlushLast(r: Receiver)
    requires Shape(r) && r.phase == Flush && FlushRun(r) > 0 && FlushStep(r).receiver.phase != Flush
    ensures FlushRun(r) == 1 && Flushed(r, 1, FlushStep(r))
  {
    FlushOne(r);
    assert FlushReplies(r, 1, false) == FlushStep(r).replies;
    assert Payloads(r.ring, r.ring.current, 1) == GetPdu(r.ring, r.ring.current).value.payload + [];
  }

  /** What holds of the rest of the loop holds of the whole. */
  lemma FlushedFromNext(r: Receiver, next: Receiver, n: nat, rest: Output)
    requires 0 < n <= Size(r.ring)
    requires forall j :: r.ring.current <= j < r.ring.current + n ==> GetPdu(r.ring, j).Some?
    requires forall j :: next.ring.current <= j < next.ring.current + (n - 1) ==> GetPdu(next.ring, j).Some?
    requires next.ring.current == r.ring.current + 1 && next.ring.highest == r.ring.highest
    requires Size(next.ring) == Size(r.ring) && next.sendSeq == r.sendSeq + 1 && next.pad == r.pad
    requires next.output == r.output + GetPdu(r.ring, r.ring.current).value.payload
    requires GetPdu(r.ring, r.ring.current).value.payload + Payloads(next.ring, next.ring.current, n - 1)
             == Payloads(r.ring, r.ring.current, n)
    requires forall k :: r.ring.current < k <= r.ring.highest ==> GetPdu(next.ring, k) == GetPdu(r.ring, k)
    requires FlushedRing(r, 1, next) && Flushed(next, n - 1, rest)
    ensures Flushed(r, n, Output(rest.receiver, [Rr(r.sendSeq, r.ring.current + 1)] + rest.replies))
  {
    FlushedReplies(r, n, rest.receiver.phase == Done);
    FlushedRingFromOne(r, next, n, rest.receiver);
    assert rest.receiver.output == r.output + (GetPdu(r.ring, r.ring.current).value.payload
                                               + Payloads(next.ring, next.ring.current, n - 1));
  }

  lemma FlushedRingFromOne(r: Receiver, next: Receiver, n: nat, r': Receiver)
    requires 0 < n <= Size(r.ring) && Size(next.ring) == Size(r.ring) && next.ring.current == r.ring.current + 1
    requires FlushedRing(r, 1, next) && FlushedRing(next, n - 1, r')
    ensures FlushedRing(r, n, r')
  {
    forall k | InWindow(r.ring, r.ring.current + n, k)
      ensures GetPdu(r'.ring, k) == if k < r.ring.current + Size(r.ring) then GetPdu(r.ring, k) else None
    {
      assert InWindow(next.ring, next.ring.current + (n - 1), k);
      assert k <= r.ring.current + Size(r.ring) ==> InWindow(r.ring, r.ring.current + 1, k);
    }
  }

  lemma FlushStopsAtOnce(r: Receiver)
    requires Shape(r) && r.phase == Flush && FlushRun(r) == 0
    ensures Flushed(r, 0, FlushStep(r)) && FlushStep(r).receiver.phase != Flush
  {
    assert FlushReplies(r, 0, true) == [EofAck(r.sendSeq, r.pad)];
    assert r.output == r.output + Payloads(r.ring, r.ring.current, 0);
  }

  /** The first trip round the loop when there is something to write. */
  lemma FlushOne(r: Receiver)
    requires Shape(r) && r.phase == Flush && FlushRun(r) > 0
    ensures var o := FlushStep(r);
            && o.receiver.ring.current == r.ring.current + 1
            && Size(o.receiver.ring) == Size(r.ring)
            && o.receiver.ring.highest == r.ring.highest
            && FlushedRing(r, 1, o.receiver)
            && o.receiver.output == r.output + GetPdu(r.ring, r.ring.current).value.payload
            && o.replies == [Rr(r.sendSeq, r.ring.current + 1)]
            && o.receiver.sendSeq == r.sendSeq + 1 && o.receiver.pad == r.pad
            && o.receiver.phase == if r.ring.current + 1 > r.ring.highest then InOrder else Flush
  {
    FlushedSlots(r);
  }

  /** The run found after the first trip is the old one without its first frame. */
  lemma FlushRunAfterOne(r: Receiver)
    requires Shape(r) && r.phase == Flush && FlushRun(r) > 0 && FlushStep(r).receiver.phase == Flush
    ensures var next := FlushStep(r).receiver;
            && FlushRun(next) == FlushRun(r) - 1
            && GetPdu(r.ring, r.ring.current).value.payload + Payloads(next.ring, next.ring.current, FlushRun(next))
               == Payloads(r.ring, r.ring.current, FlushRun(r))
            && forall k :: r.ring.current < k <= r.ring.highest ==> GetPdu(next.ring, k) == GetPdu(r.ring, k)
  {
    FlushOne(r);
    var next := FlushStep(r).receiver;
    hide FlushStep, GetPdu, FlushRun, Payloads;
    var k := next.ring.current;
    assert forall j :: k <= j <= r.ring.highest ==> InWindow(r.ring, k, j);
    RunTail(r, next);
  }

  /** A run whose first frame is gone goes on as before. */
  lemma RunTail(r: Receiver, next: Receiver)
    requires r.ring.current < r.ring.highest && FlushRun(r) > 0
    requires next.ring.current == r.ring.current + 1 && next.ring.highest == r.ring.highest
    requires forall k :: r.ring.current < k <= r.ring.highest ==> GetPdu(next.ring, k) == GetPdu(r.ring, k)
    ensures FlushRun(next) == FlushRun(r) - 1
    ensures GetPdu(r.ring, r.ring.current).value.payload + Payloads(next.ring, next.ring.current, FlushRun(next))
            == Payloads(r.ring, r.ring.current, FlushRun(r))
  {
    hide GetPdu;
    RunLengthAgree(r.ring, next.ring, next.ring.current, r.ring.highest + 1);
    PayloadsAgree(next.ring, r.ring, next.ring.current, FlushRun(next));
  }

  lemma FlushedReplies(r: Receiver, n: nat, eof: bool)
    requires n > 0
    ensures FlushReplies(r, n, eof) ==
            [Rr(r.sendSeq, r.ring.current + 1)]
            + FlushReplies(r.(sendSeq := r.sendSeq + 1, ring := r.ring.(current := r.ring.current + 1)), n - 1, eof)
  {
    assert RrRange(r.sendSeq, r.ring.current, n) ==
           [Rr(r.sendSeq, r.ring.current + 1)] + RrRange(r.sendSeq + 1, r.ring.current + 1, n - 1);
  }
}
