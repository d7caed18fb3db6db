/**
 The receiver as a state machine. One step is the handling of one poll of in_order or
 buffering, or one trip round the loop of flush.
 */
module ReceiverModel {
  import opened Bytes
  import opened Options
  import opened Pdu
  import opened Messages
  import opened Window
  import opened Runs

  datatype Phase = InOrder | Buffering | Flush | Done

  /** sendSeq numbers the replies; pad is what the uninitialised byte of the EOF ACK holds. */
  datatype Receiver = Receiver(phase: Phase, ring: Ring, output: seq<byte>, sendSeq: nat, pad: byte)

  /** Packet number 0 was the filename packet. */
  const FIRST_REPLY: nat := 1

  datatype Output = Output(receiver: Receiver, replies: seq<Reply>)

  /** One SREJ for every number from lo up to but not including hi. */
  function SrejRange(id: nat, lo: nat, hi: nat): (replies: seq<Reply>)
    ensures |replies| == if lo < hi then hi - lo else 0
  {
    if lo < hi then seq(hi - lo, i requires 0 <= i => Srej(id + i, lo + i)) else []
  }

  lemma SrejRangeNext(id: nat, lo: nat, hi: nat)
    requires lo <= hi
    ensures SrejRange(id, lo, hi + 1) == SrejRange(id, lo, hi) + [Srej(id + (hi - lo), hi)]
  {
  }

  /** Acknowledge everything below the current number. */
  function SendRr(r: Receiver): Output {
    Output(r.(sendSeq := r.sendSeq + 1), [Rr(r.sendSeq, r.ring.current)])
  }

  function SendEofAck(r: Receiver): Output {
    Output(r.(phase := Done), [EofAck(r.sendSeq, r.pad)])
  }

  /** Write the payload, move every edge up by one and acknowledge. */
  function Accept(r: Receiver, payload: seq<byte>, phase: Phase): Output {
    SendRr(r.(phase := phase, output := r.output + payload, ring := IncrementAll(r.ring)))
  }

  function OnInOrder(r: Receiver, f: Frame): Output {
    var current := r.ring.current;
    if f.seqNo == current then
      if f.flag == EOF_FLAG then SendEofAck(r)
      else if f.payload == [] then Output(r.(phase := Done), [])
      else Accept(r.(ring := r.ring.(highest := f.seqNo)), f.payload, InOrder)
    else if f.seqNo > current then
      var srejs := SrejRange(r.sendSeq, current, f.seqNo);
      Output(r.(phase := Buffering,
                ring := AddPdu(r.ring.(highest := f.seqNo), f, f.seqNo),
                sendSeq := r.sendSeq + |srejs|), srejs)
    else
      Output(r.(sendSeq := r.sendSeq + 1), [Rr(r.sendSeq, r.ring.lower)])
  }

  function OnBuffering(r: Receiver, f: Frame): Output {
    var current := r.ring.current;
    if f.seqNo > current then
      var srejs := SrejRange(r.sendSeq, r.ring.highest + 1, f.seqNo);
      var ring := AddPdu(r.ring, f, f.seqNo);
      Output(r.(ring := ring.(highest := if ring.highest < f.seqNo then f.seqNo else ring.highest),
                sendSeq := r.sendSeq + |srejs|), srejs)
    else if f.seqNo == current then
      if f.flag == EOF_FLAG then Output(r, [])
      else Accept(r, f.payload, Flush)
    else SendRr(r)
  }

  /** The handling of one poll. */
  function OnPoll(r: Receiver, ev: DataEvent): Output {
    match ev
    case Quiet => Output(r.(phase := Done), [])
    case Corrupt => Output(r, [])
    case Arrived(f) => if r.phase == InOrder then OnInOrder(r, f) else OnBuffering(r, f)
  }

  /** One trip round the loop of flush, or its exit when the current slot is empty. */
  function FlushStep(r: Receiver): Output {
    match GetPdu(r.ring, r.ring.current)
    case None => Output(r.(phase := Buffering), [])
    case Some(f) =>
      if f.flag == EOF_FLAG then SendEofAck(r)
      else
        var o := Accept(r.(ring := RemovePdu(r.ring, r.ring.current)), f.payload, Flush);
        if o.receiver.ring.current > r.ring.highest then o.(receiver := o.receiver.(phase := InOrder)) else o
  }

  predicate Polling(r: Receiver) {
    r.phase == InOrder || r.phase == Buffering
  }

  function Step(r: Receiver, ev: DataEvent): Output {
    match r.phase
    case Done => Output(r, [])
    case Flush => FlushStep(r)
    case _ => OnPoll(r, ev)
  }

  /** flush as a whole. */
  function FlushAll(r: Receiver): (o: Output)
    requires r.phase == Flush
    ensures o.receiver.phase != Flush
    decreases Filled(r.ring.slots)
  {
    FlushStepEmpties(r);
    var first := FlushStep(r);
    if first.receiver.phase != Flush then first
    else
      var rest := FlushAll(first.receiver);
      Output(rest.receiver, first.replies + rest.replies)
  }

  // ----- Termination -----

  function Filled(slots: seq<Option<Frame>>): nat {
    if slots == [] then 0 else (if slots[0].Some? then 1 else 0) + Filled(slots[1..])
  }

  lemma {:induction false} FilledUpdate(slots: seq<Option<Frame>>, i: nat)
    requires i < |slots| && slots[i].Some?
    ensures Filled(slots[i := None]) == Filled(slots) - 1
  {
    if i == 0 {
      assert slots[0 := None][1..] == slots[1..];
    } else {
      assert slots[i := None][1..] == slots[1..][i - 1 := None];
      FilledUpdate(slots[1..], i - 1);
    }
  }

  /** A trip round the loop of flush empties a slot or is the last. */
  lemma FlushStepEmpties(r: Receiver)
    ensures FlushStep(r).receiver.phase == Flush ==>
              Filled(FlushStep(r).receiver.ring.slots) < Filled(r.ring.slots)
    ensures FlushStep(r).receiver.phase != Flush ==>
              Filled(FlushStep(r).receiver.ring.slots) <= Filled(r.ring.slots)
  {
    if CheckPduValid(r.ring, r.ring.current) {
      FilledUpdate(r.ring.slots, r.ring.Index(r.ring.current));
    }
  }

  // ----- Running against a finite supply of poll results -----

  datatype Run = Run(receiver: Receiver, inbox: seq<Poll>, sent: seq<seq<byte>>, bufferSize: nat)

  function EncodeReply(reply: Reply): seq<byte> {
    Encode(ReplyFrame(reply))
  }

  function EncodeReplies(replies: seq<Reply>): seq<seq<byte>> {
    MapAll(EncodeReply, replies)
  }

  lemma NoSrejs(id: nat, lo: nat, hi: nat)
    requires lo >= hi
    ensures SrejRange(id, lo, hi) == [] && forall sent :: sent + EncodeReplies(SrejRange(id, lo, hi)) == sent
  {
  }

  lemma EncodeRepliesAppend(a: seq<Reply>, b: seq<Reply>)
    ensures EncodeReplies(a + b) == EncodeReplies(a) + EncodeReplies(b)
  {
    MapAllAppend(EncodeReply, a, b);
  }

  function Next(run: Run): Run {
    var o := Step(run.receiver, DataOf(NextPoll(run.inbox), run.bufferSize));
    Run(o.receiver, if Polling(run.receiver) then RestPolls(run.inbox) else run.inbox,
        run.sent + EncodeReplies(o.replies), run.bufferSize)
  }

  /** A step of a flushing receiver is one trip round the loop of flush. */
  lemma NextInFlush(run: Run)
    requires run.receiver.phase == Flush
    ensures Next(run) == run.(receiver := FlushStep(run.receiver).receiver,
                              sent := run.sent + EncodeReplies(FlushStep(run.receiver).replies))
    ensures !CheckPduValid(run.receiver.ring, run.receiver.ring.current) ==>
              Next(run) == run.(receiver := run.receiver.(phase := Buffering))
  {
    assert run.sent + EncodeReplies([]) == run.sent;
  }

  /** The run after the whole of flush. */
  function AfterFlush(run: Run): Run
    requires run.receiver.phase == Flush
  {
    var o := FlushAll(run.receiver);
    run.(receiver := o.receiver, sent := run.sent + EncodeReplies(o.replies))
  }

  /** One trip of flush leaves the rest of flush to do. */
  lemma AfterFlushNext(run: Run)
    requires run.receiver.phase == Flush
    ensures AfterFlush(run) == if Next(run).receiver.phase == Flush then AfterFlush(Next(run)) else Next(run)
    ensures Next(run).receiver.phase == Flush ==>
              Filled(Next(run).receiver.ring.slots) < Filled(run.receiver.ring.slots)
  {
    hide Next, FlushStep, EncodeReplies;
    NextInFlush(run);
    FlushStepEmpties(run.receiver);
    var first := FlushStep(run.receiver);
    if first.receiver.phase == Flush {
      var rest := FlushAll(first.receiver).replies;
      EncodeRepliesAppend(first.replies, rest);
      assert run.sent + (EncodeReplies(first.replies) + EncodeReplies(rest))
             == run.sent + EncodeReplies(first.replies) + EncodeReplies(rest);
    }
  }

  /** flush as a whole is made of steps of the state machine. */
  lemma {:induction false} FlushAllReached(run: Run)
    requires run.receiver.phase == Flush
    ensures Reaches(Next, Next(run), AfterFlush(run))
    decreases Filled(run.receiver.ring.slots)
  {
    hide Next, AfterFlush;
    AfterFlushNext(run);
    var next := Next(run);
    ReachesSelf(Next, next);
    if next.receiver.phase == Flush {
      FlushAllReached(next);
      ReachesNext(Next, next, next);
      ReachesTransitive(Next, next, Next(next), AfterFlush(next));
    }
  }

  function Rank(r: Receiver): nat {
    match r.phase
    case Flush => 2
    case Done => 0
    case _ => 1
  }

  /** The lexicographic order in which a live receiver goes down. */
  ghost predicate Precedes(x: Run, y: Run) {
    || |x.inbox| < |y.inbox|
    || (|x.inbox| == |y.inbox| &&
        (|| Filled(x.receiver.ring.slots) < Filled(y.receiver.ring.slots)
         || (Filled(x.receiver.ring.slots) == Filled(y.receiver.ring.slots) && Rank(x.receiver) < Rank(y.receiver))))
  }

  lemma StepPrecedes(run: Run)
    requires !run.receiver.phase.Done?
    ensures Precedes(Next(run), run)
  {
    FlushStepEmpties(run.receiver);
  }

  /** Every later moment of a live receiver is lower in the order. */
  lemma LaterPrecedes(run: Run, later: Run)
    requires !run.receiver.phase.Done? && Reaches(Next, Next(run), later)
    ensures Precedes(later, run)
  {
    StepPrecedes(run);
    forall x | Precedes(x, run)
      ensures Precedes(Next(x), run)
    {
      StaysBelow(x, run);
    }
    ReachesInvariant(Next, x => Precedes(x, run), Next(run), later);
  }

  lemma StaysBelow(x: Run, bound: Run)
    requires Precedes(x, bound)
    ensures Precedes(Next(x), bound)
  {
    if x.receiver.phase.Done? {
      assert x.sent + EncodeReplies([]) == x.sent;
    } else {
      StepPrecedes(x);
    }
  }

  /** The state the receiver stops in. */
  function Finish(run: Run): (final: Run)
    ensures final.receiver.phase.Done?
    decreases |run.inbox|, Filled(run.receiver.ring.slots), Rank(run.receiver)
  {
    if run.receiver.phase.Done? then run
    else
      StepPrecedes(run);
      Finish(Next(run))
  }

  lemma FinishNext(run: Run)
    ensures Finish(Next(run)) == Finish(run)
  {
    if run.receiver.phase.Done? {
      assert run.sent + EncodeReplies([]) == run.sent;
    } else {
      StepPrecedes(run);
    }
  }

  lemma {:induction false} ReachesFinish(run: Run)
    ensures Reaches(Next, run, Finish(run))
    decreases |run.inbox|, Filled(run.receiver.ring.slots), Rank(run.receiver)
  {
    ReachesSelf(Next, run);
    if !run.receiver.phase.Done? {
      StepPrecedes(run);
      FinishNext(run);
      ReachesNext(Next, run, run);
      ReachesFinish(Next(run));
      ReachesTransitive(Next, run, Next(run), Finish(run));
    }
  }

  /** Whatever arrives, the receiver stops, and in one well-determined state. */
  lemma ReceiverTerminates(run: Run)
    ensures Reaches(Next, run, Finish(run)) && Finish(run).receiver.phase.Done?
    ensures forall to :: Reaches(Next, run, to) && to.receiver.phase.Done? ==> to == Finish(run)
  {
    ReachesFinish(run);
    forall to | Reaches(Next, run, to) && to.receiver.phase.Done?
      ensures to == Finish(run)
    {
      forall x {
        FinishNext(x);
      }
      ReachesKeeps(Next, Finish, run, to);
    }
  }
}
