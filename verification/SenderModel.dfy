/**
 The sender as a state machine. One step is one trip from one loop head or poll of
 window_open, window_closed or end_of_file to the next.
 */
module SenderModel {
  import opened Bytes
  import opened Options
  import opened Pdu
  import opened Messages
  import opened Window
  import opened Chunking
  import opened Runs

  /**
   WindowOpen and WindowClosed stand at the loop heads of window_open and window_closed,
   AwaitPoll before the poll that follows a sent chunk, EndOfFile at the entry of
   end_of_file and EofSent at its loop head. The counts are the silent polls in a row.
   */
  datatype Phase =
    | WindowOpen
    | AwaitPoll
    | WindowClosed(count: nat)
    | EndOfFile
    | EofSent(count: nat)
    | Done

  const MAX_SILENT := 10

  /** clean becomes false when the code runs into one of its perror branches. */
  datatype Sender = Sender(phase: Phase, ring: Ring, unread: seq<byte>, bufferSize: nat, pad: byte, clean: bool)

  datatype Output = Output(sender: Sender, frames: seq<Frame>)

  /** cleaning_up_with_RR: drop every frame below the RR number and slide the window to it. */
  function Slide(ring: Ring, rr: int): Ring
    decreases rr - ring.lower
  {
    if ring.lower < rr then Slide(IncrementEdges(RemovePdu(ring, ring.lower)), rr) else ring
  }

  /** Whether every remove_PDU of the slide finds a frame. */
  predicate SlideClean(ring: Ring, rr: int)
    decreases rr - ring.lower
  {
    ring.lower < rr ==>
      CheckPduValid(ring, ring.lower) && SlideClean(IncrementEdges(RemovePdu(ring, ring.lower)), rr)
  }

  function OnRr(s: Sender, rr: int): Sender {
    s.(ring := Slide(s.ring, rr), clean := s.clean && SlideClean(s.ring, rr))
  }

  /** resend_data_packet rebuilds the stored frame; only a first transmission's flag changes. */
  function Resend(s: Sender, number: int, flag: byte): Output {
    if number < 0 || !CheckPduValid(s.ring, number) then Output(s.(clean := false), [])
    else
      var stored := GetPdu(s.ring, number).value;
      var f := Frame(ToUint32(number), if stored.flag == DATA_PACKET_FLAG then flag else stored.flag, stored.payload);
      Output(s, [f])
  }

  /** Send a frame under the current number and store it. */
  function SendAndStore(s: Sender, flag: byte, payload: seq<byte>): Output {
    var f := Frame(ToUint32(s.ring.current), flag, payload);
    Output(s.(ring := AddPdu(s.ring, f, s.ring.current),
              clean := s.clean && !CheckPduValid(s.ring, s.ring.current)), [f])
  }

  function SendData(s: Sender): Output {
    var o := SendAndStore(s, DATA_PACKET_FLAG, ReadChunk(s.unread, s.bufferSize));
    o.(sender := o.sender.(ring := o.sender.ring.(current := s.ring.current + 1),
                           unread := s.unread[|ReadChunk(s.unread, s.bufferSize)|..]))
  }

  function To(o: Output, phase: Phase): Output {
    o.(sender := o.sender.(phase := phase))
  }

  function Quietly(s: Sender, phase: Phase): Output {
    Output(s.(phase := phase), [])
  }

  /** Whether the next thing the sender does is to poll. */
  predicate Polling(s: Sender) {
    match s.phase
    case AwaitPoll => true
    case WindowClosed(count) => !CheckWindowOpen(s.ring) && count < MAX_SILENT
    case EofSent(count) => count < MAX_SILENT
    case _ => false
  }

  /** A step that does not poll. */
  function Act(s: Sender): Output {
    match s.phase
    case WindowOpen =>
      if !CheckWindowOpen(s.ring) then Quietly(s, WindowClosed(0))
      else if ReadChunk(s.unread, s.bufferSize) == [] then Quietly(s, EndOfFile)
      else To(SendData(s), AwaitPoll)
    case WindowClosed(count) => Quietly(s, if count >= MAX_SILENT then Done else WindowOpen)
    case EndOfFile => To(SendAndStore(s, EOF_FLAG, [s.pad]), EofSent(0))
    case EofSent(_) => Quietly(s, Done)
    case _ => Output(s, [])
  }

  /** A step that polls. */
  function OnPoll(s: Sender, ev: AckEvent): Output {
    match s.phase
    case AwaitPoll => (
      match ev
      case Silence => Quietly(s, WindowOpen)
      case Garbled => Quietly(s, WindowOpen)
      case GotRr(n) => Quietly(OnRr(s, n), WindowOpen)
      case GotSrej(n) => To(Resend(s, n, RESENT_SREJ_DATA_PACKET_FLAG), WindowOpen)
      case _ => Quietly(s, Done)
    )
    case WindowClosed(count) => (
      match ev
      case Silence => To(Resend(s, s.ring.lower, RESENT_TIMEOUT_DATA_PACKET_FLAG), WindowClosed(count + 1))
      case Garbled => Quietly(s, WindowClosed(0))
      case GotRr(n) => Quietly(OnRr(s, n), WindowOpen)
      case GotSrej(n) => To(Resend(s, n, RESENT_SREJ_DATA_PACKET_FLAG), WindowClosed(0))
      case _ => Quietly(s, Done)
    )
    case EofSent(count) => (
      match ev
      case Silence => To(Resend(s, s.ring.lower, RESENT_TIMEOUT_DATA_PACKET_FLAG), EofSent(count + 1))
      case Garbled => Quietly(s, EofSent(0))
      case GotRr(n) => Quietly(OnRr(s, n), EofSent(0))
      case GotSrej(n) => To(Resend(s, n, RESENT_SREJ_DATA_PACKET_FLAG), EofSent(0))
      case _ => Quietly(s, Done)
    )
    case _ => Output(s, [])
  }

  /** Whether the next thing the sender does is to read the file. */
  predicate Reading(s: Sender) {
    s.phase == WindowOpen && CheckWindowOpen(s.ring)
  }

  /** A failing read() ends the sender. */
  function ReadFails(s: Sender): Output {
    Quietly(s, Done)
  }

  function Step(s: Sender, ev: AckEvent): Output {
    if Polling(s) then OnPoll(s, ev) else Act(s)
  }

  // ----- Running against a finite supply of poll results -----

  /** Whether the next read() succeeds; once a finite supply of outcomes is used up every read() does. */
  predicate NextReadOk(fileReads: seq<bool>) {
    fileReads == [] || fileReads[0]
  }

  function RestReads(fileReads: seq<bool>): seq<bool> {
    if fileReads == [] then [] else fileReads[1..]
  }

  /** The sender with its socket and file: results of polls and reads to come, and datagrams handed to sendto. */
  datatype Run = Run(sender: Sender, inbox: seq<Poll>, fileReads: seq<bool>, sent: seq<seq<byte>>)

  function EncodeAll(frames: seq<Frame>): seq<seq<byte>> {
    MapAll(Encode, frames)
  }

  lemma EncodeAllAppend(a: seq<Frame>, b: seq<Frame>)
    ensures EncodeAll(a + b) == EncodeAll(a) + EncodeAll(b)
  {
    MapAllAppend(Encode, a, b);
  }

  function Next(r: Run): Run {
    var o := if Reading(r.sender) && !NextReadOk(r.fileReads) then ReadFails(r.sender)
             else Step(r.sender, AckOf(NextPoll(r.inbox)));
    Run(o.sender,
        if Polling(r.sender) then RestPolls(r.inbox) else r.inbox,
        if Reading(r.sender) then RestReads(r.fileReads) else r.fileReads,
        r.sent + EncodeAll(o.frames))
  }

  /** A read() that fails ends the sender at once: nothing is sent and nothing is received. */
  lemma FailedReadStops(r: Run)
    requires r.sender.phase == WindowOpen && r.sender.ring.current < r.sender.ring.upper
    requires r.fileReads != [] && !r.fileReads[0]
    ensures Next(r) == Run(r.sender.(phase := Done), r.inbox, r.fileReads[1..], r.sent)
  {
    assert r.sent + EncodeAll([]) == r.sent;
  }

  /** How window_closed is left without a poll. */
  lemma LeavesClosed(r: Run, count: nat)
    requires r.sender.phase == WindowClosed(count) && !Polling(r.sender)
    ensures Next(r) == r.(sender := r.sender.(phase := if count >= MAX_SILENT then Done else WindowOpen))
  {
    assert r.sent + EncodeAll([]) == r.sent;
  }

  /** How window_open is left when the window has closed. */
  lemma LeavesOpen(r: Run)
    requires r.sender.phase == WindowOpen && !CheckWindowOpen(r.sender.ring)
    ensures Next(r) == r.(sender := r.sender.(phase := WindowClosed(0)))
  {
    assert r.sent + EncodeAll([]) == r.sent;
  }

  /** States with nothing left to do but move on to another rank down; polls stay level. */
  function Rank(s: Sender): nat {
    match s.phase
    case AwaitPoll => 6
    case WindowClosed(_) => if CheckWindowOpen(s.ring) then 5 else 3
    case WindowOpen => 4
    case EndOfFile => 2
    case EofSent(_) => 1
    case Done => 0
  }

  function Patience(s: Sender): nat {
    match s.phase
    case WindowClosed(count) => if count < MAX_SILENT then MAX_SILENT - count else 0
    case EofSent(count) => if count < MAX_SILENT then MAX_SILENT - count else 0
    case _ => 0
  }

  /** How many steps the sender can still take before it must use a poll result, a chunk or its patience. */
  ghost predicate Precedes(x: Run, y: Run) {
    || |x.inbox| < |y.inbox|
    || (|x.inbox| == |y.inbox| && |x.sender.unread| < |y.sender.unread|)
    || (|x.inbox| == |y.inbox| && |x.sender.unread| == |y.sender.unread| && Rank(x.sender) < Rank(y.sender))
    || (|x.inbox| == |y.inbox| && |x.sender.unread| == |y.sender.unread| && Rank(x.sender) == Rank(y.sender)
        && Patience(x.sender) < Patience(y.sender))
  }

  /** Every step of a live sender goes down in the lexicographic order. */
  lemma StepPrecedes(r: Run)
    requires !r.sender.phase.Done?
    ensures Precedes(Next(r), r)
  {
  }

  /** Every later moment of a live sender is lower in the order. */
  lemma LaterPrecedes(r: Run, later: Run)
    requires !r.sender.phase.Done? && Reaches(Next, Next(r), later)
    ensures Precedes(later, r)
  {
    StepPrecedes(r);
    forall x | Precedes(x, r)
      ensures Precedes(Next(x), r)
    {
      StaysBelow(x, r);
    }
    ReachesInvariant(Next, x => Precedes(x, r), Next(r), later);
  }

  lemma StaysBelow(x: Run, bound: Run)
    requires Precedes(x, bound)
    ensures Precedes(Next(x), bound)
  {
    if x.sender.phase.Done? {
      assert x.sent + EncodeAll([]) == x.sent;
    } else {
      StepPrecedes(x);
    }
  }

  /** The state the sender stops in. */
  function Finish(r: Run): (final: Run)
    ensures final.sender.phase.Done?
    decreases |r.inbox|, |r.sender.unread|, Rank(r.sender), Patience(r.sender)
  {
    if r.sender.phase.Done? then r
    else
      StepPrecedes(r);
      Finish(Next(r))
  }

  lemma FinishNext(r: Run)
    ensures Finish(Next(r)) == Finish(r)
  {
    if r.sender.phase.Done? {
      assert r.sent + EncodeAll([]) == r.sent;
    } else {
      StepPrecedes(r);
    }
  }

  lemma {:induction false} ReachesFinish(r: Run)
    ensures Reaches(Next, r, Finish(r))
    decreases |r.inbox|, |r.sender.unread|, Rank(r.sender), Patience(r.sender)
  {
    ReachesSelf(Next, r);
    if !r.sender.phase.Done? {
      StepPrecedes(r);
      FinishNext(r);
      ReachesNext(Next, r, r);
      ReachesFinish(Next(r));
      ReachesTransitive(Next, r, Next(r), Finish(r));
    }
  }

  /** Whatever arrives, the sender stops, and in one well-determined state. */
  lemma SenderTerminates(r: Run)
    ensures Reaches(Next, r, Finish(r)) && Finish(r).sender.phase.Done?
    ensures forall to :: Reaches(Next, r, to) && to.sender.phase.Done? ==> to == Finish(r)
  {
    ReachesFinish(r);
    forall to | Reaches(Next, r, to) && to.sender.phase.Done?
      ensures to == Finish(r)
    {
      forall x {
        FinishNext(x);
      }
      ReachesKeeps(Next, Finish, r, to);
    }
  }
}
