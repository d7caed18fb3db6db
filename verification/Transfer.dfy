/**
 Both endpoints and the network between them. A run is a schedule: a list of labels, each
 naming what happens next; a label that is not possible in a state leaves it unchanged, so
 every list is a run. The data path loses, repeats and reorders: a frame once sent may be
 delivered at any later time, any number of times or never. The reply path keeps order and
 loses. Either path may complement one byte of what it delivers.
 */
module Transfer {
  import opened Bytes
  import opened Options
  import opened Pdu
  import opened FaultInjector
  import opened Messages
  import opened Window
  import opened Session
  import S = SenderModel
  import R = ReceiverModel

  /** data holds every frame ever sent, replies those in flight, log those ever sent. */
  datatype System = System(
    sender: S.Sender,
    receiver: R.Receiver,
    data: set<Frame>,
    replies: seq<Reply>,
    log: seq<Reply>
  )

  datatype Fault = Intact | ComplementByte(i: nat)

  function OnWire(f: Frame, fault: Fault): seq<byte> {
    var b := Encode(f);
    if fault.ComplementByte? && fault.i < |b| then Complement(b, fault.i) else b
  }

  datatype Label =
    | SenderActs
    | SenderReadFails
    | SenderWaits
    | SenderHears(fault: Fault)
    | ReplyLost(k: nat)
    | Delivered(f: Frame, fault: Fault)
    | ReceiverWaits
    | ReceiverFlushes

  /** What the sender makes of the reply at the head of the queue. */
  function HeardEvent(t: System, fault: Fault): AckEvent
    requires t.replies != []
  {
    AckOf(Datagram(OnWire(ReplyFrame(t.replies[0]), fault)))
  }

  /** What the receiver makes of a frame; both ends use the same buffer size. */
  function ArrivalEvent(t: System, f: Frame, fault: Fault): DataEvent {
    DataOf(Datagram(OnWire(f, fault)), t.sender.bufferSize)
  }

  function SenderGoes(t: System, o: S.Output): System {
    t.(sender := o.sender, data := t.data + set f | f in o.frames)
  }

  function ReceiverGoes(t: System, o: R.Output): System {
    t.(receiver := o.receiver, replies := t.replies + o.replies, log := t.log + o.replies)
  }

  function Apply(t: System, event: Label): System {
    match event
    case SenderActs =>
      if S.Polling(t.sender) then t else SenderGoes(t, S.Act(t.sender))
    case SenderReadFails =>
      if S.Reading(t.sender) then SenderGoes(t, S.ReadFails(t.sender)) else t
    case SenderWaits =>
      if S.Polling(t.sender) then SenderGoes(t, S.OnPoll(t.sender, Silence)) else t
    case SenderHears(fault) =>
      if S.Polling(t.sender) && t.replies != [] then
        SenderGoes(t.(replies := t.replies[1..]), S.OnPoll(t.sender, HeardEvent(t, fault)))
      else t
    case ReplyLost(k) =>
      if k < |t.replies| then t.(replies := t.replies[..k] + t.replies[k + 1..]) else t
    case Delivered(f, fault) =>
      if f in t.data && R.Polling(t.receiver) then
        ReceiverGoes(t, R.OnPoll(t.receiver, ArrivalEvent(t, f, fault)))
      else t
    case ReceiverWaits =>
      if R.Polling(t.receiver) then ReceiverGoes(t, R.OnPoll(t.receiver, Quiet)) else t
    case ReceiverFlushes =>
      if t.receiver.phase == R.Flush then ReceiverGoes(t, R.FlushStep(t.receiver)) else t
  }

  function Execute(t: System, schedule: seq<Label>): System {
    if schedule == [] then t
    else Apply(Execute(t, schedule[..|schedule| - 1]), schedule[|schedule| - 1])
  }

  ghost function Initial(c: Session): System
    requires c.Valid()
  {
    System(
      S.Sender(S.WindowOpen, MakeWindow(c.windowSize), c.file, c.bufferSize, c.eofPad, true),
      R.Receiver(R.InOrder, MakeWindow(c.windowSize), [], R.FIRST_REPLY, c.ackPad),
      {}, [], [])
  }

  lemma {:induction false} ExecuteAppend(t: System, a: seq<Label>, b: seq<Label>)
    ensures Execute(t, a + b) == Execute(Execute(t, a), b)
  {
    if b == [] {
      assert a + b == a;
    } else {
      ExecuteAppend(t, a, b[..|b| - 1]);
      assert (a + b)[..|a + b| - 1] == a + b[..|b| - 1];
    }
  }

  lemma OnWireFaults(f: Frame, fault: Fault)
    ensures AtMostOneFault(Encode(f), Some(OnWire(f, fault)))
    ensures fault == Intact ==> OnWire(f, fault) == Encode(f)
  {
  }
}
