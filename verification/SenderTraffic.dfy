/** What the sender sends over a whole run, frame by frame, and when it gives up. */
module SenderTraffic {
  import opened Bytes
  import opened Pdu
  import opened Messages
  import opened Session
  import opened SenderFacts
  import opened Transfer
  import opened TransferInvariant
  import opened TransferProgress
  import S = SenderModel
  import R = ReceiverModel

  // ----- One step -----

  /** A poll makes the sender send one frame, for an SREJ or for silence while it waits, or nothing. */
  lemma PollSends(c: Session, s: S.Sender, ev: AckEvent)
    requires c.Valid() && SenderInv(c, s) && S.Polling(s) && Hearable(s, ev)
    ensures |S.OnPoll(s, ev).frames| == if ev.GotSrej? || (ev == Silence && Waiting(s)) then 1 else 0
    ensures ev.GotSrej? ==> S.OnPoll(s, ev).frames[0].flag == 17 && S.OnPoll(s, ev).frames[0].seqNo == ev.number
    ensures ev == Silence && Waiting(s) ==>
              var f := S.OnPoll(s, ev).frames[0];
              f.flag == (if s.ring.lower < c.Eof() then 18 else 10) && f.seqNo == s.ring.lower
  {
    if ev.GotSrej? {
      SrejResent(c, s, ev.number);
    } else if ev == Silence && Waiting(s) {
      ResendGenuine(c, s, s.ring.lower, RESENT_TIMEOUT_DATA_PACKET_FLAG);
    }
  }

  /** Without a poll it sends the next chunk, or EOF, or nothing. */
  lemma ActSends(c: Session, s: S.Sender)
    requires c.Valid() && SenderInv(c, s) && !S.Polling(s)
    ensures S.Act(s).frames == if S.Reading(s) && s.ring.current < c.Eof() then [c.DataFrame(s.ring.current)]
                               else if s.phase == S.EndOfFile then [c.EofFrame()]
                               else []
    ensures S.Act(s).sender.ring.current == s.ring.current + if S.Reading(s) && s.ring.current < c.Eof() then 1 else 0
    ensures S.Act(s).sender.phase.EofSent? <==> s.phase == S.EndOfFile
  {
    NextChunk(c, s);
    if S.Reading(s) && s.ring.current < c.Eof() {
      SendDataIs(c, s);
    }
  }

  /**
   Any undamaged packet other than an RR or an SREJ stops the sender without a word: an EOF ACK
   and, in every loop alike, anything unknown.
   */
  lemma OtherPacketsStop(s: S.Sender, bytes: seq<byte>)
    requires S.Polling(s) && Decode(bytes).Good? && |bytes| <= 11
    ensures bytes[6] !in {5, 6} <==> S.OnPoll(s, AckOf(Datagram(bytes))).sender.phase == S.Done
    ensures bytes[6] !in {5, 6} ==> S.OnPoll(s, AckOf(Datagram(bytes))) == S.Output(s.(phase := S.Done), [])
  {
    hide Decode, AckOf;
    AckByFlag(bytes);
  }

  // ----- The log of a run -----

  /** The frames a label makes the sender send. */
  function SenderFrames(t: System, event: Label): seq<Frame> {
    match event
    case SenderActs => if S.Polling(t.sender) then [] else S.Act(t.sender).frames
    case SenderWaits => if S.Polling(t.sender) then S.OnPoll(t.sender, Silence).frames else []
    case SenderHears(fault) =>
      if S.Polling(t.sender) && t.replies != [] then S.OnPoll(t.sender, HeardEvent(t, fault)).frames else []
    case _ => []
  }

  function SenderLog(t: System, schedule: seq<Label>): seq<Frame> {
    if schedule == [] then []
    else
      var front := schedule[..|schedule| - 1];
      SenderLog(t, front) + SenderFrames(Execute(t, front), schedule[|schedule| - 1])
  }

  /** The data path carries exactly what the sender has sent. */
  lemma {:induction false} LogIsData(c: Session, schedule: seq<Label>)
    requires c.Valid()
    ensures forall f :: f in After(c, schedule).data <==> f in SenderLog(Initial(c), schedule)
  {
    if schedule != [] {
      var front := schedule[..|schedule| - 1];
      LogIsData(c, front);
      StepAddsFrames(After(c, front), schedule[|schedule| - 1]);
    }
  }

  lemma StepAddsFrames(t: System, event: Label)
    ensures forall f :: f in Apply(t, event).data <==> f in t.data || f in SenderFrames(t, event)
  {
    hide S.OnPoll, S.Act, HeardEvent, R.OnPoll, R.FlushStep, ArrivalEvent;
  }

  lemma LogExtended(t: System, schedule: seq<Label>, event: Label)
    ensures Execute(t, schedule + [event]) == Apply(Execute(t, schedule), event)
    ensures SenderLog(t, schedule + [event]) == SenderLog(t, schedule) + SenderFrames(Execute(t, schedule), event)
  {
    assert (schedule + [event])[..|schedule|] == schedule;
  }

  /** Whether a label lets a polling sender hear an SREJ. */
  predicate HearsSrej(t: System, event: Label) {
    event.SenderHears? && S.Polling(t.sender) && t.replies != [] && HeardEvent(t, event.fault).GotSrej?
  }

  /** Whether a label is a silent poll of window_closed or end_of_file. */
  predicate WaitsInVain(t: System, event: Label) {
    event.SenderWaits? && Waiting(t.sender)
  }

  /** How many labels of a run are of a kind. */
  function Occurrences(t: System, schedule: seq<Label>, kind: (System, Label) -> bool): nat {
    if schedule == [] then 0
    else
      var front := schedule[..|schedule| - 1];
      Occurrences(t, front, kind) + if kind(Execute(t, front), schedule[|schedule| - 1]) then 1 else 0
  }

  /** What one label makes the sender send. */
  lemma LabelSends(c: Session, t: System, event: Label)
    requires c.Valid() && Inv(c, t)
    ensures var frames := SenderFrames(t, event);
            var s, s' := t.sender, Apply(t, event).sender;
            if HearsSrej(t, event) then
              |frames| == 1 && frames[0].flag == 17 && s'.ring.current == s.ring.current && frames[0].seqNo < c.Eof()
            else if WaitsInVain(t, event) then
              |frames| == 1 && s'.ring.current == s.ring.current
              && frames[0].flag in {18, 10} && (frames[0].flag == 10 ==> s.phase.EofSent?)
            else if event == SenderActs && s.phase == S.EndOfFile then
              frames == [c.EofFrame()] && s'.ring.current == s.ring.current
            else if s'.ring.current == s.ring.current then frames == []
            else
              s.ring.current < c.Eof() && s'.ring.current == s.ring.current + 1
              && frames == [c.DataFrame(s.ring.current)]
    ensures Apply(t, event).sender.phase.EofSent? ==>
              t.sender.phase.EofSent? || (event == SenderActs && t.sender.phase == S.EndOfFile)
  {
    hide HeardEvent, S.Act, R.OnPoll, R.FlushStep, ArrivalEvent;
    match event
    case SenderActs =>
      if !S.Polling(t.sender) {
        ActSends(c, t.sender);
      }
    case SenderWaits =>
      if S.Polling(t.sender) {
        PollSends(c, t.sender, Silence);
        PollKeeps(c, t.sender, Silence);
      }
    case SenderHears(fault) =>
      if S.Polling(t.sender) && t.replies != [] {
        HeardIsHearable(c, t, fault);
        PollSends(c, t.sender, HeardEvent(t, fault));
        PollKeeps(c, t.sender, HeardEvent(t, fault));
      }
    case _ =>
  }

  /** How many frames of a log carry a flag. */
  function CountFlag(log: seq<Frame>, flag: byte): nat {
    if log == [] then 0 else CountFlag(log[..|log| - 1], flag) + if log[|log| - 1].flag == flag then 1 else 0
  }

  /** The frames of a log that carry the flag of a first transmission, in order. */
  function Originals(log: seq<Frame>): seq<Frame> {
    if log == [] then []
    else Originals(log[..|log| - 1]) + if log[|log| - 1].flag == 16 then [log[|log| - 1]] else []
  }

  lemma OneMoreFrame(log: seq<Frame>, more: seq<Frame>)
    requires |more| <= 1
    ensures forall flag: byte ::
              CountFlag(log + more, flag) == CountFlag(log, flag) + if more != [] && more[0].flag == flag then 1 else 0
    ensures Originals(log + more) == Originals(log) + if more != [] && more[0].flag == 16 then more else []
  {
    if more == [] {
      assert log + more == log;
    } else {
      assert (log + more)[..|log|] == log;
    }
  }

  /** The chunks sent so far, each as its first transmission. */
  ghost function FirstFrames(c: Session, n: nat): seq<Frame>
    requires c.Valid() && n <= c.Eof()
  {
    seq(n, k requires 0 <= k < n => c.DataFrame(k))
  }

  /** What a log holds when n chunks and eof EOF packets have been sent besides the copies. */
  ghost predicate Counted(c: Session, n: nat, eof: nat, srejs: nat, silent: nat, log: seq<Frame>)
    requires c.Valid()
  {
    && n <= c.Eof()
    && Originals(log) == FirstFrames(c, n)
    && CountFlag(log, 16) == n
    && CountFlag(log, 17) == srejs
    && CountFlag(log, 18) + CountFlag(log, 10) == silent + eof
    && |log| == n + srejs + silent + eof
  }

  ghost function EofCount(c: Session, t: System): nat
    requires c.Valid()
  {
    if c.EofFrame() in t.data then 1 else 0
  }

  lemma ChunkCounted(c: Session, n: nat, eof: nat, srejs: nat, silent: nat, log: seq<Frame>)
    requires c.Valid() && Counted(c, n, eof, srejs, silent, log) && n < c.Eof()
    ensures Counted(c, n + 1, eof, srejs, silent, log + [c.DataFrame(n)])
  {
    OneMoreFrame(log, [c.DataFrame(n)]);
    assert FirstFrames(c, n + 1) == FirstFrames(c, n) + [c.DataFrame(n)];
  }

  lemma CopyCounted(c: Session, n: nat, eof: nat, srejs: nat, silent: nat, log: seq<Frame>, f: Frame)
    requires c.Valid() && Counted(c, n, eof, srejs, silent, log)
    ensures f.flag == 17 ==> Counted(c, n, eof, srejs + 1, silent, log + [f])
    ensures f.flag in {18, 10} ==> Counted(c, n, eof, srejs, silent + 1, log + [f])
    ensures f.flag == 10 ==> Counted(c, n, eof + 1, srejs, silent, log + [f])
  {
    OneMoreFrame(log, [f]);
  }

  /**
   What the sender has sent after any run: every chunk read so far exactly once with flag 16, in
   the order of the file; one copy with flag 17 for every SREJ heard; one copy of the lowest
   frame for every silent poll while waiting; EOF once more when the file has ended; and nothing
   else.
   */
  lemma {:induction false} TrafficCounted(c: Session, schedule: seq<Label>)
    requires c.Valid()
    ensures var t := After(c, schedule);
            && Counted(c, t.sender.ring.current, EofCount(c, t), Occurrences(Initial(c), schedule, HearsSrej),
                       Occurrences(Initial(c), schedule, WaitsInVain), SenderLog(Initial(c), schedule))
            && (t.sender.phase.EofSent? ==> EofCount(c, t) == 1)
  {
    hide Counted, Apply, SenderFrames, HearsSrej, WaitsInVain, Inv, EofCount;
    if schedule == [] {
      NothingCounted(c);
    } else {
      var front, event := schedule[..|schedule| - 1], schedule[|schedule| - 1];
      TrafficCounted(c, front);
      AfterInv(c, front);
      LabelCounted(c, After(c, front), event, Occurrences(Initial(c), front, HearsSrej),
                   Occurrences(Initial(c), front, WaitsInVain), SenderLog(Initial(c), front));
    }
  }

  lemma NothingCounted(c: Session)
    requires c.Valid()
    ensures Counted(c, 0, 0, 0, 0, []) && EofCount(c, Initial(c)) == 0
  {
  }

  /** EOF goes out for the first time from the entry of end_of_file, and only there. */
  lemma EofCountStep(c: Session, t: System, event: Label)
    requires c.Valid() && Inv(c, t) && (t.sender.phase.EofSent? ==> EofCount(c, t) == 1)
    ensures EofCount(c, Apply(t, event)) ==
            EofCount(c, t) + if event == SenderActs && t.sender.phase == S.EndOfFile then 1 else 0
    ensures Apply(t, event).sender.phase.EofSent? ==> EofCount(c, Apply(t, event)) == 1
  {
    hide Inv, SenderFrames, HeardEvent, Waiting, Apply;
    LabelSends(c, t, event);
    StepAddsFrames(t, event);
    EofNotYet(c, t);
    var frames := SenderFrames(t, event);
    assert c.EofFrame() in frames <==> frames != [] && frames[0] == c.EofFrame();
  }

  lemma EofNotYet(c: Session, t: System)
    requires c.Valid() && Inv(c, t)
    ensures t.sender.phase == S.EndOfFile ==> c.EofFrame() !in t.data
  {
  }

  lemma LabelCounted(c: Session, t: System, event: Label, srejs: nat, silent: nat, log: seq<Frame>)
    requires c.Valid() && Inv(c, t)
    requires Counted(c, t.sender.ring.current, EofCount(c, t), srejs, silent, log)
    requires t.sender.phase.EofSent? ==> EofCount(c, t) == 1
    ensures var t' := Apply(t, event);
            && Counted(c, t'.sender.ring.current, EofCount(c, t'), srejs + (if HearsSrej(t, event) then 1 else 0),
                       silent + (if WaitsInVain(t, event) then 1 else 0), log + SenderFrames(t, event))
            && (t'.sender.phase.EofSent? ==> EofCount(c, t') == 1)
  {
    hide Inv, SenderFrames, HeardEvent, Waiting, Apply, Originals, CountFlag, Counted, EofCount;
    LabelSends(c, t, event);
    EofCountStep(c, t, event);
    var frames := SenderFrames(t, event);
    if frames == [] {
      assert log + frames == log;
    } else {
      assert frames == [frames[0]];
      CopyCounted(c, t.sender.ring.current, EofCount(c, t), srejs, silent, log, frames[0]);
      if t.sender.ring.current < c.Eof() {
        ChunkCounted(c, t.sender.ring.current, EofCount(c, t), srejs, silent, log);
      }
    }
  }

  // ----- One poll for each chunk -----

  /** Whether a label is the non-blocking poll of window_open. */
  predicate PollsAfterChunk(t: System, event: Label) {
    t.sender.phase == S.AwaitPoll && (event.SenderWaits? || (event.SenderHears? && t.replies != []))
  }

  lemma LabelPolls(c: Session, t: System, event: Label)
    requires c.Valid() && Inv(c, t)
    ensures var s, s' := t.sender, Apply(t, event).sender;
            (if s'.phase == S.AwaitPoll then 1 else 0) + (if PollsAfterChunk(t, event) then 1 else 0)
            == (if s.phase == S.AwaitPoll then 1 else 0) + (s'.ring.current - s.ring.current)
  {
    hide HeardEvent, R.OnPoll, R.FlushStep, ArrivalEvent;
    match event
    case SenderActs =>
      if !S.Polling(t.sender) {
        ActSends(c, t.sender);
      }
    case SenderHears(fault) =>
      if t.replies != [] {
        HeardIsHearable(c, t, fault);
        if S.Polling(t.sender) {
          PollKeeps(c, t.sender, HeardEvent(t, fault));
        }
      }
    case _ =>
  }

  /** window_open polls exactly once after each chunk, whether or not something has arrived. */
  lemma {:induction false} OnePollPerChunk(c: Session, schedule: seq<Label>)
    requires c.Valid()
    ensures var s := After(c, schedule).sender;
            Occurrences(Initial(c), schedule, PollsAfterChunk) + (if s.phase == S.AwaitPoll then 1 else 0)
            == s.ring.current
  {
    if schedule != [] {
      hide Apply, PollsAfterChunk, Inv;
      var front := schedule[..|schedule| - 1];
      OnePollPerChunk(c, front);
      AfterInv(c, front);
      LabelPolls(c, After(c, front), schedule[|schedule| - 1]);
    }
  }
}
