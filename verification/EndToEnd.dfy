/**
 The two programs as parts of the whole system: what a run of the system lets one end read,
 handed to that end's program, makes it do what the run says it does.
 */
module EndToEnd {
  import opened Bytes
  import opened Pdu
  import opened Messages
  import opened Session
  import opened SenderFacts
  import opened Transfer
  import opened TransferInvariant
  import opened TransferTheorems
  import opened SenderTraffic
  import opened Runs
  import Rcopy
  import Server
  import S = SenderModel
  import R = ReceiverModel

  // ----- The receiver -----

  /** What a label lets the receiver's poll return, if it is one that the receiver polls for. */
  function ReceiverPoll(t: System, event: Label): seq<Poll> {
    match event
    case Delivered(f, fault) => if f in t.data && R.Polling(t.receiver) then [Datagram(OnWire(f, fault))] else []
    case ReceiverWaits => if R.Polling(t.receiver) then [Timeout] else []
    case _ => []
  }

  /** Everything the receiver's polls return in a run. */
  function ReceiverInbox(t: System, schedule: seq<Label>): seq<Poll> {
    if schedule == [] then []
    else
      var front := schedule[..|schedule| - 1];
      ReceiverInbox(t, front) + ReceiverPoll(Execute(t, front), schedule[|schedule| - 1])
  }

  /** The receiver of the system with a socket that has this still to come. */
  ghost function ReceiverRun(c: Session, t: System, inbox: seq<Poll>): R.Run {
    R.Run(t.receiver, inbox, R.EncodeReplies(t.log), c.bufferSize)
  }

  /** A step that takes one poll result. */
  lemma ReceiverPolled(c: Session, t: System, inbox: seq<Poll>)
    requires R.Polling(t.receiver)
    ensures var o := R.OnPoll(t.receiver, DataOf(NextPoll(inbox), c.bufferSize));
            R.Next(ReceiverRun(c, t, inbox)) == ReceiverRun(c, ReceiverGoes(t, o), RestPolls(inbox))
  {
    hide DataOf, R.OnPoll, R.EncodeReplies;
    R.EncodeRepliesAppend(t.log, R.OnPoll(t.receiver, DataOf(NextPoll(inbox), c.bufferSize)).replies);
  }

  lemma ReceiverFlushed(c: Session, t: System, inbox: seq<Poll>)
    requires t.receiver.phase == R.Flush
    ensures R.Next(ReceiverRun(c, t, inbox)) == ReceiverRun(c, Apply(t, ReceiverFlushes), inbox)
  {
    hide R.Next, R.FlushStep, R.EncodeReplies;
    R.NextInFlush(ReceiverRun(c, t, inbox));
    R.EncodeRepliesAppend(t.log, R.FlushStep(t.receiver).replies);
  }

  /** One label is one step of the receiver's program, or none. */
  lemma ReceiverStep(c: Session, t: System, event: Label, rest: seq<Poll>)
    requires c.Valid() && Inv(c, t)
    ensures Reaches(R.Next, ReceiverRun(c, t, ReceiverPoll(t, event) + rest), ReceiverRun(c, Apply(t, event), rest))
  {
    hide R.Next, R.OnPoll, R.FlushStep, DataOf, OnWire, R.EncodeReplies, S.OnPoll, S.Act, HeardEvent, Reaches;
    var run := ReceiverRun(c, t, ReceiverPoll(t, event) + rest);
    ReachesSelf(R.Next, run);
    ReachesNext(R.Next, run, run);
    assert [] + rest == rest;
    match event
    case Delivered(f, fault) =>
      if f in t.data && R.Polling(t.receiver) {
        ReceiverPolled(c, t, ReceiverPoll(t, event) + rest);
      }
    case ReceiverWaits =>
      if R.Polling(t.receiver) {
        ReceiverPolled(c, t, ReceiverPoll(t, event) + rest);
      }
    case ReceiverFlushes =>
      if t.receiver.phase == R.Flush {
        ReceiverFlushed(c, t, rest);
      }
    case _ =>
  }

  /** The receiver of any run of the system is reached by the receiver's program on what the run lets it read. */
  lemma {:induction false} ReceiverProjects(c: Session, schedule: seq<Label>, rest: seq<Poll>)
    requires c.Valid()
    ensures Reaches(R.Next, ReceiverRun(c, Initial(c), ReceiverInbox(Initial(c), schedule) + rest),
                    ReceiverRun(c, After(c, schedule), rest))
  {
    hide R.Next, Reaches, ReceiverPoll, Apply, ReceiverRun, Inv;
    var start := Initial(c);
    if schedule == [] {
      assert [] + rest == rest;
      ReachesSelf(R.Next, ReceiverRun(c, start, rest));
    } else {
      var front, event := schedule[..|schedule| - 1], schedule[|schedule| - 1];
      var t := After(c, front);
      AfterInv(c, front);
      ReceiverProjects(c, front, ReceiverPoll(t, event) + rest);
      ReceiverStep(c, t, event, rest);
      assert ReceiverInbox(start, schedule) + rest == ReceiverInbox(start, front) + (ReceiverPoll(t, event) + rest);
      ReachesTransitive(R.Next, ReceiverRun(c, start, ReceiverInbox(start, schedule) + rest),
                        ReceiverRun(c, t, ReceiverPoll(t, event) + rest), ReceiverRun(c, After(c, schedule), rest));
    }
  }

  /** When the network brings nothing more, the receiver's program ends as in some continuation of the run. */
  lemma {:induction false} ReceiverSettles(c: Session, schedule: seq<Label>)
    returns (more: seq<Label>)
    requires c.Valid()
    ensures After(c, schedule + more).receiver.phase == R.Done
    ensures Reaches(R.Next, ReceiverRun(c, After(c, schedule), []), ReceiverRun(c, After(c, schedule + more), []))
    decreases R.Filled(After(c, schedule).receiver.ring.slots), R.Rank(After(c, schedule).receiver)
  {
    hide R.Next, Reaches, ReceiverRun, Apply, R.Filled, R.Rank;
    var t := After(c, schedule);
    if t.receiver.phase == R.Done {
      more := [];
      assert schedule + more == schedule;
      ReachesSelf(R.Next, ReceiverRun(c, t, []));
    } else {
      var event := if t.receiver.phase == R.Flush then ReceiverFlushes else ReceiverWaits;
      ReceiverSettlingStep(c, t, event);
      assert (schedule + [event])[..|schedule|] == schedule;
      assert After(c, schedule + [event]) == Apply(t, event);
      hide After, Execute;
      var rest := ReceiverSettles(c, schedule + [event]);
      more := [event] + rest;
      assert schedule + more == schedule + [event] + rest;
      ReachesTransitive(R.Next, ReceiverRun(c, t, []), ReceiverRun(c, Apply(t, event), []),
                        ReceiverRun(c, After(c, schedule + more), []));
    }
  }

  lemma ReceiverSettlingStep(c: Session, t: System, event: Label)
    requires t.receiver.phase != R.Done
    requires event == if t.receiver.phase == R.Flush then ReceiverFlushes else ReceiverWaits
    ensures Reaches(R.Next, ReceiverRun(c, t, []), ReceiverRun(c, Apply(t, event), []))
    ensures var r, r' := t.receiver, Apply(t, event).receiver;
            || R.Filled(r'.ring.slots) < R.Filled(r.ring.slots)
            || (R.Filled(r'.ring.slots) == R.Filled(r.ring.slots) && R.Rank(r') < R.Rank(r))
  {
    var run := ReceiverRun(c, t, []);
    ReachesSelf(R.Next, run);
    ReachesNext(R.Next, run, run);
    R.StepPrecedes(run);
    hide R.Next, Reaches, R.OnPoll, R.FlushStep, R.EncodeReplies;
    if t.receiver.phase == R.Flush {
      ReceiverFlushed(c, t, []);
    } else {
      ReceiverPolled(c, t, []);
    }
  }

  /**
   The receiver's program, reading whatever the network of some run brings it, stops as the
   receiver of a continuation of that run: the same output, and the same datagrams sent.
   */
  lemma ReceiverProgramInSystem(c: Session, schedule: seq<Label>)
    requires c.Valid()
    ensures exists more ::
              var t := After(c, schedule + more);
              && R.Finish(ReceiverRun(c, Initial(c), ReceiverInbox(Initial(c), schedule))) == ReceiverRun(c, t, [])
              && t.receiver.phase == R.Done
  {
    hide R.Next, Reaches, ReceiverInbox, After;
    var inbox := ReceiverInbox(Initial(c), schedule);
    assert inbox + [] == inbox;
    ReceiverProjects(c, schedule, []);
    var more := ReceiverSettles(c, schedule);
    var start, end := ReceiverRun(c, Initial(c), inbox), ReceiverRun(c, After(c, schedule + more), []);
    ReachesTransitive(R.Next, start, ReceiverRun(c, After(c, schedule), []), end);
    R.ReceiverTerminates(start);
  }

  /** A datagram that says everything has been received. */
  predicate IsEofAck(b: seq<byte>) {
    Decode(b).Good? && Decode(b).frame.flag == EOF_ACK_FLAG
  }

  lemma EofAckOnWire(reply: Reply)
    ensures IsEofAck(R.EncodeReply(reply)) <==> reply.EofAck?
  {
    RoundTrip(ReplyFrame(reply));
  }

  /**
   rcopy on the network: whatever the network loses, repeats, reorders or damages, what the
   program leaves in the output file is a prefix of the file, and the whole file if it has
   sent an EOF ACK.
   */
  method RunRcopy(ghost c: Session, ghost schedule: seq<Label>,
                  windowSize: nat, bufferSize: nat, pad: byte, inbox: seq<Poll>)
    returns (output: seq<byte>, sent: seq<seq<byte>>)
    requires c.Valid() && windowSize == c.windowSize && bufferSize == c.bufferSize && pad == c.ackPad
    requires inbox == ReceiverInbox(Initial(c), schedule)
    ensures output <= c.file
    ensures forall i :: 0 <= i < |sent| && IsEofAck(sent[i]) ==> output == c.file
  {
    var rcopy := new Rcopy.Rcopy(windowSize, bufferSize, pad, inbox);
    rcopy.ProcessFile();
    output, sent := rcopy.output, rcopy.sent;
    ReceiverProgramInSystem(c, schedule);
    ghost var more :| R.Finish(ReceiverRun(c, Initial(c), inbox)) == ReceiverRun(c, After(c, schedule + more), [])
                      && After(c, schedule + more).receiver.phase == R.Done;
    ghost var log := After(c, schedule + more).log;
    PrefixDelivery(c, schedule + more);
    forall i | 0 <= i < |sent| && IsEofAck(sent[i])
      ensures output == c.file
    {
      EofAckOnWire(log[i]);
      CompletionIsHonest(c, schedule + more, i);
    }
  }

  // ----- The sender -----

  /** What a label lets the sender's poll return, if it is one that the sender polls for. */
  function SenderPoll(t: System, event: Label): seq<Poll> {
    match event
    case SenderWaits => if S.Polling(t.sender) then [Timeout] else []
    case SenderHears(fault) =>
      if S.Polling(t.sender) && t.replies != [] then [Datagram(OnWire(ReplyFrame(t.replies[0]), fault))] else []
    case _ => []
  }

  /** What a label makes of the sender's read(). */
  function SenderRead(t: System, event: Label): seq<bool> {
    match event
    case SenderActs => if S.Reading(t.sender) then [true] else []
    case SenderReadFails => if S.Reading(t.sender) then [false] else []
    case _ => []
  }

  function SenderInbox(t: System, schedule: seq<Label>): seq<Poll> {
    if schedule == [] then []
    else
      var front := schedule[..|schedule| - 1];
      SenderInbox(t, front) + SenderPoll(Execute(t, front), schedule[|schedule| - 1])
  }

  function SenderReads(t: System, schedule: seq<Label>): seq<bool> {
    if schedule == [] then []
    else
      var front := schedule[..|schedule| - 1];
      SenderReads(t, front) + SenderRead(Execute(t, front), schedule[|schedule| - 1])
  }

  /** The sender of the system with a socket and a file that have this still to come. */
  function SenderRun(t: System, inbox: seq<Poll>, fileReads: seq<bool>, log: seq<Frame>): S.Run {
    S.Run(t.sender, inbox, fileReads, S.EncodeAll(log))
  }

  lemma SenderPolled(t: System, inbox: seq<Poll>, fileReads: seq<bool>, log: seq<Frame>)
    requires S.Polling(t.sender)
    ensures var o := S.OnPoll(t.sender, AckOf(NextPoll(inbox)));
            S.Next(SenderRun(t, inbox, fileReads, log))
            == SenderRun(SenderGoes(t, o), RestPolls(inbox), fileReads, log + o.frames)
  {
    hide AckOf, S.OnPoll, S.EncodeAll;
    S.EncodeAllAppend(log, S.OnPoll(t.sender, AckOf(NextPoll(inbox))).frames);
  }

  lemma SenderActed(t: System, inbox: seq<Poll>, fileReads: seq<bool>, log: seq<Frame>)
    requires !S.Polling(t.sender)
    ensures var o := if S.Reading(t.sender) && !S.NextReadOk(fileReads) then S.ReadFails(t.sender) else S.Act(t.sender);
            S.Next(SenderRun(t, inbox, fileReads, log))
            == SenderRun(SenderGoes(t, o), inbox, if S.Reading(t.sender) then S.RestReads(fileReads) else fileReads,
                         log + o.frames)
  {
    hide AckOf, S.Act, S.OnPoll, S.EncodeAll;
    S.EncodeAllAppend(log, S.Act(t.sender).frames);
    S.EncodeAllAppend(log, []);
  }

  /** One label is one step of the sender's program, or none. */
  lemma SenderStep(t: System, event: Label, rest: seq<Poll>, restReads: seq<bool>, log: seq<Frame>)
    ensures Reaches(S.Next, SenderRun(t, SenderPoll(t, event) + rest, SenderRead(t, event) + restReads, log),
                    SenderRun(Apply(t, event), rest, restReads, log + SenderFrames(t, event)))
  {
    hide S.Next, S.OnPoll, S.Act, AckOf, OnWire, S.EncodeAll, R.OnPoll, R.FlushStep, ArrivalEvent, Reaches;
    var inbox, fileReads := SenderPoll(t, event) + rest, SenderRead(t, event) + restReads;
    var run := SenderRun(t, inbox, fileReads, log);
    ReachesSelf(S.Next, run);
    ReachesNext(S.Next, run, run);
    assert [] + rest == rest && [] + restReads == restReads && log + [] == log;
    if S.Polling(t.sender) {
      SenderPolled(t, inbox, fileReads, log);
    } else {
      SenderActed(t, inbox, fileReads, log);
    }
  }

  /** The sender of any run of the system is reached by the sender's program on what the run lets it read. */
  lemma {:induction false} SenderProjects(c: Session, schedule: seq<Label>, rest: seq<Poll>, restReads: seq<bool>)
    requires c.Valid()
    ensures var t := Initial(c);
            Reaches(S.Next, SenderRun(t, SenderInbox(t, schedule) + rest, SenderReads(t, schedule) + restReads, []),
                    SenderRun(After(c, schedule), rest, restReads, SenderLog(t, schedule)))
  {
    hide S.Next, Reaches, SenderPoll, SenderRead, SenderFrames, Apply, SenderRun;
    var start := Initial(c);
    if schedule == [] {
      assert [] + rest == rest && [] + restReads == restReads;
      ReachesSelf(S.Next, SenderRun(start, rest, restReads, []));
    } else {
      var front, event := schedule[..|schedule| - 1], schedule[|schedule| - 1];
      var t := After(c, front);
      var polls, fileReads := SenderPoll(t, event) + rest, SenderRead(t, event) + restReads;
      SenderProjects(c, front, polls, fileReads);
      SenderStep(t, event, rest, restReads, SenderLog(start, front));
      assert SenderInbox(start, schedule) + rest == SenderInbox(start, front) + polls;
      assert SenderReads(start, schedule) + restReads == SenderReads(start, front) + fileReads;
      ReachesTransitive(S.Next,
                        SenderRun(start, SenderInbox(start, schedule) + rest,
                                  SenderReads(start, schedule) + restReads, []),
                        SenderRun(t, polls, fileReads, SenderLog(start, front)),
                        SenderRun(After(c, schedule), rest, restReads, SenderLog(start, schedule)));
    }
  }

  /** When the network brings nothing more, the sender's program ends as in some continuation of the run. */
  lemma {:induction false} SenderSettles(c: Session, schedule: seq<Label>)
    returns (more: seq<Label>)
    requires c.Valid()
    ensures After(c, schedule + more).sender.phase == S.Done
    ensures Reaches(S.Next, SenderRun(After(c, schedule), [], [], SenderLog(Initial(c), schedule)),
                    SenderRun(After(c, schedule + more), [], [], SenderLog(Initial(c), schedule + more)))
    decreases |After(c, schedule).sender.unread|,
              S.Rank(After(c, schedule).sender), S.Patience(After(c, schedule).sender)
  {
    hide S.Next, Reaches, SenderRun, Apply, SenderFrames, S.Rank, S.Patience, S.Polling;
    var t := After(c, schedule);
    var log := SenderLog(Initial(c), schedule);
    if t.sender.phase == S.Done {
      more := [];
      assert schedule + more == schedule;
      ReachesSelf(S.Next, SenderRun(t, [], [], log));
    } else {
      var event := if S.Polling(t.sender) then SenderWaits else SenderActs;
      SenderSettlingStep(t, event, log);
      assert (schedule + [event])[..|schedule|] == schedule;
      assert After(c, schedule + [event]) == Apply(t, event);
      hide After, Execute;
      var rest := SenderSettles(c, schedule + [event]);
      more := [event] + rest;
      assert schedule + more == schedule + [event] + rest;
      ReachesTransitive(S.Next, SenderRun(t, [], [], log),
                        SenderRun(Apply(t, event), [], [], log + SenderFrames(t, event)),
                        SenderRun(After(c, schedule + more), [], [], SenderLog(Initial(c), schedule + more)));
    }
  }

  lemma SenderSettlingStep(t: System, event: Label, log: seq<Frame>)
    requires t.sender.phase != S.Done
    requires event == if S.Polling(t.sender) then SenderWaits else SenderActs
    ensures var next := SenderRun(Apply(t, event), [], [], log + SenderFrames(t, event));
            Reaches(S.Next, SenderRun(t, [], [], log), next)
    ensures var s, s' := t.sender, Apply(t, event).sender;
            || |s'.unread| < |s.unread|
            || (|s'.unread| == |s.unread| && S.Rank(s') < S.Rank(s))
            || (|s'.unread| == |s.unread| && S.Rank(s') == S.Rank(s) && S.Patience(s') < S.Patience(s))
  {
    var run := SenderRun(t, [], [], log);
    ReachesSelf(S.Next, run);
    ReachesNext(S.Next, run, run);
    S.StepPrecedes(run);
    hide S.Next, Reaches, S.OnPoll, S.Act, S.EncodeAll;
    if S.Polling(t.sender) {
      SenderPolled(t, [], [], log);
    } else {
      SenderActed(t, [], [], log);
    }
  }

  /** The sender at the start, with everything that a run lets it read still to come. */
  ghost function SenderStart(c: Session, schedule: seq<Label>): S.Run
    requires c.Valid()
  {
    SenderRun(Initial(c), SenderInbox(Initial(c), schedule), SenderReads(Initial(c), schedule), [])
  }

  /**
   The sender's program, reading whatever the network of some run brings it, stops as the
   sender of a continuation of that run, having sent the same datagrams.
   */
  lemma SenderProgramInSystem(c: Session, schedule: seq<Label>)
    requires c.Valid()
    ensures exists more ::
              var t := After(c, schedule + more);
              var log := SenderLog(Initial(c), schedule + more);
              && S.Finish(SenderStart(c, schedule)) == SenderRun(t, [], [], log)
              && t.sender.phase == S.Done && forall f :: f in log <==> f in t.data
  {
    hide S.Next, Reaches, SenderInbox, SenderReads, SenderLog, After;
    var inbox, fileReads := SenderInbox(Initial(c), schedule), SenderReads(Initial(c), schedule);
    assert inbox + [] == inbox && fileReads + [] == fileReads;
    SenderProjects(c, schedule, [], []);
    var more := SenderSettles(c, schedule);
    LogIsData(c, schedule + more);
    var start := SenderStart(c, schedule);
    var end := SenderRun(After(c, schedule + more), [], [], SenderLog(Initial(c), schedule + more));
    ReachesTransitive(S.Next, start, SenderRun(After(c, schedule), [], [], SenderLog(Initial(c), schedule)), end);
    S.SenderTerminates(start);
  }

  /**
   server on the network: whatever becomes of its datagrams and of the replies, the program
   calls perror nowhere, and every datagram it sends is a frame of the transfer.
   */
  method RunServer(ghost c: Session, ghost schedule: seq<Label>, windowSize: nat, bufSize: nat, pad: byte,
                   dataFile: seq<byte>, inbox: seq<Poll>, fileReads: seq<bool>)
    returns (errors: nat, sent: seq<seq<byte>>)
    requires c.Valid() && windowSize == c.windowSize && bufSize == c.bufferSize && pad == c.eofPad && dataFile == c.file
    requires inbox == SenderInbox(Initial(c), schedule) && fileReads == SenderReads(Initial(c), schedule)
    ensures errors == 0
    ensures forall b :: b in sent ==> Decode(b).Good? && c.Genuine(Decode(b).frame)
  {
    var server := new Server.Server(windowSize, bufSize, pad, dataFile, inbox, fileReads);
    server.ProcessClient();
    errors, sent := server.window.errors, server.sent;
    SenderProgramInSystem(c, schedule);
    ghost var more :|
      var t, log := After(c, schedule + more), SenderLog(Initial(c), schedule + more);
      S.Finish(SenderStart(c, schedule)) == SenderRun(t, [], [], log) && forall f :: f in log <==> f in t.data;
    AfterInv(c, schedule + more);
    GenuineOnWire(c, After(c, schedule + more), SenderLog(Initial(c), schedule + more));
  }

  lemma GenuineOnWire(c: Session, t: System, log: seq<Frame>)
    requires c.Valid() && Inv(c, t) && forall f :: f in log ==> f in t.data
    ensures forall b :: b in S.EncodeAll(log) ==> Decode(b).Good? && c.Genuine(Decode(b).frame)
  {
    c.PayloadSizes();
    forall b | b in S.EncodeAll(log)
      ensures Decode(b).Good? && c.Genuine(Decode(b).frame)
    {
      var i :| 0 <= i < |log| && S.EncodeAll(log)[i] == b;
      assert log[i] in t.data;
      assert Sendable(c, t.sender, log[i]);
      RoundTrip(log[i]);
    }
  }
}
