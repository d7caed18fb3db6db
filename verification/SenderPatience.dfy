/** When the sender gives up: after ten silent polls in a row, and not before. */
module SenderPatience {
  import opened Pdu
  import opened Messages
  import opened Session
  import opened SenderFacts
  import opened Transfer
  import opened TransferInvariant
  import opened TransferProgress
  import opened TransferCompletion
  import opened SenderTraffic
  import S = SenderModel
  import R = ReceiverModel

  /** How many polls in a row have been silent since anything else happened to the sender. */
  function Streak(t: System, schedule: seq<Label>): nat {
    if schedule == [] then 0
    else
      var front := schedule[..|schedule| - 1];
      var u := Execute(t, front);
      match schedule[|schedule| - 1]
      case SenderWaits =>
        if Waiting(u.sender) then Streak(t, front) + 1 else if S.Polling(u.sender) then 0 else Streak(t, front)
      case SenderActs => if S.Polling(u.sender) then Streak(t, front) else 0
      case SenderHears(_) => if S.Polling(u.sender) && u.replies != [] then 0 else Streak(t, front)
      case _ => Streak(t, front)
  }

  /** The loops of window_closed and end_of_file. */
  predicate InLoop(s: S.Sender) {
    s.phase.WindowClosed? || s.phase.EofSent?
  }

  lemma WaitingCounts(c: Session, t: System)
    requires c.Valid() && Inv(c, t) && Waiting(t.sender)
    ensures InLoop(t.sender) && InLoop(Apply(t, SenderWaits).sender)
    ensures Apply(t, SenderWaits).sender.phase.count == t.sender.phase.count + 1
  {
    TimeoutResendsLowest(c, t);
  }

  /** The count of the loop is the number of silent polls in a row. */
  lemma {:induction false} CountIsStreak(c: Session, schedule: seq<Label>)
    requires c.Valid()
    ensures InLoop(After(c, schedule).sender) ==> After(c, schedule).sender.phase.count == Streak(Initial(c), schedule)
  {
    if schedule != [] {
      var front, event := schedule[..|schedule| - 1], schedule[|schedule| - 1];
      var t := After(c, front);
      CountIsStreak(c, front);
      AfterInv(c, front);
      hide Inv, S.OnPoll, S.Act, R.OnPoll, R.FlushStep, HeardEvent, ArrivalEvent;
      match event
      case SenderWaits =>
        if Waiting(t.sender) {
          WaitingCounts(c, t);
        } else {
          StepsFresh(t.sender, Silence);
        }
      case SenderActs => StepsFresh(t.sender, Silence);
      case SenderHears(fault) =>
        if t.replies != [] {
          HeardIsHearable(c, t, fault);
          StepsFresh(t.sender, HeardEvent(t, fault));
        }
      case _ =>
    }
  }

  /** In both loops the sender goes on polling exactly as long as fewer than ten polls in a row were silent. */
  lemma PollsUntilTen(c: Session, schedule: seq<Label>)
    requires c.Valid() && InLoop(After(c, schedule).sender)
    ensures var s := After(c, schedule).sender;
            var streak := Streak(Initial(c), schedule);
            && streak <= 10
            && (S.Polling(s) <==> streak < 10)
            && (streak == 10 ==> Apply(After(c, schedule), SenderActs).sender.phase == S.Done)
  {
    AfterInv(c, schedule);
    CountIsStreak(c, schedule);
  }

  /** A sender stops because read() failed, because it was told, or because ten polls in a row were silent. */
  lemma WhyTheSenderStops(c: Session, schedule: seq<Label>, event: Label)
    requires c.Valid()
    requires After(c, schedule).sender.phase != S.Done && Apply(After(c, schedule), event).sender.phase == S.Done
    ensures || event == SenderReadFails
            || HearsEofAck(After(c, schedule), event)
            || (event == SenderActs && InLoop(After(c, schedule).sender) && Streak(Initial(c), schedule) == 10)
  {
    var t := After(c, schedule);
    AfterInv(c, schedule);
    if event.SenderHears? && t.replies != [] {
      hide HeardEvent;
      HeardIsHearable(c, t, event.fault);
    } else if InLoop(t.sender) {
      PollsUntilTen(c, schedule);
    }
  }

  function SilentPolls(n: nat): seq<Label> {
    if n == 0 then [] else SilentPolls(n - 1) + [SenderWaits]
  }

  /** Where n silent polls in a row lead from t, and which frames they send. */
  ghost predicate SilentFor(c: Session, t: System, n: nat, t': System, copies: seq<Frame>)
    requires c.Valid()
  {
    && t'.receiver == t.receiver && t'.replies == t.replies
    && t'.sender.(phase := t.sender.phase) == t.sender
    && InLoop(t'.sender) && t'.sender.phase.EofSent? == t.sender.phase.EofSent?
    && t'.sender.phase.count == |copies| == (if n < 10 then n else 10)
    && (S.Polling(t'.sender) <==> n < 10)
    && LowestFrame(c, t') == LowestFrame(c, t)
    && forall f :: f in copies ==> f == LowestFrame(c, t)
  }

  lemma SilentOnceMore(c: Session, t: System, n: nat, u: System, copies: seq<Frame>)
    requires c.Valid() && Inv(c, u) && SilentFor(c, t, n, u, copies)
    ensures Inv(c, Apply(u, SenderWaits))
    ensures SilentFor(c, t, n + 1, Apply(u, SenderWaits), copies + SenderFrames(u, SenderWaits))
  {
    OneSilentPoll(c, u);
    hide Inv, Apply, SenderFrames, Waiting, S.Polling, LowestFrame;
  }

  /**
   n silent polls in a row, from where either loop starts: each of the first ten sends a copy of
   the lowest frame, and the sender is still polling exactly when there have been fewer than ten.
   */
  lemma {:induction false} SilentPollsCounted(c: Session, t: System, n: nat)
    requires c.Valid() && Inv(c, t) && (t.sender.phase == S.WindowClosed(0) || t.sender.phase == S.EofSent(0))
    ensures Inv(c, Execute(t, SilentPolls(n)))
    ensures SilentFor(c, t, n, Execute(t, SilentPolls(n)), SenderLog(t, SilentPolls(n)))
  {
    hide Inv, Apply, SenderFrames, SilentFor;
    if n == 0 {
      SilentNotAtAll(c, t);
    } else {
      var polls := SilentPolls(n - 1);
      SilentPollsCounted(c, t, n - 1);
      LogExtended(t, polls, SenderWaits);
      SilentOnceMore(c, t, n - 1, Execute(t, polls), SenderLog(t, polls));
    }
  }

  lemma SilentNotAtAll(c: Session, t: System)
    requires c.Valid() && Inv(c, t) && InLoop(t.sender) && t.sender.phase.count == 0
    ensures SilentFor(c, t, 0, t, [])
  {
    InLoopPolls(c, t);
    hide Inv;
  }

  lemma InLoopPolls(c: Session, t: System)
    requires c.Valid() && Inv(c, t) && InLoop(t.sender)
    ensures S.Polling(t.sender) <==> t.sender.phase.count < 10
  {
  }

  lemma OneSilentPoll(c: Session, u: System)
    requires c.Valid() && Inv(c, u) && InLoop(u.sender)
    ensures var u' := Apply(u, SenderWaits);
            && Inv(c, u') && u'.receiver == u.receiver && u'.replies == u.replies
            && LowestFrame(c, u') == LowestFrame(c, u)
            && InLoop(u'.sender) && u'.sender.phase.EofSent? == u.sender.phase.EofSent?
            && u'.sender.(phase := u.sender.phase) == u.sender
            && (S.Polling(u'.sender) <==> u'.sender.phase.count < 10)
            && if S.Polling(u.sender) then
                 && u'.sender.phase.count == u.sender.phase.count + 1
                 && SenderFrames(u, SenderWaits) == [LowestFrame(c, u)]
               else u' == u && SenderFrames(u, SenderWaits) == []
  {
    ApplyKeeps(c, u, SenderWaits);
    InLoopPolls(c, u);
    InLoopPolls(c, Apply(u, SenderWaits));
    if S.Polling(u.sender) {
      PollSends(c, u.sender, Silence);
      TimeoutResendsLowest(c, u);
      ResendGenuine(c, u.sender, u.sender.ring.lower, RESENT_TIMEOUT_DATA_PACKET_FLAG);
    }
  }
}
