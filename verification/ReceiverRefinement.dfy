/**
 The receiver against two simple references, over whole runs: a map that keeps the first
 frame accepted under each number, and the discipline that every missing number is asked
 for exactly once.
 */
module ReceiverRefinement {
  import opened Bytes
  import opened Options
  import opened Pdu
  import opened Messages
  import opened Window
  import opened ReceiverModel
  import opened ReceiverFacts

  // ----- The map-based receiver -----

  ghost function KeysFrom(accepted: map<nat, Frame>, n: nat): set<nat> {
    set k | k in accepted && n <= k
  }

  /** The number the simple receiver waits for: the first at or after n that is missing or that of EOF. */
  ghost function Awaited(accepted: map<nat, Frame>, n: nat): (m: nat)
    ensures n <= m && forall k :: n <= k < m ==> k in accepted && accepted[k].flag != EOF_FLAG
    ensures m in accepted ==> accepted[m].flag == EOF_FLAG
    decreases KeysFrom(accepted, n)
  {
    if n in accepted && accepted[n].flag != EOF_FLAG then
      assert n in KeysFrom(accepted, n) && n !in KeysFrom(accepted, n + 1);
      assert KeysFrom(accepted, n + 1) <= KeysFrom(accepted, n);
      Awaited(accepted, n + 1)
    else n
  }

  /** The frames accepted so far, each under its number, and whether the simple receiver has stopped. */
  datatype Simple = Simple(accepted: map<nat, Frame>, stopped: bool) {
    ghost function Current(): nat {
      Awaited(accepted, 0)
    }

    /** Frames have come that cannot be written yet. */
    ghost predicate Waiting() {
      exists k :: k in accepted && k > Current()
    }
  }

  const NOTHING_YET := Simple(map[], false)

  /**
   The simple receiver keeps the first frame to arrive under a number and stops when the run
   from 0 on ends in EOF. Two frames are not kept: an empty one under the awaited number when
   nothing else waits, which stops the receiver, and an EOF under the awaited number when
   later frames wait, which is ignored.
   */
  ghost function Keep(s: Simple, f: Frame): Simple {
    if s.stopped || f.seqNo in s.accepted then s
    else if f.seqNo == s.Current() && f.flag == EOF_FLAG && s.Waiting() then s
    else if f.seqNo == s.Current() && f.flag != EOF_FLAG && f.payload == [] && !s.Waiting() then s.(stopped := true)
    else
      var accepted := s.accepted[f.seqNo := f];
      Simple(accepted, Awaited(accepted, 0) in accepted)
  }

  ghost function KeepAll(s: Simple, frames: seq<Frame>): Simple
    decreases |frames|
  {
    if frames == [] then s else KeepAll(Keep(s, frames[0]), frames[1..])
  }

  /** What the simple receiver has written once it has written the numbers below n. */
  function Prefix(accepted: map<nat, Frame>, n: nat): seq<byte>
    requires forall k :: 0 <= k < n ==> k in accepted
  {
    if n == 0 then [] else Prefix(accepted, n - 1) + accepted[n - 1].payload
  }

  /** The ring holds what is accepted from current on, and everything below has been written. */
  ghost predicate Refines(r: Receiver, accepted: map<nat, Frame>) {
    && Shape(r)
    && (forall k :: k in accepted ==> k < r.ring.current + Size(r.ring) && accepted[k].seqNo == k)
    && (forall k :: 0 <= k < r.ring.current ==> k in accepted && accepted[k].flag != EOF_FLAG)
    && (r.phase != Done ==>
          forall k :: InRing(r, k) ==> GetPdu(r.ring, k) == if k in accepted then Some(accepted[k]) else None)
    && r.output == Prefix(accepted, r.ring.current)
  }

  lemma PrefixAgree(a: map<nat, Frame>, b: map<nat, Frame>, n: nat)
    requires forall k :: 0 <= k < n ==> k in a && k in b && a[k] == b[k]
    ensures Prefix(a, n) == Prefix(b, n)
  {
  }

  function Insert(accepted: map<nat, Frame>, f: Frame): map<nat, Frame> {
    if f.seqNo in accepted then accepted else accepted[f.seqNo := f]
  }

  lemma BufferingRefines(r: Receiver, accepted: map<nat, Frame>, f: Frame)
    requires Refines(r, accepted) && Polling(r) && Bounded(r, f) && f.seqNo > r.ring.current
    ensures Refines(OnPoll(r, Arrived(f)).receiver, Insert(accepted, f))
  {
    ShapeKeptByBuffering(r, f);
    PrefixAgree(accepted, Insert(accepted, f), r.ring.current);
    BufferedSlots(r, f);
    assert InRing(r, f.seqNo);
  }

  lemma CurrentMissing(r: Receiver)
    requires Shape(r) && Polling(r)
    ensures GetPdu(r.ring, r.ring.current) == None
  {
    assert InRing(r, r.ring.current);
  }

  /** The awaited number is the only one with everything written below it and nothing to write at it. */
  lemma AwaitedIs(accepted: map<nat, Frame>, n: nat)
    requires forall k :: 0 <= k < n ==> k in accepted && accepted[k].flag != EOF_FLAG
    requires n in accepted ==> accepted[n].flag == EOF_FLAG
    ensures Awaited(accepted, 0) == n
  {
    var m := Awaited(accepted, 0);
    assert m < n ==> m in accepted;
    assert n < m ==> n in accepted;
  }

  /** A polling receiver misses the awaited frame, and buffers just when later ones wait. */
  lemma PollingStands(r: Receiver, s: Simple)
    requires Refines(r, s.accepted) && Polling(r)
    ensures r.ring.current !in s.accepted && r.ring.current == s.Current()
    ensures r.phase == Buffering <==> s.Waiting()
  {
    CurrentMissing(r);
    assert InRing(r, r.ring.current);
    AwaitedIs(s.accepted, r.ring.current);
    if r.phase == Buffering {
      assert InRing(r, r.ring.highest);
    } else {
      assert forall k :: k in s.accepted && k > r.ring.current ==> InRing(r, k);
    }
  }

  /** A frame that moves the receiver on; an empty one does so only while it is buffering. */
  predicate Accepts(r: Receiver, f: Frame) {
    f.seqNo == r.ring.current && f.flag != EOF_FLAG && (r.phase == InOrder ==> f.payload != [])
  }

  /** The fields an acceptance changes, in either state. */
  lemma AcceptedWhole(r: Receiver, f: Frame)
    requires Polling(r) && Accepts(r, f)
    ensures var r' := OnPoll(r, Arrived(f)).receiver;
            && r'.ring.slots == r.ring.slots && r'.ring.current == r.ring.current + 1
            && r'.output == r.output + f.payload && r'.phase == if r.phase == InOrder then InOrder else Flush
  {
  }

  /** The ring after an acceptance holds what is accepted from the next number on. */
  lemma AcceptingRefinesRing(r: Receiver, accepted: map<nat, Frame>, f: Frame, r': Receiver)
    requires Refines(r, accepted) && f.seqNo == r.ring.current && GetPdu(r.ring, r.ring.current) == None
    requires r.phase != Done && r'.ring.slots == r.ring.slots && r'.ring.current == r.ring.current + 1
    ensures forall k :: InRing(r', k) ==>
              GetPdu(r'.ring, k) == if k in Insert(accepted, f) then Some(Insert(accepted, f)[k]) else None
  {
    Aliased(r.ring, r.ring.current);
    forall k | InRing(r', k)
      ensures GetPdu(r'.ring, k) == if k in Insert(accepted, f) then Some(Insert(accepted, f)[k]) else None
    {
      assert GetPdu(r'.ring, k) == GetPdu(r.ring, k);
      assert InRing(r, k) || k == r.ring.current + Size(r.ring);
    }
  }

  lemma PrefixInsert(accepted: map<nat, Frame>, f: Frame)
    requires f.seqNo !in accepted && forall k :: 0 <= k < f.seqNo ==> k in accepted
    ensures Prefix(Insert(accepted, f), f.seqNo + 1) == Prefix(accepted, f.seqNo) + f.payload
  {
    PrefixAgree(accepted, Insert(accepted, f), f.seqNo);
  }

  /** What makes an acceptance refine an insertion. */
  lemma AcceptedRefines(r: Receiver, accepted: map<nat, Frame>, f: Frame, r': Receiver)
    requires Refines(r, accepted) && f.seqNo == r.ring.current && f.seqNo !in accepted && f.flag != EOF_FLAG
    requires Shape(r') && Size(r'.ring) == Size(r.ring) && r'.ring.current == r.ring.current + 1
    requires r'.output == r.output + f.payload
    requires forall k :: InRing(r', k) ==>
               GetPdu(r'.ring, k) == if k in Insert(accepted, f) then Some(Insert(accepted, f)[k]) else None
    ensures Refines(r', Insert(accepted, f))
  {
    hide Shape, GetPdu, Prefix, InRing;
    PrefixInsert(accepted, f);
  }

  lemma AcceptingRefines(r: Receiver, accepted: map<nat, Frame>, f: Frame)
    requires Refines(r, accepted) && Polling(r) && Accepts(r, f)
    ensures Refines(OnPoll(r, Arrived(f)).receiver, Insert(accepted, f))
  {
    hide Awaited, Shape, GetPdu, OnPoll, Prefix, InRing;
    PollingStands(r, Simple(accepted, false));
    CurrentMissing(r);
    AcceptedWhole(r, f);
    ShapeKeptByAccepting(r, f);
    AcceptingRefinesRing(r, accepted, f, OnPoll(r, Arrived(f)).receiver);
    AcceptedRefines(r, accepted, f, OnPoll(r, Arrived(f)).receiver);
  }

  /** flush writes what has been accepted and stops for good only at an accepted EOF. */
  lemma FlushRefines(r: Receiver, accepted: map<nat, Frame>)
    requires Refines(r, accepted) && r.phase == Flush
    ensures Refines(FlushStep(r).receiver, accepted)
    ensures FlushStep(r).receiver.phase == Done ==>
              r.ring.current in accepted && accepted[r.ring.current].flag == EOF_FLAG
              && FlushStep(r).receiver.ring == r.ring
  {
    ShapeKeptByFlush(r);
    assert InRing(r, r.ring.current);
    if CheckPduValid(r.ring, r.ring.current) && GetPdu(r.ring, r.ring.current).value.flag != EOF_FLAG {
      FlushedSlots(r);
    }
  }

  // ----- Whole arrivals -----

  /** One arrival handled to the end, flush included; a receiver that has stopped does not read it. */
  function Receive(r: Receiver, f: Frame): Receiver {
    if !Polling(r) then r
    else
      var r' := OnPoll(r, Arrived(f)).receiver;
      if r'.phase == Flush then FlushAll(r').receiver else r'
  }

  function ReceiveAll(r: Receiver, frames: seq<Frame>): Receiver
    decreases |frames|
  {
    if frames == [] then r else ReceiveAll(Receive(r, frames[0]), frames[1..])
  }

  /** Until the simple receiver stops, every frame arrives under a number below its window's upper edge. */
  ghost predicate InBounds(size: nat, s: Simple, frames: seq<Frame>)
    decreases |frames|
  {
    frames != [] && !s.stopped ==>
      frames[0].seqNo < s.Current() + size && InBounds(size, Keep(s, frames[0]), frames[1..])
  }

  /** The receiver between two arrivals stands where the simple one does. */
  ghost predicate Matches(r: Receiver, s: Simple) {
    && Refines(r, s.accepted)
    && r.phase != Flush
    && r.ring.current == s.Current()
    && (r.phase == Done <==> s.stopped)
  }

  /** However flush ends, it ends at the awaited number, and for good just when EOF is there. */
  lemma {:induction false} FlushAllMatches(r: Receiver, accepted: map<nat, Frame>)
    requires Refines(r, accepted) && r.phase == Flush
    ensures Matches(FlushAll(r).receiver, Simple(accepted, Awaited(accepted, 0) in accepted))
    ensures Size(FlushAll(r).receiver.ring) == Size(r.ring)
    decreases Filled(r.ring.slots)
  {
    FlushRefines(r, accepted);
    FlushStepEmpties(r);
    var r' := FlushStep(r).receiver;
    if r'.phase == Flush {
      FlushAllMatches(r', accepted);
    } else if r'.phase == Done {
      AwaitedIs(accepted, r.ring.current);
    } else {
      PollingStands(r', Simple(accepted, false));
    }
  }

  lemma BufferingMatches(r: Receiver, s: Simple, f: Frame)
    requires Matches(r, s) && Polling(r) && Bounded(r, f) && f.seqNo > r.ring.current
    ensures Matches(Receive(r, f), Keep(s, f)) && Size(Receive(r, f).ring) == Size(r.ring)
  {
    var r' := OnPoll(r, Arrived(f)).receiver;
    var accepted := Insert(s.accepted, f);
    BufferedSlots(r, f);
    BufferingRefines(r, s.accepted, f);
    hide OnPoll, Refines;
    PollingStands(r, s);
    PollingStands(r', Simple(accepted, false));
  }

  lemma AcceptingMatches(r: Receiver, s: Simple, f: Frame)
    requires Matches(r, s) && Polling(r) && Accepts(r, f)
    ensures Matches(Receive(r, f), Keep(s, f)) && Size(Receive(r, f).ring) == Size(r.ring)
  {
    var r' := OnPoll(r, Arrived(f)).receiver;
    var accepted := Insert(s.accepted, f);
    AcceptingRefines(r, s.accepted, f);
    AcceptedWhole(r, f);
    PollingStands(r, s);
    hide OnPoll, Refines, FlushAll;
    if r.phase == InOrder {
      PollingStands(r', Simple(accepted, false));
    } else {
      FlushAllMatches(r', accepted);
    }
  }

  lemma EofMatches(r: Receiver, s: Simple, f: Frame)
    requires Matches(r, s) && r.phase == InOrder && f.seqNo == r.ring.current && f.flag == EOF_FLAG
    ensures Matches(r.(phase := Done), Keep(s, f))
  {
    PollingStands(r, s);
    hide GetPdu;
    var accepted := s.accepted[f.seqNo := f];
    AwaitedIs(accepted, r.ring.current);
    PrefixAgree(s.accepted, accepted, r.ring.current);
  }

  /** An EOF, or an empty frame in order, under the awaited number. */
  lemma LastMatches(r: Receiver, s: Simple, f: Frame)
    requires Matches(r, s) && Polling(r) && f.seqNo == r.ring.current && !Accepts(r, f)
    ensures Matches(Receive(r, f), Keep(s, f)) && Size(Receive(r, f).ring) == Size(r.ring)
  {
    assert Receive(r, f) == if r.phase == InOrder then r.(phase := Done) else r;
    PollingStands(r, s);
    hide GetPdu, OnPoll, Receive;
    if f.flag == EOF_FLAG && r.phase == InOrder {
      EofMatches(r, s, f);
    }
  }

  lemma ReceiveMatches(r: Receiver, s: Simple, f: Frame)
    requires Matches(r, s) && (Polling(r) ==> Bounded(r, f))
    ensures Matches(Receive(r, f), Keep(s, f)) && Size(Receive(r, f).ring) == Size(r.ring)
  {
    if Polling(r) {
      if f.seqNo > r.ring.current {
        BufferingMatches(r, s, f);
      } else if f.seqNo < r.ring.current {
        assert f.seqNo in s.accepted;
      } else if Accepts(r, f) {
        AcceptingMatches(r, s, f);
      } else {
        LastMatches(r, s, f);
      }
    }
  }

  function Start(size: nat, pad: byte): Receiver
    requires size > 0
  {
    Receiver(InOrder, MakeWindow(size), [], FIRST_REPLY, pad)
  }

  lemma StartMatches(size: nat, pad: byte)
    requires size > 0
    ensures Matches(Start(size, pad), NOTHING_YET)
  {
    AwaitedIs(map[], 0);
  }

  lemma {:induction false} ReceiveAllMatches(r: Receiver, s: Simple, frames: seq<Frame>)
    requires Matches(r, s) && InBounds(Size(r.ring), s, frames)
    ensures Matches(ReceiveAll(r, frames), KeepAll(s, frames))
    decreases |frames|
  {
    if frames != [] {
      hide Receive, Keep;
      ReceiveMatches(r, s, frames[0]);
      ReceiveAllMatches(Receive(r, frames[0]), Keep(s, frames[0]), frames[1..]);
    }
  }

  /** What the ring holds between two arrivals. */
  lemma ContentsMatch(r: Receiver, s: Simple)
    requires Matches(r, s) && Polling(r) && r.ring.current !in s.accepted
    ensures Contents(r.ring, r.ring.current) == map k | k in s.accepted && k > r.ring.current :: s.accepted[k]
    ensures r.phase == Buffering ==>
              r.ring.highest in s.accepted && forall k :: k in s.accepted ==> k <= r.ring.highest
  {
    assert forall k :: k in s.accepted && k >= r.ring.current ==> InRing(r, k);
    assert r.phase == Buffering ==> InRing(r, r.ring.highest);
  }

  /**
   For any frames in any order, with any repetitions, whatever their flags and payloads: the
   receiver stops when the simple one does, current is the number the simple one waits for,
   the output is the payloads accepted below it, and while the receiver goes on the ring holds
   exactly the accepted frames above it, with IN_ORDER just when there are none.
   */
  lemma ReceiverRefinesMap(size: nat, pad: byte, frames: seq<Frame>)
    requires size > 0 && InBounds(size, NOTHING_YET, frames)
    ensures var r := ReceiveAll(Start(size, pad), frames);
            var s := KeepAll(NOTHING_YET, frames);
            && r.ring.current == s.Current()
            && r.output == Prefix(s.accepted, s.Current())
            && (r.phase == Done <==> s.stopped)
            && (r.phase == Buffering <==> !s.stopped && s.Waiting())
            && (r.phase == InOrder <==> !s.stopped && !s.Waiting())
            && (r.phase == Buffering ==>
                  r.ring.highest in s.accepted && forall k :: k in s.accepted ==> k <= r.ring.highest)
            && (!s.stopped ==>
                  s.Current() !in s.accepted
                  && Contents(r.ring, s.Current()) == map k | k in s.accepted && k > s.Current() :: s.accepted[k])
  {
    var start := Start(size, pad);
    StartMatches(size, pad);
    hide ReceiveAll, KeepAll, InBounds;
    ReceiveAllMatches(start, NOTHING_YET, frames);
    var r := ReceiveAll(start, frames);
    var s := KeepAll(NOTHING_YET, frames);
    if Polling(r) {
      PollingStands(r, s);
      ContentsMatch(r, s);
    }
  }

  // ----- Asking for missing numbers -----

  /** How often a number has been asked for. */
  function SrejCount(log: seq<Reply>, n: int): nat {
    if log == [] then 0
    else
      var last := log[|log| - 1];
      SrejCount(log[..|log| - 1], n) + if last.Srej? && last.number == n then 1 else 0
  }

  lemma {:induction false} SrejCountAppend(a: seq<Reply>, b: seq<Reply>, n: int)
    ensures SrejCount(a + b, n) == SrejCount(a, n) + SrejCount(b, n)
  {
    if b == [] {
      assert a + b == a;
    } else {
      SrejCountAppend(a, b[..|b| - 1], n);
      assert (a + b)[..|a + b| - 1] == a + b[..|b| - 1];
    }
  }

  lemma {:induction false} SrejCountRange(id: nat, lo: nat, hi: nat, n: int)
    ensures SrejCount(SrejRange(id, lo, hi), n) == if lo <= n < hi then 1 else 0
    decreases hi
  {
    if lo < hi {
      SrejCountRange(id, lo, hi - 1, n);
      assert SrejRange(id, lo, hi)[..hi - lo - 1] == SrejRange(id, lo, hi - 1);
    }
  }

  /** Below this number everything has been received, buffered or asked for. */
  function Frontier(r: Receiver): nat {
    if r.phase == InOrder then r.ring.current else r.ring.highest
  }

  /** No number is asked for twice, none from the frontier on, and every hole below it has been. */
  ghost predicate Asked(r: Receiver, log: seq<Reply>) {
    && (forall n: int :: SrejCount(log, n) <= 1)
    && (r.phase != Done ==> forall n: int :: n >= Frontier(r) ==> SrejCount(log, n) == 0)
    && (r.phase == Buffering || r.phase == Flush ==>
          forall k :: r.ring.current <= k < r.ring.highest && GetPdu(r.ring, k) == None ==> SrejCount(log, k) == 1)
  }

  lemma AskedKeptBySrejs(r: Receiver, log: seq<Reply>, f: Frame)
    requires Shape(r) && Asked(r, log) && Polling(r) && Bounded(r, f) && f.seqNo > r.ring.current
    ensures Asked(OnPoll(r, Arrived(f)).receiver, log + OnPoll(r, Arrived(f)).replies)
  {
    var o := OnPoll(r, Arrived(f));
    var lo := if r.phase == InOrder then r.ring.current else r.ring.highest + 1;
    assert o.replies == SrejRange(r.sendSeq, lo, f.seqNo);
    forall n: int
      ensures SrejCount(log + o.replies, n) == SrejCount(log, n) + if lo <= n < f.seqNo then 1 else 0
    {
      SrejCountAppend(log, o.replies, n);
      SrejCountRange(r.sendSeq, lo, f.seqNo, n);
    }
    hide SrejCount, SrejRange;
    BufferedSlots(r, f);
    assert InRing(r, f.seqNo) && (r.phase == Buffering ==> InRing(r, r.ring.highest));
    forall k | o.receiver.ring.current <= k < o.receiver.ring.highest && GetPdu(o.receiver.ring, k) == None
      ensures SrejCount(log + o.replies, k) == 1
    {
      assert InRing(r, k);
    }
  }

  lemma SrejCountOther(log: seq<Reply>, reply: Reply, n: int)
    requires !reply.Srej?
    ensures SrejCount(log + [reply], n) == SrejCount(log, n)
  {
    assert (log + [reply])[..|log|] == log;
  }

  lemma SrejCountOthers(log: seq<Reply>, replies: seq<Reply>)
    requires |replies| <= 1 && (|replies| == 1 ==> !replies[0].Srej?)
    ensures forall n: int :: SrejCount(log + replies, n) == SrejCount(log, n)
  {
    forall n: int
      ensures SrejCount(log + replies, n) == SrejCount(log, n)
    {
      if replies == [] {
        assert log + replies == log;
      } else {
        assert replies == [replies[0]];
        SrejCountOther(log, replies[0], n);
      }
    }
  }

  lemma AskedKeptByFlush(r: Receiver, log: seq<Reply>)
    requires Shape(r) && Asked(r, log) && r.phase == Flush
    ensures Asked(FlushStep(r).receiver, log + FlushStep(r).replies)
  {
    var o := FlushStep(r);
    SrejCountOthers(log, o.replies);
    if CheckPduValid(r.ring, r.ring.current) && GetPdu(r.ring, r.ring.current).value.flag != EOF_FLAG {
      FlushedSlots(r);
      forall k | o.receiver.ring.current <= k < r.ring.highest && GetPdu(o.receiver.ring, k) == None
        ensures SrejCount(log, k) == 1
      {
        assert InRing(o.receiver, k);
      }
    }
  }

  lemma AskedKeptByAccepting(r: Receiver, log: seq<Reply>, f: Frame)
    requires Shape(r) && Asked(r, log) && Polling(r) && f.seqNo == r.ring.current && f.flag != EOF_FLAG
    ensures Asked(OnPoll(r, Arrived(f)).receiver, log + OnPoll(r, Arrived(f)).replies)
  {
    var o := OnPoll(r, Arrived(f));
    SrejCountOthers(log, o.replies);
    assert InRing(r, r.ring.current);
    AcceptedSlots(r, f.payload, Flush);
    if r.phase == Buffering {
      forall k | o.receiver.ring.current <= k < r.ring.highest && GetPdu(o.receiver.ring, k) == None
        ensures SrejCount(log, k) == 1
      {
        assert InRing(r, k);
      }
    }
  }

  lemma AskedKept(r: Receiver, log: seq<Reply>, ev: DataEvent)
    requires Shape(r) && Asked(r, log) && (ev.Arrived? ==> Bounded(r, ev.frame))
    ensures Asked(Step(r, ev).receiver, log + Step(r, ev).replies)
  {
    if r.phase == Flush {
      AskedKeptByFlush(r, log);
    } else if Polling(r) && ev.Arrived? && ev.frame.seqNo > r.ring.current {
      AskedKeptBySrejs(r, log, ev.frame);
    } else if Polling(r) && ev.Arrived? && ev.frame.seqNo == r.ring.current && ev.frame.flag != EOF_FLAG {
      AskedKeptByAccepting(r, log, ev.frame);
    } else {
      SrejCountOthers(log, Step(r, ev).replies);
    }
  }
}
