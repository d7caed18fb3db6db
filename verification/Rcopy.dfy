/** The receiver as a program: in_order, buffering and flush over a socket and the output file. */
module Rcopy {
  import opened Bytes
  import opened Pdu
  import opened Messages
  import opened WindowArrays
  import opened Runs
  import W = Window
  import R = ReceiverModel
  import Session

  class Rcopy {
    const window: WindowArray
    const bufferSize: nat
    /** What the uninitialised payload byte of the EOF ACK holds. */
    const pad: byte
    /** Everything written to the output file. */
    var output: seq<byte>
    var sequenceNumber: nat
    /** The results of the polls to come; afterwards every poll times out. */
    var inbox: seq<Poll>
    /** Every datagram handed to sendto. */
    var sent: seq<seq<byte>>

    ghost predicate Valid()
      reads this, window, window.slots
    {
      && 0 < bufferSize <= Session.MAX_BUFFER
      && window.Valid()
      && window.Fits(PDU_HEADER_LEN + bufferSize)
    }

    ghost function View(phase: R.Phase): R.Receiver
      requires Valid()
      reads this, window, window.slots
    {
      R.Receiver(phase, window.Value(), output, sequenceNumber, pad)
    }

    ghost function Now(phase: R.Phase): R.Run
      requires Valid()
      reads this, window, window.slots
    {
      R.Run(View(phase), inbox, sent, bufferSize)
    }

    constructor (windowSize: nat, bufferSize: nat, pad: byte, inbox: seq<Poll>)
      requires windowSize > 0 && 0 < bufferSize <= Session.MAX_BUFFER
      ensures Valid() && fresh(window) && fresh(window.slots)
      ensures Now(R.InOrder) ==
              R.Run(R.Receiver(R.InOrder, W.MakeWindow(windowSize), [], R.FIRST_REPLY, pad), inbox, [], bufferSize)
    {
      window := new WindowArray.MakeWindow(windowSize);
      this.bufferSize, this.pad, this.output, this.sequenceNumber := bufferSize, pad, [], R.FIRST_REPLY;
      this.inbox, this.sent := inbox, [];
    }

    method PollCall() returns (p: Poll)
      modifies this`inbox
      ensures p == NextPoll(old(inbox)) && inbox == RestPolls(old(inbox))
    {
      p := NextPoll(inbox);
      inbox := RestPolls(inbox);
    }

    /** recvfrom into a buffer for one frame and processPDU; received is the datagram as it was kept. */
    method ReceiveFrame(bytes: seq<byte>)
      returns (result: int, seqNo: uint32, flag: byte, payload: seq<byte>, received: seq<byte>)
      requires Valid()
      ensures result == -1 || result == 0
      ensures DataOf(Datagram(bytes), bufferSize) ==
              if result == -1 then Corrupt else Arrived(Frame(seqNo, flag, payload))
      ensures result == 0 ==> PDU_HEADER_LEN <= |received| <= PDU_HEADER_LEN + bufferSize
                              && Parse(received) == Frame(seqNo, flag, payload)
    {
      var receiveBuffer := new byte[PDU_HEADER_LEN + bufferSize](_ => 0);
      received := Truncate(bytes, PDU_HEADER_LEN + bufferSize);
      Memcpy(receiveBuffer, 0, received);
      assert receiveBuffer[..|received|] == received;
      result, seqNo, flag, payload := ProcessPdu(receiveBuffer, |received|);
    }

    /** createPDU and sendto. */
    method SendReply(flag: byte, payload: seq<byte>)
      requires |payload| <= RCOPY_RESPONSES_PACKET_LENGTH
      modifies this`sent
      ensures sent == old(sent) + [Encode(Frame(ToUint32(sequenceNumber), flag, payload))]
    {
      var buf := new byte[ACK_BUFFER];
      var length := CreatePdu(buf, ToUint32(sequenceNumber), flag, payload);
      sent := sent + [buf[..length]];
    }

    method SendRr(number: nat)
      modifies this`sent, this`sequenceNumber
      ensures sent == old(sent) + R.EncodeReplies([Rr(old(sequenceNumber), number)])
      ensures sequenceNumber == old(sequenceNumber) + 1
    {
      SendReply(RR_FLAG, BigEndian(ToUint32(number)));
      assert R.EncodeReplies([Rr(sequenceNumber, number)]) == [R.EncodeReply(Rr(sequenceNumber, number))];
      sequenceNumber := sequenceNumber + 1;
    }

    method SendSrej(number: nat)
      modifies this`sent, this`sequenceNumber
      ensures sent == old(sent) + R.EncodeReplies([Srej(old(sequenceNumber), number)])
      ensures sequenceNumber == old(sequenceNumber) + 1
    {
      SendReply(SREJ_FLAG, BigEndian(ToUint32(number)));
      assert R.EncodeReplies([Srej(sequenceNumber, number)]) == [R.EncodeReply(Srej(sequenceNumber, number))];
      sequenceNumber := sequenceNumber + 1;
    }

    method SendEofAck()
      modifies this`sent
      ensures sent == old(sent) + R.EncodeReplies([EofAck(sequenceNumber, pad)])
    {
      SendReply(EOF_ACK_FLAG, [pad]);
      assert R.EncodeReplies([EofAck(sequenceNumber, pad)]) == [R.EncodeReply(EofAck(sequenceNumber, pad))];
    }

    /** An SREJ for every number from lo up to but not including hi. */
    method SendSrejs(lo: nat, hi: nat)
      modifies this`sent, this`sequenceNumber
      ensures var srejs := R.SrejRange(old(sequenceNumber), lo, hi);
              sent == old(sent) + R.EncodeReplies(srejs) && sequenceNumber == old(sequenceNumber) + |srejs|
    {
      hide R.SrejRange, R.EncodeReplies, R.EncodeReply;
      ghost var id := sequenceNumber;
      var i := lo;
      R.NoSrejs(id, lo, lo);
      while i < hi
        invariant lo <= i && (if lo <= hi then i <= hi else i == lo) && sequenceNumber == id + (i - lo)
        invariant sent == old(sent) + R.EncodeReplies(R.SrejRange(id, lo, i))
      {
        SendSrej(i);
        R.SrejRangeNext(id, lo, i);
        R.EncodeRepliesAppend(R.SrejRange(id, lo, i), [Srej(id + (i - lo), i)]);
        i := i + 1;
      }
      if lo > hi {
        R.NoSrejs(id, lo, hi);
      }
    }

    method IncrementAll()
      requires Valid()
      modifies window`lower, window`upper, window`current
      ensures Valid() && window.Value() == W.IncrementAll(old(window.Value()))
    {
      window.lower := window.lower + 1;
      window.upper := window.upper + 1;
      window.current := window.current + 1;
    }

    /** The frame with the expected number arrives in order. */
    method TakeExpected(seqNo: uint32, flag: byte, payload: seq<byte>) returns (phase: R.Phase)
      requires Valid() && seqNo == window.current
      modifies this`output, this`sent, this`sequenceNumber, window`lower, window`upper, window`current, window`highest
      ensures Valid()
      ensures var o := R.OnInOrder(old(View(R.InOrder)), Frame(seqNo, flag, payload));
              View(phase) == o.receiver && sent == old(sent) + R.EncodeReplies(o.replies)
      ensures phase == R.InOrder || phase == R.Done
    {
      ghost var before := View(R.InOrder);
      if flag == EOF_FLAG {
        SendEofAck();
        return R.Done;
      }
      if |payload| == 0 {
        assert sent == sent + R.EncodeReplies([]);
        return R.Done;
      }
      output := output + payload;
      window.highest := seqNo;
      IncrementAll();
      SendRr(window.current);
      return R.InOrder;
    }

    /** A frame beyond the expected one ends IN_ORDER: ask for what is missing and store it. */
    method StartBuffering(received: seq<byte>, seqNo: uint32)
      requires Valid() && PDU_HEADER_LEN <= |received| <= PDU_HEADER_LEN + bufferSize
      requires seqNo > window.current && Parse(received).seqNo == seqNo
      modifies this`sent, this`sequenceNumber, window`highest, window`errors, window.slots
      ensures Valid()
      ensures var o := R.OnInOrder(old(View(R.InOrder)), Parse(received));
              View(R.Buffering) == o.receiver && sent == old(sent) + R.EncodeReplies(o.replies)
    {
      SendSrejs(window.current, seqNo);
      window.highest := seqNo;
      window.AddPdu(received, seqNo);
    }

    method InOrder() returns (phase: R.Phase)
      requires Valid()
      modifies this`output, this`sent, this`sequenceNumber, this`inbox, window, window.slots
      ensures Valid()
      ensures Now(phase) == R.Next(old(Now(R.InOrder)))
      ensures phase != R.Done ==> |inbox| < |old(inbox)|
      ensures phase != R.Flush
    {
      hide DataOf;
      var p := PollCall();
      assert sent == sent + R.EncodeReplies([]);
      match p
      case Timeout => return R.Done;
      case Datagram(bytes) =>
        var result, seqNo, flag, payload, received := ReceiveFrame(bytes);
        if result == -1 {
          return R.InOrder;
        }
        if seqNo == window.current {
          phase := TakeExpected(seqNo, flag, payload);
        } else if seqNo > window.current {
          StartBuffering(received, seqNo);
          return R.Buffering;
        } else {
          SendRr(window.lower);
          return R.InOrder;
        }
    }

    /** A frame beyond the expected one while buffering. */
    method StoreFurther(received: seq<byte>, seqNo: uint32)
      requires Valid() && PDU_HEADER_LEN <= |received| <= PDU_HEADER_LEN + bufferSize
      requires seqNo > window.current && Parse(received).seqNo == seqNo
      modifies this`sent, this`sequenceNumber, window`highest, window`errors, window.slots
      ensures Valid()
      ensures var o := R.OnBuffering(old(View(R.Buffering)), Parse(received));
              View(R.Buffering) == o.receiver && sent == old(sent) + R.EncodeReplies(o.replies)
    {
      window.AddPdu(received, seqNo);
      SendSrejs(window.highest + 1, seqNo);
      if window.highest < seqNo {
        window.highest := seqNo;
      }
    }

    /** The handling of one poll of buffering. */
    method PollWhileBuffering() returns (phase: R.Phase)
      requires Valid()
      modifies this`output, this`sent, this`sequenceNumber, this`inbox, window, window.slots
      ensures Valid()
      ensures Now(phase) == R.Next(old(Now(R.Buffering)))
      ensures phase != R.Done ==> |inbox| < |old(inbox)|
      ensures phase != R.InOrder
    {
      hide DataOf;
      var p := PollCall();
      assert sent == sent + R.EncodeReplies([]);
      match p
      case Timeout => return R.Done;
      case Datagram(bytes) =>
        var result, seqNo, flag, payload, received := ReceiveFrame(bytes);
        if result == -1 {
          return R.Buffering;
        }
        if seqNo > window.current {
          StoreFurther(received, seqNo);
          return R.Buffering;
        } else if seqNo == window.current {
          if flag == EOF_FLAG {
            return R.Buffering;
          }
          output := output + payload;
          IncrementAll();
          SendRr(window.current);
          return R.Flush;
        } else {
          SendRr(window.current);
          return R.Buffering;
        }
    }

    method Buffering() returns (phase: R.Phase)
      requires Valid()
      modifies this`output, this`sent, this`sequenceNumber, this`inbox, window, window.slots
      ensures Valid() && (phase == R.Flush || phase == R.Done)
      ensures Reaches(R.Next, R.Next(old(Now(R.Buffering))), Now(phase))
    {
      ghost var first := R.Next(Now(R.Buffering));
      phase := PollWhileBuffering();
      ReachesSelf(R.Next, first);
      while phase == R.Buffering
        invariant Valid() && phase != R.InOrder
        invariant Reaches(R.Next, first, Now(phase))
        decreases |inbox|, phase == R.Buffering
      {
        ReachesNext(R.Next, first, Now(R.Buffering));
        phase := PollWhileBuffering();
      }
    }

    /** Writes, removes and acknowledges the frame at current. */
    method WriteBuffered()
      requires Valid() && W.CheckPduValid(window.Value(), window.current)
      requires W.GetPdu(window.Value(), window.current).value.flag != EOF_FLAG
      modifies this`output, this`sent, this`sequenceNumber, window, window.slots
      ensures Valid() && window.highest == old(window.highest)
      ensures Now(if window.current > window.highest then R.InOrder else R.Flush) == R.Next(old(Now(R.Flush)))
    {
      ghost var before := View(R.Flush);
      var receiveBuffer := new byte[PDU_HEADER_LEN + bufferSize];
      var length := window.GetPdu(receiveBuffer, window.current);
      var payload := receiveBuffer[PDU_HEADER_LEN..length];
      assert payload == receiveBuffer[..length][PDU_HEADER_LEN..];
      output := output + payload;
      window.RemovePdu(window.current);
      IncrementAll();
      SendRr(window.current);
    }

    /** The flag byte of the frame at current. */
    method CurrentFlag() returns (flag: byte)
      requires Valid() && W.CheckPduValid(window.Value(), window.current)
      modifies window`errors
      ensures Valid() && window.errors == old(window.errors)
      ensures flag == W.GetPdu(window.Value(), window.current).value.flag
    {
      var receiveBuffer := new byte[PDU_HEADER_LEN + bufferSize];
      var length := window.GetPdu(receiveBuffer, window.current);
      assert receiveBuffer[..length][RECV_FLAG_LOCATION] == receiveBuffer[RECV_FLAG_LOCATION];
      flag := receiveBuffer[RECV_FLAG_LOCATION];
    }

    /** One trip round the loop of flush. */
    method FlushTrip() returns (phase: R.Phase)
      requires Valid() && W.CheckPduValid(window.Value(), window.current)
      modifies this`output, this`sent, this`sequenceNumber, window, window.slots
      ensures Valid() && Now(phase) == R.Next(old(Now(R.Flush)))
      ensures phase != R.Buffering
    {
      var flag := CurrentFlag();
      if flag == EOF_FLAG {
        SendEofAck();
        return R.Done;
      }
      WriteBuffered();
      return if window.current > window.highest then R.InOrder else R.Flush;
    }

    /** flush as a whole. */
    method FlushRing() returns (phase: R.Phase)
      requires Valid()
      modifies this`output, this`sent, this`sequenceNumber, window, window.slots
      ensures Valid() && phase != R.Flush
      ensures Now(phase) == R.AfterFlush(old(Now(R.Flush)))
    {
      hide R.Next, R.AfterFlush;
      var filled := window.CheckPduValid(window.current);
      while filled
        invariant Valid() && filled == W.CheckPduValid(window.Value(), window.current)
        invariant R.AfterFlush(Now(R.Flush)) == R.AfterFlush(old(Now(R.Flush)))
        decreases R.Filled(window.Value().slots)
      {
        R.AfterFlushNext(Now(R.Flush));
        phase := FlushTrip();
        if phase != R.Flush {
          return;
        }
        filled := window.CheckPduValid(window.current);
      }
      R.AfterFlushNext(Now(R.Flush));
      R.NextInFlush(Now(R.Flush));
      return R.Buffering;
    }

    /**
     The whole receiver. It stops whatever the polls bring, in the one state in which the state
     machine stops.
     */
    method ProcessFile()
      requires Valid()
      modifies this`output, this`sent, this`sequenceNumber, this`inbox, window, window.slots
      ensures Valid() && Now(R.Done) == R.Finish(old(Now(R.InOrder)))
    {
      ghost var start := Now(R.InOrder);
      ReachesSelf(R.Next, start);
      var phase := R.InOrder;
      while phase != R.Done
        invariant Valid() && Reaches(R.Next, start, Now(phase))
        decreases |inbox|, R.Filled(window.Value().slots), R.Rank(View(phase))
      {
        ghost var head := Now(phase);
        ReachesNext(R.Next, start, head);
        match phase {
          case InOrder =>
            phase := InOrder();
            ReachesSelf(R.Next, R.Next(head));
          case Buffering => phase := Buffering();
          case Flush =>
            R.FlushAllReached(head);
            phase := FlushRing();
        }
        R.LaterPrecedes(head, Now(phase));
        ReachesTransitive(R.Next, start, R.Next(head), Now(phase));
      }
      R.ReceiverTerminates(start);
    }
  }
}
