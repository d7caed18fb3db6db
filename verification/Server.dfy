/** The sender as a program: window_open, window_closed and end_of_file over a socket and a file. */
module Server {
  import opened Bytes
  import opened Pdu
  import opened Messages
  import opened Chunking
  import opened WindowArrays
  import opened Runs
  import W = Window
  import S = SenderModel
  import Session

  datatype State = WINDOW_OPEN | WINDOW_CLOSED | END_OF_FILE | DONE

  /** Where in the state machine a function returning this state leaves off. */
  function PhaseOf(state: State): S.Phase {
    match state
    case WINDOW_OPEN => S.WindowOpen
    case WINDOW_CLOSED => S.WindowClosed(0)
    case END_OF_FILE => S.EndOfFile
    case DONE => S.Done
  }

  class Server {
    const window: WindowArray
    const bufSize: nat
    /** What the uninitialised payload byte of the EOF packet holds. */
    const pad: byte
    /** What read() has not returned yet. */
    var dataFile: seq<byte>
    /** The results of the polls to come; afterwards every poll times out. */
    var inbox: seq<Poll>
    /** Whether each read() to come succeeds; afterwards every one does. */
    var fileReads: seq<bool>
    /** Every datagram handed to sendto. */
    var sent: seq<seq<byte>>

    ghost predicate Valid()
      reads this, window, window.slots
    {
      && 0 < bufSize <= Session.MAX_BUFFER
      && window.Valid()
      && window.Fits(PDU_HEADER_LEN + bufSize)
    }

    ghost function View(phase: S.Phase): S.Sender
      requires Valid()
      reads this, window, window.slots
    {
      S.Sender(phase, window.Value(), dataFile, bufSize, pad, window.errors == 0)
    }

    ghost function Now(phase: S.Phase): S.Run
      requires Valid()
      reads this, window, window.slots
    {
      S.Run(View(phase), inbox, fileReads, sent)
    }

    constructor (windowSize: nat, bufSize: nat, pad: byte, dataFile: seq<byte>, inbox: seq<Poll>,
                 fileReads: seq<bool>)
      requires windowSize > 0 && 0 < bufSize <= Session.MAX_BUFFER
      ensures Valid() && fresh(window) && fresh(window.slots)
      ensures Now(S.WindowOpen) ==
              S.Run(S.Sender(S.WindowOpen, W.MakeWindow(windowSize), dataFile, bufSize, pad, true),
                    inbox, fileReads, [])
    {
      window := new WindowArray.MakeWindow(windowSize);
      this.bufSize, this.pad, this.dataFile := bufSize, pad, dataFile;
      this.inbox, this.fileReads, this.sent := inbox, fileReads, [];
    }

    /** pollCall followed, when something is there, by recvfrom. */
    method PollCall() returns (p: Poll)
      modifies this`inbox
      ensures p == NextPoll(old(inbox)) && inbox == RestPolls(old(inbox))
    {
      p := NextPoll(inbox);
      inbox := RestPolls(inbox);
    }

    /** recvfrom into the reply buffer and processPDU. */
    method ReceiveReply(bytes: seq<byte>) returns (result: int, flag: byte, payload: seq<byte>)
      ensures result == -1 || result == 0
      ensures AckOf(Datagram(bytes)) ==
              if result == -1 then Garbled
              else if flag == RR_FLAG then GotRr(NumberIn(payload))
              else if flag == SREJ_FLAG then GotSrej(NumberIn(payload))
              else if flag == EOF_ACK_FLAG then GotEofAck
              else GotOther
    {
      var recvBuf := new byte[ACK_BUFFER](_ => 0);
      var received := Truncate(bytes, ACK_BUFFER);
      Memcpy(recvBuf, 0, received);
      assert recvBuf[..|received|] == received;
      var seqNo;
      result, seqNo, flag, payload := ProcessPdu(recvBuf, |received|);
    }

    /** read() into the payload buffer; a negative result is a failure. */
    method Read() returns (bytesRead: int, payload: seq<byte>)
      modifies this`dataFile, this`fileReads
      ensures fileReads == S.RestReads(old(fileReads))
      ensures if S.NextReadOk(old(fileReads))
              then bytesRead == |payload| && payload == ReadChunk(old(dataFile), bufSize)
                   && dataFile == old(dataFile)[|payload|..]
              else bytesRead < 0 && dataFile == old(dataFile)
    {
      var ok := S.NextReadOk(fileReads);
      fileReads := S.RestReads(fileReads);
      if !ok {
        return -1, [];
      }
      payload := ReadChunk(dataFile, bufSize);
      dataFile := dataFile[|payload|..];
      bytesRead := |payload|;
    }

    method CleaningUpWithRr(rr: int)
      requires Valid()
      modifies window, window.slots
      ensures Valid()
      ensures window.Value() == S.Slide(old(window.Value()), rr)
      ensures window.errors == 0 <==> old(window.errors) == 0 && S.SlideClean(old(window.Value()), rr)
    {
      while window.lower < rr
        invariant Valid()
        invariant S.Slide(window.Value(), rr) == S.Slide(old(window.Value()), rr)
        invariant window.errors == 0 && S.SlideClean(window.Value(), rr)
                  <==> old(window.errors) == 0 && S.SlideClean(old(window.Value()), rr)
      {
        ghost var head := window.Value();
        window.RemovePdu(window.lower);
        window.lower := window.lower + 1;
        window.upper := window.upper + 1;
        assert window.Value() == W.IncrementEdges(W.RemovePdu(head, head.lower));
      }
    }

    /**
     Rebuilds the stored frame under the number asked for. Where get_PDU returns -1 the
     program goes on with an uninitialised buffer; nothing is sent here.
     */
    method ResendDataPacket(sequenceNumber: int, flag: byte)
      requires Valid()
      modifies this`sent, window`errors
      ensures Valid()
      ensures forall phase ::
                var o := S.Resend(old(View(phase)), sequenceNumber, flag);
                View(phase) == o.sender && sent == old(sent) + S.EncodeAll(o.frames)
    {
      ghost var before := View(S.WindowOpen);
      ghost var o := S.Resend(before, sequenceNumber, flag);
      if sequenceNumber < 0 {
        window.errors := window.errors + 1;
        assert sent == sent + S.EncodeAll([]);
        return;
      }
      var resendingBuffer := new byte[PDU_HEADER_LEN + bufSize];
      var pduLength := window.GetPdu(resendingBuffer, sequenceNumber);
      if pduLength == -1 {
        assert sent == sent + S.EncodeAll([]);
        return;
      }
      ghost var stored := Parse(resendingBuffer[..pduLength]);
      var receivedFlag := resendingBuffer[RECV_FLAG_LOCATION];
      if receivedFlag == DATA_PACKET_FLAG {
        receivedFlag := flag;
      }
      var payload := resendingBuffer[PDU_HEADER_LEN..pduLength];
      assert payload == resendingBuffer[..pduLength][PDU_HEADER_LEN..] == stored.payload;
      var buf := new byte[PDU_HEADER_LEN + bufSize];
      var sendingLength := CreatePdu(buf, ToUint32(sequenceNumber), receivedFlag, payload);
      sent := sent + [buf[..sendingLength]];
      assert S.EncodeAll(o.frames) == [Encode(o.frames[0])];
    }

    /** Sends and stores a frame under the current number. */
    method SendAndStore(flag: byte, payload: seq<byte>)
      requires Valid() && |payload| <= bufSize
      modifies this`sent, window`errors, window.slots
      ensures Valid()
      ensures forall phase ::
                var o := S.SendAndStore(old(View(phase)), flag, payload);
                View(phase) == o.sender && sent == old(sent) + S.EncodeAll(o.frames)
    {
      ghost var f := Frame(ToUint32(window.current), flag, payload);
      var buf := new byte[PDU_HEADER_LEN + |payload|];
      var pduLength := CreatePdu(buf, ToUint32(window.current), flag, payload);
      ParseEncode(f);
      sent := sent + [buf[..pduLength]];
      window.AddPdu(buf[..pduLength], window.current);
      assert S.EncodeAll([f]) == [Encode(f)];
    }

    method SendDataPacket(payload: seq<byte>)
      requires Valid() && |payload| <= bufSize
      modifies this`sent, window`errors, window`current, window.slots
      ensures Valid()
      ensures forall phase ::
                var o := S.SendAndStore(old(View(phase)), DATA_PACKET_FLAG, payload);
                && View(phase) == o.sender.(ring := o.sender.ring.(current := old(window.current) + 1))
                && sent == old(sent) + S.EncodeAll(o.frames)
    {
      SendAndStore(DATA_PACKET_FLAG, payload);
      window.current := window.current + 1;
    }

    method SendEof()
      requires Valid()
      modifies this`sent, window`errors, window.slots
      ensures Valid() && Now(S.EofSent(0)) == S.Next(old(Now(S.EndOfFile)))
    {
      SendAndStore(EOF_FLAG, [pad]);
    }

    /** What one reply makes window_open, window_closed and end_of_file do alike. */
    method Obey(flag: byte, payload: seq<byte>)
      requires Valid() && (flag == RR_FLAG || flag == SREJ_FLAG)
      modifies this`sent, window, window.slots
      ensures Valid()
      ensures forall phase ::
                var o := if flag == RR_FLAG then S.Quietly(S.OnRr(old(View(phase)), NumberIn(payload)), phase)
                         else S.Resend(old(View(phase)), NumberIn(payload), RESENT_SREJ_DATA_PACKET_FLAG);
                View(phase) == o.sender && sent == old(sent) + S.EncodeAll(o.frames)
    {
      if flag == RR_FLAG {
        CleaningUpWithRr(NumberIn(payload));
        assert sent == sent + S.EncodeAll([]);
      } else {
        ResendDataPacket(NumberIn(payload), RESENT_SREJ_DATA_PACKET_FLAG);
      }
    }

    /** Reads the next chunk and sends it, if there is one; the loop goes on while next is AwaitPoll. */
    method SendNextChunk() returns (next: S.Phase)
      requires Valid() && W.CheckWindowOpen(window.Value())
      modifies this`sent, this`dataFile, this`fileReads, window`errors, window`current, window.slots
      ensures Valid()
      ensures Now(next) == S.Next(old(Now(S.WindowOpen)))
      ensures next in {S.AwaitPoll, S.EndOfFile, S.Done}
      ensures next == S.AwaitPoll ==> |dataFile| < |old(dataFile)|
    {
      var bytesRead, payload := Read();
      if bytesRead < 0 {
        assert sent == sent + S.EncodeAll([]);
        return S.Done;
      } else if bytesRead == 0 {
        assert sent == sent + S.EncodeAll([]);
        return S.EndOfFile;
      }
      SendDataPacket(payload);
      return S.AwaitPoll;
    }

    /** The non-blocking poll after a chunk; goOn is false when the loop is left. */
    method PollAfterChunk() returns (goOn: bool, state: State)
      requires Valid()
      modifies this`sent, this`inbox, window, window.slots
      ensures Valid() && (goOn ==> state == WINDOW_OPEN)
      ensures Now(PhaseOf(state)) == S.Next(old(Now(S.AwaitPoll)))
    {
      hide AckOf;
      ghost var before := View(S.AwaitPoll);
      goOn, state := true, WINDOW_OPEN;
      var p := PollCall();
      assert sent == sent + S.EncodeAll([]);
      if p.Datagram? {
        var result, flag, payload := ReceiveReply(p.bytes);
        if result == -1 {
          goOn := false;
        } else if flag == RR_FLAG || flag == SREJ_FLAG {
          Obey(flag, payload);
        } else {
          goOn, state := false, DONE;
        }
      }
    }

    method WindowOpen() returns (state: State)
      requires Valid()
      modifies this`sent, this`inbox, this`dataFile, this`fileReads, window, window.slots
      ensures Valid()
      ensures Reaches(S.Next, S.Next(old(Now(S.WindowOpen))), Now(PhaseOf(state)))
    {
      hide S.Next;
      ghost var first := S.Next(Now(S.WindowOpen));
      ReachesSelf(S.Next, first);
      var open := window.CheckWindowOpen();
      while open
        invariant Valid() && open == W.CheckWindowOpen(window.Value())
        invariant Reaches(S.Next, first, S.Next(Now(S.WindowOpen)))
        decreases |dataFile|
      {
        var next := SendNextChunk();
        if next != S.AwaitPoll {
          return if next == S.Done then DONE else END_OF_FILE;
        }
        ReachesNext(S.Next, first, Now(S.AwaitPoll));
        var goOn;
        goOn, state := PollAfterChunk();
        if !goOn {
          return;
        }
        ReachesNext(S.Next, first, Now(S.WindowOpen));
        open := window.CheckWindowOpen();
      }
      S.LeavesOpen(Now(S.WindowOpen));
      return WINDOW_CLOSED;
    }

    /** The handling of one poll of window_closed; the loop goes on while next is WindowClosed. */
    method PollWhileClosed(count: nat) returns (next: S.Phase)
      requires Valid() && !W.CheckWindowOpen(window.Value()) && count < S.MAX_SILENT
      modifies this`sent, this`inbox, window, window.slots
      ensures Valid()
      ensures Now(next) == S.Next(old(Now(S.WindowClosed(count))))
      ensures next in {S.WindowOpen, S.WindowClosed(0), S.WindowClosed(count + 1), S.Done}
      ensures next == S.WindowClosed(count + 1) || |inbox| < |old(inbox)|
      ensures |inbox| <= |old(inbox)|
    {
      hide AckOf;
      ghost var before := View(S.WindowClosed(count));
      var p := PollCall();
      assert sent == sent + S.EncodeAll([]);
      match p
      case Timeout =>
        ResendDataPacket(window.lower, RESENT_TIMEOUT_DATA_PACKET_FLAG);
        return S.WindowClosed(count + 1);
      case Datagram(bytes) =>
        var result, flag, payload := ReceiveReply(bytes);
        if result == -1 {
          return S.WindowClosed(0);
        }
        if flag == RR_FLAG || flag == SREJ_FLAG {
          Obey(flag, payload);
          return if flag == RR_FLAG then S.WindowOpen else S.WindowClosed(0);
        }
        return S.Done;
    }

    method WindowClosed() returns (state: State)
      requires Valid()
      modifies this`sent, this`inbox, window, window.slots
      ensures Valid()
      ensures Reaches(S.Next, S.Next(old(Now(S.WindowClosed(0)))), Now(PhaseOf(state)))
    {
      hide S.Next;
      ghost var first := S.Next(Now(S.WindowClosed(0)));
      ReachesSelf(S.Next, first);
      var count: nat := 0;
      var open := window.CheckWindowOpen();
      while !open && count < S.MAX_SILENT
        invariant Valid() && open == W.CheckWindowOpen(window.Value()) && count <= S.MAX_SILENT
        invariant Reaches(S.Next, first, S.Next(Now(S.WindowClosed(count))))
        decreases |inbox|, S.MAX_SILENT - count
      {
        var next := PollWhileClosed(count);
        if next == S.WindowOpen {
          return WINDOW_OPEN;
        } else if next == S.Done {
          return DONE;
        }
        ReachesNext(S.Next, first, Now(next));
        count := next.count;
        open := window.CheckWindowOpen();
      }
      S.LeavesClosed(Now(S.WindowClosed(count)), count);
      return if count == S.MAX_SILENT then DONE else WINDOW_OPEN;
    }

    /** The handling of one poll of end_of_file. */
    method PollAfterEof(count: nat) returns (next: S.Phase)
      requires Valid() && count < S.MAX_SILENT
      modifies this`sent, this`inbox, window, window.slots
      ensures Valid()
      ensures Now(next) == S.Next(old(Now(S.EofSent(count))))
      ensures next in {S.EofSent(0), S.EofSent(count + 1), S.Done}
      ensures next == S.EofSent(count + 1) || |inbox| < |old(inbox)|
      ensures |inbox| <= |old(inbox)|
    {
      hide AckOf;
      ghost var before := View(S.EofSent(count));
      var p := PollCall();
      assert sent == sent + S.EncodeAll([]);
      match p
      case Timeout =>
        ResendDataPacket(window.lower, RESENT_TIMEOUT_DATA_PACKET_FLAG);
        return S.EofSent(count + 1);
      case Datagram(bytes) =>
        var result, flag, payload := ReceiveReply(bytes);
        if result == -1 {
          return S.EofSent(0);
        }
        if flag == RR_FLAG || flag == SREJ_FLAG {
          Obey(flag, payload);
          return S.EofSent(0);
        }
        return S.Done;
    }

    method EndOfFile() returns (state: State)
      requires Valid()
      modifies this`sent, this`inbox, window, window.slots
      ensures Valid() && state == DONE
      ensures Reaches(S.Next, S.Next(old(Now(S.EndOfFile))), Now(PhaseOf(state)))
    {
      hide AckOf, S.OnPoll, S.SendAndStore;
      ghost var first := S.Next(Now(S.EndOfFile));
      SendEof();
      ReachesSelf(S.Next, first);
      var count: nat := 0;
      while count < S.MAX_SILENT
        invariant Valid() && count <= S.MAX_SILENT
        invariant Reaches(S.Next, first, Now(S.EofSent(count)))
        decreases |inbox|, S.MAX_SILENT - count
      {
        ReachesNext(S.Next, first, Now(S.EofSent(count)));
        var next := PollAfterEof(count);
        if next == S.Done {
          return DONE;
        }
        count := next.count;
      }
      assert sent == sent + S.EncodeAll([]);
      ReachesNext(S.Next, first, Now(S.EofSent(count)));
      return DONE;
    }

    /**
     The whole sender. It stops whatever the polls bring, in the one state in which the state
     machine stops.
     */
    method ProcessClient()
      requires Valid()
      modifies this`sent, this`inbox, this`dataFile, this`fileReads, window, window.slots
      ensures Valid() && Now(S.Done) == S.Finish(old(Now(S.WindowOpen)))
    {
      ghost var start := Now(S.WindowOpen);
      ReachesSelf(S.Next, start);
      var state := WINDOW_OPEN;
      while state != DONE
        invariant Valid() && Reaches(S.Next, start, Now(PhaseOf(state)))
        decreases |inbox|, |dataFile|, S.Rank(View(PhaseOf(state))), S.Patience(View(PhaseOf(state)))
      {
        ghost var head := Now(PhaseOf(state));
        match state {
          case WINDOW_OPEN => state := WindowOpen();
          case WINDOW_CLOSED => state := WindowClosed();
          case END_OF_FILE => state := EndOfFile();
        }
        S.LaterPrecedes(head, Now(PhaseOf(state)));
        ReachesNext(S.Next, start, head);
        ReachesTransitive(S.Next, start, S.Next(head), Now(PhaseOf(state)));
      }
      S.SenderTerminates(start);
    }
  }
}
