/** What both endpoints agree on before the transfer starts, and the frames it consists of. */
module Session {
  import opened Bytes
  import opened Pdu
  import opened Messages
  import opened Arithmetic
  import opened Chunking

  const MAX_BUFFER := 1400

  /** The pads are the uninitialised payload bytes of the EOF and EOF ACK packets. */
  datatype Session = Session(file: seq<byte>, windowSize: nat, bufferSize: nat, eofPad: byte, ackPad: byte) {
    /** Sequence numbers and window edges must fit int32_t. */
    ghost predicate Valid() {
      && windowSize > 0
      && 0 < bufferSize <= MAX_BUFFER
      && |Chunks(file, bufferSize)| + windowSize < 0x8000_0000
    }

    ghost function Payloads(): seq<seq<byte>>
      requires Valid()
    {
      Chunks(file, bufferSize)
    }

    /** The number of data packets, which is also the EOF packet's number. */
    ghost function Eof(): nat
      requires Valid()
    {
      |Payloads()|
    }

    ghost function DataFrame(k: nat): Frame
      requires Valid() && k < Eof()
    {
      Frame(ToUint32(k), DATA_PACKET_FLAG, Payloads()[k])
    }

    ghost function EofFrame(): Frame
      requires Valid()
    {
      Frame(ToUint32(Eof()), EOF_FLAG, [eofPad])
    }

    /** A frame of this transfer: number and payload belong together and only EOF has the EOF flag. */
    ghost predicate Genuine(f: Frame)
      requires Valid()
    {
      if f.seqNo < Eof() then
        && f.payload == Payloads()[f.seqNo]
        && f.flag in {DATA_PACKET_FLAG, RESENT_SREJ_DATA_PACKET_FLAG, RESENT_TIMEOUT_DATA_PACKET_FLAG}
      else f == EofFrame()
    }

    /** The EOF packet's number is the number of buffers the file takes. */
    lemma EofIsCount()
      requires Valid()
      ensures Eof() == (|file| + bufferSize - 1) / bufferSize
    {
      ChunksAreStretches(file, bufferSize);
    }

    /** Packet k carries the k-th stretch of bufferSize bytes, and EOF one byte. */
    lemma GenuineIsStretch(f: Frame)
      requires Valid() && Genuine(f)
      ensures f.seqNo < Eof() ==>
                f.seqNo * bufferSize < |file|
                && f.payload == file[f.seqNo * bufferSize..Min((f.seqNo + 1) * bufferSize, |file|)]
      ensures f.seqNo >= Eof() ==> f.seqNo == Eof() && f.flag == 10 && |f.payload| == 1
      ensures f.flag == 10 ==> f.seqNo == Eof()
    {
      hide Chunks, Stretch;
      ChunksAreStretches(file, bufferSize);
      OneMoreTime(f.seqNo, bufferSize);
      StretchIs(file, f.seqNo * bufferSize, bufferSize);
    }

    lemma PayloadSizes()
      requires Valid()
      ensures forall f :: Genuine(f) ==> 0 < |f.payload| <= bufferSize
    {
      ChunkSizes(file, bufferSize);
    }
  }
}
