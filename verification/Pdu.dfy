/**
 The frame format: 4 bytes of big-endian sequence number, 2 bytes of checksum, 1 byte of
 flag, then the payload. Frames are written by CreatePdu and validated by ProcessPdu.
 */
module Pdu {
  import opened Bytes
  import opened Checksum

  const PDU_HEADER_LEN := 7
  const RECV_FLAG_LOCATION := 6
  const MAX_PAYLOAD := MAX_LEN - PDU_HEADER_LEN

  datatype Frame = Frame(seqNo: uint32, flag: byte, payload: seq<byte>)

  /** The frame with its checksum field still zero. */
  function Unsummed(f: Frame): (b: seq<byte>)
    ensures |b| == PDU_HEADER_LEN + |f.payload|
  {
    BigEndian(f.seqNo) + [0, 0] + [f.flag] + f.payload
  }

  /** The buffer with its checksum field set; the field is stored in host (little-endian) order. */
  function Patch(b: seq<byte>, low: byte, high: byte): (c: seq<byte>)
    requires |b| >= PDU_HEADER_LEN
    ensures |c| == |b|
  {
    b[4 := low][5 := high]
  }

  function Encode(f: Frame): (b: seq<byte>)
    ensures |b| == PDU_HEADER_LEN + |f.payload|
  {
    var z := Unsummed(f);
    Patch(z, Cksum(z) % 0x100, Cksum(z) / 0x100)
  }

  /** The header fields and payload, whatever the checksum says. */
  function Parse(b: seq<byte>): Frame
    requires |b| >= PDU_HEADER_LEN
  {
    Frame(FromBigEndian(b[..4]), b[RECV_FLAG_LOCATION], b[PDU_HEADER_LEN..])
  }

  datatype Decoded = Bad | Good(frame: Frame)

  function Decode(b: seq<byte>): Decoded {
    if |b| < PDU_HEADER_LEN || Cksum(b) != 0 then Bad else Good(Parse(b))
  }

  /** What the checksum field holds does not matter to the rest of the frame. */
  lemma ParsePatched(f: Frame, low: byte, high: byte)
    ensures Parse(Patch(Unsummed(f), low, high)) == f
  {
    BigEndianRoundTrip(f.seqNo);
    assert Patch(Unsummed(f), low, high)[..4] == BigEndian(f.seqNo);
    assert Patch(Unsummed(f), low, high)[PDU_HEADER_LEN..] == f.payload;
  }

  lemma ParseEncode(f: Frame)
    ensures Parse(Encode(f)) == f
  {
    ParsePatched(f, Cksum(Unsummed(f)) % 0x100, Cksum(Unsummed(f)) / 0x100);
  }

  /** Where the fields of a frame lie. */
  lemma Layout(f: Frame)
    ensures var b := Encode(f);
            && |b| == 7 + |f.payload|
            && b[..4] == BigEndian(f.seqNo)
            && b[6] == f.flag
            && b[7..] == f.payload
  {
    assert Encode(f)[..4] == BigEndian(f.seqNo);
    assert Encode(f)[7..] == f.payload;
  }

  /** Patching the checksum field adds exactly its value to the word sum. */
  lemma PatchSum(z: seq<byte>, low: byte, high: byte)
    requires |z| >= PDU_HEADER_LEN && z[4] == 0 && z[5] == 0
    ensures WordSum(Patch(z, low, high)) == WordSum(z) + low + 0x100 * (high as int)
  {
    WordSumUpdate(z, 4, low);
    WordSumUpdate(z[4 := low], 5, high);
  }

  lemma EncodeSum(f: Frame)
    ensures WordSum(Encode(f)) == WordSum(Unsummed(f)) + Cksum(Unsummed(f))
  {
    var c := Cksum(Unsummed(f));
    PatchSum(Unsummed(f), c % 0x100, c / 0x100);
  }

  lemma RoundTrip(f: Frame)
    requires |f.payload| <= MAX_PAYLOAD
    ensures Decode(Encode(f)) == Good(f)
  {
    var sum := WordSum(Unsummed(f));
    WordSumBound(Unsummed(f));
    FoldIsOnesComplementSum(sum);
    EncodeSum(f);
    Cancels(sum, Fold(sum));
    CksumZero(Encode(f));
    ParseEncode(f);
  }

  /** A sum plus the complement of its residue is a multiple of 65535. */
  lemma Cancels(sum: nat, fold: uint16)
    requires fold % 0xffff == sum % 0xffff
    ensures (sum + (0xffff - fold)) % 0xffff == 0
  {
    assert sum == 0xffff * (sum / 0xffff) + sum % 0xffff;
    assert fold == 0xffff * (fold / 0xffff) + fold % 0xffff;
    assert sum + (0xffff - fold) == 0xffff * (sum / 0xffff - fold / 0xffff + 1);
  }

  /** One byte complemented, as errorFlipBits does it. */
  function Complement(b: seq<byte>, i: nat): (c: seq<byte>)
    requires i < |b|
    ensures |c| == |b|
  {
    b[i := 0xff - b[i]]
  }

  /** No single complemented byte, wherever it lies, gets past the checksum. */
  lemma ComplementRejected(b: seq<byte>, i: nat)
    requires i < |b| <= MAX_LEN
    requires Decode(b).Good?
    ensures Decode(Complement(b, i)) == Bad
  {
    CksumZero(b);
    ComplementShows(b, i);
    CksumZero(Complement(b, i));
  }

  /** Which values of the checksum field make a buffer acceptable. */
  lemma AcceptedFields(z: seq<byte>, low: byte, high: byte)
    requires PDU_HEADER_LEN <= |z| <= MAX_LEN && z[4] == 0 && z[5] == 0
    ensures var c := low as int + 0x100 * (high as int);
            Cksum(Patch(z, low, high)) == 0 <==> c == Cksum(z) || (c == 0xffff && Cksum(z) == 0)
  {
    var c := low as int + 0x100 * (high as int);
    var sum := WordSum(z);
    PatchSum(z, low, high);
    CksumZero(Patch(z, low, high));
    WordSumBound(z);
    FoldIsOnesComplementSum(sum);
    Cancels(sum, Fold(sum));
    FieldValues(sum, Fold(sum), c);
  }

  lemma FieldValues(sum: nat, fold: uint16, c: uint16)
    requires (sum + (0xffff - fold)) % 0xffff == 0 && (fold == 0 <==> sum == 0)
    ensures sum + c > 0 && (sum + c) % 0xffff == 0 <==> c == 0xffff - fold || (c == 0xffff && fold == 0xffff)
  {
    SameResidue(sum, c, 0xffff - fold);
  }

  /**
   Which buffers ProcessPdu accepts: what CreatePdu writes for the parsed fields, or that
   with a checksum field of 0xffff where CreatePdu would have written 0x0000.
   */
  lemma AcceptedBuffers(b: seq<byte>)
    requires PDU_HEADER_LEN <= |b| <= MAX_LEN
    ensures var z := Unsummed(Parse(b));
            Decode(b).Good? <==> b == Encode(Parse(b)) || (Cksum(z) == 0 && b == Patch(z, 0xff, 0xff))
  {
    var z := Unsummed(Parse(b));
    FromBigEndianRoundTrip(b[..4]);
    assert b == Patch(z, b[4], b[5]);
    AcceptedFields(z, b[4], b[5]);
    PatchDetermined(z, b[4], b[5], Cksum(z));
    PatchDetermined(z, b[4], b[5], 0xffff);
  }

  /** A frame whose checksum is zero is accepted in two encodings. */
  lemma TwoEncodings(f: Frame)
    requires |f.payload| <= MAX_PAYLOAD && Cksum(Unsummed(f)) == 0
    ensures Patch(Unsummed(f), 0xff, 0xff) != Encode(f)
    ensures Decode(Patch(Unsummed(f), 0xff, 0xff)) == Decode(Encode(f)) == Good(f)
  {
    AcceptedFields(Unsummed(f), 0xff, 0xff);
    PatchDetermined(Unsummed(f), 0xff, 0xff, 0);
    ParsePatched(f, 0xff, 0xff);
    RoundTrip(f);
  }

  /** There are such frames: data packet 0xef00 with the one byte 0xff. */
  lemma ZeroChecksumFrame()
    ensures Cksum(Unsummed(Frame(0xef00, 16, [0xff]))) == 0
  {
    var z := Unsummed(Frame(0xef00, 16, [0xff]));
    assert z == [0, 0, 0xef, 0, 0, 0, 16, 0xff];
    EightBytes(z);
    hide Cksum, WordSum, BigEndian, Unsummed;
    CksumZero(z);
  }

  /** When the words add up without a carry, the checksum field is the complement of their sum. */
  lemma EncodeWithoutCarry(f: Frame, low: byte, high: byte)
    requires WordSum(Unsummed(f)) + low + 0x100 * (high as int) == 0xffff
    ensures Encode(f) == Unsummed(f)[4 := low][5 := high]
  {
    var c := low as int + 0x100 * (high as int);
    FoldValue(WordSum(Unsummed(f)));
    assert Cksum(Unsummed(f)) == c;
    hide Cksum;
    PatchDetermined(Unsummed(f), low, high, c);
  }

  lemma UnsummedExample()
    ensures Unsummed(Frame(1, 16, [0x61])) == [0, 0, 0, 1, 0, 0, 16, 0x61]
  {
  }

  /** One frame byte by byte: packet 1 with flag 16 and the letter a. */
  lemma FrameOnTheWire()
    ensures Encode(Frame(1, 16, [0x61])) == [0, 0, 0, 1, 0xef, 0x9d, 16, 0x61]
  {
    hide Unsummed, WordSum, Encode;
    UnsummedExample();
    EightBytes(Unsummed(Frame(1, 16, [0x61])));
    EncodeWithoutCarry(Frame(1, 16, [0x61]), 0xef, 0x9d);
  }

  lemma EightBytes(b: seq<byte>)
    requires |b| == 8
    ensures WordSum(b) == b[0] as int + b[2] + b[4] + b[6] + 0x100 * (b[1] as int + b[3] + b[5] + b[7])
  {
    assert b[2..][2..] == b[4..] && b[4..][2..] == b[6..] && b[6..][2..] == [];
    assert WordSum(b[6..]) == b[6] + 0x100 * b[7] + WordSum([]);
    assert WordSum(b[4..]) == b[4] + 0x100 * b[5] + WordSum(b[6..]);
    assert WordSum(b[2..]) == b[2] + 0x100 * b[3] + WordSum(b[4..]);
  }

  lemma PatchDetermined(z: seq<byte>, low: byte, high: byte, c: uint16)
    requires |z| >= PDU_HEADER_LEN
    ensures low as int + 0x100 * (high as int) == c <==> Patch(z, low, high) == Patch(z, c % 0x100, c / 0x100)
  {
    var p, q := Patch(z, low, high), Patch(z, c % 0x100, c / 0x100);
    assert p[4] == low && p[5] == high && q[4] == c % 0x100 && q[5] == c / 0x100;
  }

  /** Two 16-bit values that complete a sum to a multiple of 65535 are equal or are 0 and 65535. */
  lemma SameResidue(sum: nat, c: uint16, d: uint16)
    requires (sum + d) % 0xffff == 0
    ensures (sum + c) % 0xffff == 0 <==> c == d || (c == 0 && d == 0xffff) || (c == 0xffff && d == 0)
  {
    var m := (sum + d) / 0xffff;
    assert sum + d == 0xffff * m;
    if (sum + c) % 0xffff == 0 {
      var n := (sum + c) / 0xffff;
      assert c - d == 0xffff * (n - m);
    }
  }

  /** memcpy to offset at of a buffer. */
  method Memcpy(dst: array<byte>, at: nat, src: seq<byte>)
    requires at + |src| <= dst.Length
    modifies dst
    ensures forall i :: 0 <= i < dst.Length ==>
              dst[i] == if at <= i < at + |src| then src[i - at] else old(dst[i])
  {
    forall i | 0 <= i < |src| {
      dst[at + i] := src[i];
    }
  }

  method CreatePdu(pduBuffer: array<byte>, sequenceNumber: uint32, flag: byte, payload: seq<byte>)
    returns (pduLength: nat)
    requires |payload| <= MAX_PAYLOAD
    requires PDU_HEADER_LEN + |payload| <= pduBuffer.Length
    modifies pduBuffer
    ensures pduLength == PDU_HEADER_LEN + |payload|
    ensures pduBuffer[..pduLength] == Encode(Frame(sequenceNumber, flag, payload))
    ensures pduBuffer[pduLength..] == old(pduBuffer[PDU_HEADER_LEN + |payload|..])
  {
    ghost var f := Frame(sequenceNumber, flag, payload);
    Memcpy(pduBuffer, 0, BigEndian(sequenceNumber));
    Memcpy(pduBuffer, 4, [0, 0]);
    Memcpy(pduBuffer, 6, [flag]);
    Memcpy(pduBuffer, 7, payload);
    pduLength := PDU_HEADER_LEN + |payload|;
    assert pduBuffer[..pduLength] == Unsummed(f);
    var checksum := InCksum(pduBuffer, pduLength);
    Memcpy(pduBuffer, 4, [checksum % 0x100, checksum / 0x100]);
    assert pduBuffer[..pduLength] == Patch(Unsummed(f), checksum % 0x100, checksum / 0x100);
  }

  /** Returns -1 for a truncated or corrupted frame and 0 otherwise. */
  method ProcessPdu(aPdu: array<byte>, pduLength: nat)
    returns (result: int, sequenceNumber: uint32, flag: byte, payload: seq<byte>)
    requires pduLength <= aPdu.Length && pduLength <= MAX_LEN
    ensures result == -1 || result == 0
    ensures Decode(aPdu[..pduLength]) ==
            if result == 0 then Good(Frame(sequenceNumber, flag, payload)) else Bad
  {
    sequenceNumber, flag, payload := 0, 0, [];
    if pduLength < PDU_HEADER_LEN {
      return -1, sequenceNumber, flag, payload;
    }
    sequenceNumber := FromBigEndian(aPdu[..4]);
    flag := aPdu[RECV_FLAG_LOCATION];
    payload := aPdu[PDU_HEADER_LEN..pduLength];
    assert aPdu[..pduLength][..4] == aPdu[..4];
    assert aPdu[..pduLength][PDU_HEADER_LEN..] == payload;
    var checksum := InCksum(aPdu, pduLength);
    if checksum != 0 {
      return -1, sequenceNumber, flag, payload;
    }
    return 0, sequenceNumber, flag, payload;
  }
}
