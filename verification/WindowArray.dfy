/** The ring as the program keeps it: an array of raw frames and four counters, updated in place. */
module WindowArrays {
  import opened Bytes
  import opened Options
  import opened Pdu
  import W = Window

  /** The size of the pdu field of a packet struct. */
  const PDU_CAPACITY := 1407

  datatype Packet = Packet(sequenceNumber: nat, pduLength: nat, flag: byte, pdu: seq<byte>)

  predicate PacketOk(p: Packet) {
    PDU_HEADER_LEN <= |p.pdu| == p.pduLength <= PDU_CAPACITY && p.flag == p.pdu[RECV_FLAG_LOCATION]
  }

  function Stored(p: Option<Packet>): Option<Frame> {
    if p.Some? && |p.value.pdu| >= PDU_HEADER_LEN then Some(Parse(p.value.pdu)) else None
  }

  function StoredAll(ps: seq<Option<Packet>>): (fs: seq<Option<Frame>>)
    ensures |fs| == |ps|
  {
    seq(|ps|, i requires 0 <= i < |ps| => Stored(ps[i]))
  }

  class WindowArray {
    const slots: array<Option<Packet>>
    var lower: nat
    var current: nat
    var upper: nat
    var highest: nat
    /** How many times perror has been called. */
    var errors: nat

    ghost predicate Valid()
      reads this, slots
    {
      && slots.Length > 0
      && forall i :: 0 <= i < slots.Length && slots[i].Some? ==> PacketOk(slots[i].value)
    }

    ghost function Value(): W.Ring
      requires Valid()
      reads this, slots
    {
      W.Ring(StoredAll(slots[..]), lower, current, upper, highest)
    }

    /** Every stored frame fits a buffer of the given size. */
    ghost predicate Fits(size: nat)
      reads this, slots
    {
      forall i :: 0 <= i < slots.Length && slots[i].Some? ==> |slots[i].value.pdu| <= size
    }

    constructor MakeWindow(windowSize: nat)
      requires windowSize > 0
      ensures Valid() && fresh(slots) && errors == 0
      ensures Value() == W.MakeWindow(windowSize)
      ensures Fits(0)
    {
      slots := new Option<Packet>[windowSize](_ => None);
      lower, current, upper, highest, errors := 0, 0, windowSize, 0, 0;
      new;
      assert StoredAll(slots[..]) == seq(windowSize, _ => None);
    }

    method CheckWindowOpen() returns (open: bool)
      requires Valid()
      ensures open == W.CheckWindowOpen(Value())
    {
      open := current < upper;
    }

    method CheckPduValid(sequenceNumber: nat) returns (filled: bool)
      requires Valid()
      ensures filled == W.CheckPduValid(Value(), sequenceNumber)
    {
      filled := slots[sequenceNumber % slots.Length].Some?;
    }

    /** Copies the stored frame into the caller's buffer and returns its length, or -1. */
    method GetPdu(pdu: array<byte>, sequenceNumber: nat) returns (length: int)
      requires Valid() && Fits(pdu.Length)
      modifies pdu, this`errors
      ensures Valid() && Value() == old(Value()) && Fits(pdu.Length)
      ensures errors == old(errors) + if W.CheckPduValid(old(Value()), sequenceNumber) then 0 else 1
      ensures if W.CheckPduValid(old(Value()), sequenceNumber)
              then PDU_HEADER_LEN <= length <= pdu.Length
                   && Some(Parse(pdu[..length])) == W.GetPdu(old(Value()), sequenceNumber)
              else length == -1
    {
      var slot := slots[sequenceNumber % slots.Length];
      match slot
      case None =>
        errors := errors + 1;
        length := -1;
      case Some(p) =>
        Memcpy(pdu, 0, p.pdu);
        length := p.pduLength;
        assert pdu[..length] == p.pdu;
    }

    /** An occupied slot is left as it is. */
    method AddPdu(pdu: seq<byte>, sequenceNumber: nat)
      requires Valid() && PDU_HEADER_LEN <= |pdu| <= PDU_CAPACITY
      modifies slots, this`errors
      ensures Valid() && Value() == W.AddPdu(old(Value()), Parse(pdu), sequenceNumber)
      ensures errors == old(errors) + if W.CheckPduValid(old(Value()), sequenceNumber) then 1 else 0
      ensures forall size :: old(Fits(size)) && |pdu| <= size ==> Fits(size)
    {
      var index := sequenceNumber % slots.Length;
      if slots[index].Some? {
        errors := errors + 1;
        return;
      }
      slots[index] := Some(Packet(sequenceNumber, |pdu|, pdu[RECV_FLAG_LOCATION], pdu));
      assert StoredAll(slots[..]) == StoredAll(old(slots[..]))[index := Some(Parse(pdu))];
    }

    method RemovePdu(sequenceNumber: nat)
      requires Valid()
      modifies slots, this`errors
      ensures Valid() && Value() == W.RemovePdu(old(Value()), sequenceNumber)
      ensures errors == old(errors) + if W.CheckPduValid(old(Value()), sequenceNumber) then 0 else 1
      ensures forall size :: old(Fits(size)) ==> Fits(size)
    {
      var index := sequenceNumber % slots.Length;
      if slots[index].Some? {
        slots[index] := None;
      } else {
        errors := errors + 1;
      }
      assert StoredAll(slots[..]) == StoredAll(old(slots[..]))[index := None];
    }
  }
}
