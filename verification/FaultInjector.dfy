/**
 What may happen to a frame between sendto and the wire: the injector runs its standing
 events and then, with the configured probability, one randomly chosen fault event.
 Random draws come from an arbitrary stream of reals in [0, 1).
 */
module FaultInjector {
  import opened Bytes
  import opened Checksum
  import opened Options
  import opened Pdu

  /** ErrorDrop drops every message when dropAll is set and the listed message numbers otherwise. */
  datatype MsgEvent =
    | InfoSeqNo
    | ErrorDrop(dropAll: bool, dropList: set<nat>)
    | ErrorFlipBits

  predicate Dropping(e: MsgEvent, number: nat) {
    e.ErrorDrop? && (e.dropAll || number in e.dropList)
  }

  /** A datagram on the wire compared with the one handed to sendto. */
  ghost predicate AtMostOneFault(sent: seq<byte>, wire: Option<seq<byte>>) {
    wire.Some? ==> wire.value == sent || exists i :: 0 <= i < |sent| && wire.value == Complement(sent, i)
  }

  /** A fault is a loss: what the receiver parses is the frame that was sent, or nothing. */
  lemma FaultIsLoss(f: Frame, wire: Option<seq<byte>>)
    requires |f.payload| <= MAX_PAYLOAD
    requires AtMostOneFault(Encode(f), wire)
    ensures wire.Some? ==> Decode(wire.value) == Good(f) || Decode(wire.value) == Bad
    ensures wire.Some? ==> (Decode(wire.value) == Good(f) <==> wire.value == Encode(f))
  {
    RoundTrip(f);
    if wire.Some? && wire.value != Encode(f) {
      var i :| 0 <= i < |Encode(f)| && wire.value == Complement(Encode(f), i);
      ComplementRejected(Encode(f), i);
    }
  }

  /**
   Why one fault per frame matters: a second complemented byte can hide the first. It does
   so exactly when two bytes of equal weight are each other's complement, or when two bytes
   of different weight are both 0x00 or both 0xff.
   */
  lemma SecondComplementHides(b: seq<byte>, i: nat, j: nat)
    requires i < |b| && j < |b| && i != j && |b| <= MAX_LEN
    requires Decode(b).Good?
    ensures Decode(Complement(Complement(b, i), j)).Good? <==>
            && (exists k :: 0 <= k < |b| && Complement(Complement(b, i), j)[k] != 0)
            && if i % 2 == j % 2 then b[i] == 0xff - b[j] else b[i] == b[j] && (b[i] == 0 || b[i] == 0xff)
  {
    var d := Complement(Complement(b, i), j);
    SumAfterTwo(b, i, j);
    CksumZero(b);
    CksumZero(d);
    WordSumZero(d);
    Shifted(WordSum(b), PairShift(b[i], i, b[j], j));
    PairShiftVanishes(b[i], i, b[j], j);
  }

  /** With its number's second and fourth byte complemented, packet 255 is accepted as packet 0xff0000. */
  lemma TwoFlipsRenumber(flag: byte, payload: seq<byte>)
    requires |payload| <= MAX_PAYLOAD && flag != 0
    ensures var b := Encode(Frame(0xff, flag, payload));
            Decode(Complement(Complement(b, 1), 3)) == Good(Frame(0xff_0000, flag, payload))
  {
    var f := Frame(0xff, flag, payload);
    var b := Encode(f);
    var d := Complement(Complement(b, 1), 3);
    RoundTrip(f);
    assert BigEndian(0xff) == [0, 0, 0, 0xff] && BigEndian(0xff_0000) == [0, 0xff, 0, 0];
    assert b[..4] == BigEndian(0xff) && d[..4] == BigEndian(0xff_0000);
    SecondComplementHides(b, 1, 3);
    assert d[6] == flag;
    BigEndianRoundTrip(0xff_0000);
    assert d[PDU_HEADER_LEN..] == payload;
  }

  /** How far complementing bytes a at i and b at j moves the word sum. */
  function PairShift(a: byte, i: nat, b: byte, j: nat): int {
    ComplementShift(a, i) + ComplementShift(b, j)
  }

  lemma SumAfterTwo(b: seq<byte>, i: nat, j: nat)
    requires i < |b| && j < |b| && i != j
    ensures WordSum(Complement(Complement(b, i), j)) == WordSum(b) + PairShift(b[i], i, b[j], j)
  {
    WordSumComplement(b, i);
    WordSumComplement(Complement(b, i), j);
  }

  lemma PairShiftVanishes(a: byte, i: nat, b: byte, j: nat)
    ensures PairShift(a, i, b, j) % 0xffff == 0 <==>
            if i % 2 == j % 2 then a == 0xff - b else a == b && (a == 0 || a == 0xff)
  {
    var x, y, t := 0xff - 2 * (a as int), 0xff - 2 * (b as int), 0xff - (a as int) - (b as int);
    if i % 2 == j % 2 {
      assert PairShift(a, i, b, j) == Weight(i) * 2 * t;
      NoCancel(t);
    } else if i % 2 == 0 {
      OddPair(x, y);
    } else {
      OddPair(y, x);
    }
  }

  /** Two odd shifts of different weight cancel only at the ends of their ranges. */
  lemma OddPair(x: int, y: int)
    requires -0xff <= x <= 0xff && -0xff <= y <= 0xff && x % 2 == 1 && y % 2 == 1
    ensures (x + 0x100 * y) % 0xffff == 0 <==> x == y && (x == 0xff || x == -0xff)
  {
    if (x + 0x100 * y) % 0xffff == 0 {
      var q := (x + 0x100 * y) / 0xffff;
      assert x + 0x100 * y == 0xffff * q;
      assert q == -1 || q == 0 || q == 1;
    }
  }

  lemma Shifted(sum: nat, shift: int)
    requires sum % 0xffff == 0
    ensures (sum + shift) % 0xffff == 0 <==> shift % 0xffff == 0
  {
    assert sum == 0xffff * (sum / 0xffff);
    assert shift == 0xffff * (shift / 0xffff) + shift % 0xffff;
    assert sum + shift == 0xffff * (sum / 0xffff + shift / 0xffff) + shift % 0xffff;
  }

  /** Neither 2 nor 512 shares a factor with 65535. */
  lemma NoCancel(t: int)
    requires -0xff <= t <= 0xff
    ensures (2 * t) % 0xffff == 0 <==> t == 0
    ensures (0x100 * 2 * t) % 0xffff == 0 <==> t == 0
  {
    if (0x100 * 2 * t) % 0xffff == 0 {
      var q := (0x100 * 2 * t) / 0xffff;
      assert 0x200 * t == 0xffff * q && -2 <= q <= 2;
    }
  }

  /** No byte is its own complement. */
  lemma ComplementsDiffer(b: seq<byte>)
    ensures forall i :: 0 <= i < |b| ==> Complement(b, i) != b
  {
    assert forall i :: 0 <= i < |b| ==> Complement(b, i)[i] != b[i];
  }

  /** The index that a draw of r in [0, 1) picks out of n: the integer part of n * r. */
  predicate Picks(n: nat, r: real, i: int) {
    0 <= i < n && i as real <= n as real * r < i as real + 1.0
  }

  /** (int)(n * drand48()). */
  function ScaledDraw(n: nat, r: real): (i: nat)
    requires n > 0 && 0.0 <= r < 1.0
    ensures Picks(n, r, i)
  {
    var x := n as real;
    assert 0.0 <= x * r < x * 1.0;
    (x * r).Floor
  }

  /** One byte has been complemented, the one that a draw picks. */
  ghost predicate FlippedBy(before: seq<byte>, r: real, after: seq<byte>) {
    exists i :: Picks(|before|, r, i) && after == Complement(before, i)
  }

  /** The random events in the order in which SettingsManager registers them by default. */
  const DEFAULT_CHANCE := [ErrorDrop(true, {}), ErrorFlipBits]

  class PacketManager {
    var errorRate: real
    var msgNo: nat
    var standing: seq<MsgEvent>
    var chance: seq<MsgEvent>
    const random: nat -> real
    var drawn: nat

    /** Bit flips are only ever registered as random events. */
    ghost predicate Valid()
      reads this`standing
    {
      && ErrorFlipBits !in standing
      && forall n :: 0.0 <= random(n) < 1.0
    }

    constructor (rate: real, random: nat -> real)
      requires forall n :: 0.0 <= random(n) < 1.0
      ensures Valid() && msgNo == 0 && errorRate == rate
      ensures standing == [InfoSeqNo] && chance == DEFAULT_CHANCE
    {
      errorRate, msgNo, drawn := rate, 0, 0;
      standing, chance := [InfoSeqNo], DEFAULT_CHANCE;
      this.random := random;
    }

    method Drand48() returns (r: real)
      requires Valid()
      modifies this`drawn
      ensures Valid() && 0.0 <= r < 1.0
      ensures r == random(old(drawn)) && drawn == old(drawn) + 1
    {
      r := random(drawn);
      drawn := drawn + 1;
    }

    /** One event: 0 leaves the buffer alone, 1 has changed it, 2 drops the message. */
    method Run(event: MsgEvent, buf: array<byte>, number: nat) returns (result: int)
      requires Valid() && buf.Length > 0
      modifies buf, this`drawn
      ensures Valid()
      ensures result == match event
                        case InfoSeqNo => 0
                        case ErrorDrop(all, list) => if all || number in list then 2 else 0
                        case ErrorFlipBits => 1
      ensures event.ErrorFlipBits? ==> FlippedBy(old(buf[..]), random(old(drawn)), buf[..]) && drawn == old(drawn) + 1
      ensures !event.ErrorFlipBits? ==> buf[..] == old(buf[..]) && drawn == old(drawn)
    {
      match event
      case InfoSeqNo => result := 0;
      case ErrorDrop(all, list) => result := if all || number in list then 2 else 0;
      case ErrorFlipBits =>
        var r := Drand48();
        var byteToFlip := ScaledDraw(buf.Length, r);
        buf[byteToFlip] := 0xff - buf[byteToFlip];
        assert Picks(|old(buf[..])|, r, byteToFlip);
        assert buf[..] == Complement(old(buf[..]), byteToFlip);
        result := 1;
    }

    method RunMsgEvents(events: seq<MsgEvent>, buf: array<byte>, number: nat) returns (result: int)
      requires Valid() && buf.Length > 0 && ErrorFlipBits !in events
      modifies buf, this`drawn
      ensures Valid() && buf[..] == old(buf[..]) && drawn == old(drawn)
      ensures result == if exists e :: e in events && Dropping(e, number) then 2 else 0
    {
      for i := 0 to |events|
        invariant Valid() && buf[..] == old(buf[..]) && drawn == old(drawn)
        invariant forall e :: e in events[..i] ==> !Dropping(e, number)
      {
        var r := Run(events[i], buf, number);
        if r == 2 {
          assert events[i] in events;
          return 2;
        }
      }
      assert events[..|events|] == events;
      return 0;
    }

    /** The random event of the next message, if the draws bring one. */
    ghost function Chosen(): (event: Option<MsgEvent>)
      requires Valid()
      reads this`standing, this`chance, this`errorRate, this`drawn
      ensures chance == [] || random(drawn) > errorRate <==> event == None
      ensures event.Some? ==> exists i :: Picks(|chance|, random(drawn + 1), i) && event.value == chance[i]
    {
      if |chance| > 0 && random(drawn) <= errorRate then
        Some(chance[ScaledDraw(|chance|, random(drawn + 1))])
      else None
    }

    /** Whether the next message is dropped, by a standing event or by the random one. */
    ghost predicate Drops(number: nat)
      requires Valid()
      reads this`standing, this`chance, this`errorRate, this`drawn
    {
      || (exists e :: e in standing && Dropping(e, number))
      || (Chosen().Some? && Dropping(Chosen().value, number))
    }

    /** 0 and 1: send what the buffer now holds; 2: send nothing. */
    method ProcessEvents(buf: array<byte>, number: nat) returns (result: int)
      requires Valid() && buf.Length > 0
      modifies buf, this`drawn
      ensures Valid()
      ensures result == if old(Drops(number)) then 2 else if old(Chosen()) == Some(ErrorFlipBits) then 1 else 0
      ensures if old(Chosen()) == Some(ErrorFlipBits)
              then FlippedBy(old(buf[..]), random(old(drawn) + 2), buf[..])
              else buf[..] == old(buf[..])
      ensures old(standing) == [InfoSeqNo] && old(chance) == DEFAULT_CHANCE ==>
                if random(old(drawn)) > old(errorRate) then result == 0 && buf[..] == old(buf[..])
                else if random(old(drawn) + 1) < 0.5 then result == 2
                else result == 1 && FlippedBy(old(buf[..]), random(old(drawn) + 2), buf[..])
    {
      hide ScaledDraw;
      result := RunMsgEvents(standing, buf, number);
      var hasDropped := result == 2;
      var hasChanged := false;
      var randNum := Drand48();
      if |chance| > 0 && randNum <= errorRate {
        var r := Drand48();
        var randCase := ScaledDraw(|chance|, r);
        result := Run(chance[randCase], buf, number);
        if result == 2 {
          hasDropped := true;
        } else {
          hasChanged := result == 1;
        }
      }
      if hasDropped {
        return 2;
      }
      return if hasChanged then 1 else 0;
    }

    /** The caller's buffer is never touched; the wire gets a copy with at most one fault. */
    method SendtoErr(buf: array<byte>, len: nat) returns (wire: Option<seq<byte>>)
      requires Valid() && 0 < len <= buf.Length
      modifies this`msgNo, this`drawn
      ensures Valid() && msgNo == old(msgNo) + 1
      ensures AtMostOneFault(buf[..len], wire)
      ensures wire == None <==> old(Drops(msgNo + 1))
      ensures wire.Some? ==> (wire.value == buf[..len] <==> old(Chosen()) != Some(ErrorFlipBits))
      ensures old(standing) == [InfoSeqNo] && old(chance) == DEFAULT_CHANCE ==>
                if random(old(drawn)) > old(errorRate) then wire == Some(buf[..len])
                else if random(old(drawn) + 1) < 0.5 then wire == None
                else wire.Some? && FlippedBy(buf[..len], random(old(drawn) + 2), wire.value)
    {
      hide Chosen, Drops, Complement;
      msgNo := msgNo + 1;
      var bufTmp := new byte[len];
      Memcpy(bufTmp, 0, buf[..len]);
      assert bufTmp[..] == buf[..len];
      var result := ProcessEvents(bufTmp, msgNo);
      if result == 2 {
        return None;
      }
      ComplementsDiffer(buf[..len]);
      return Some(bufTmp[..]);
    }
  }
}
