/**
 The Internet checksum (section 1 of RFC 1071) as in_cksum computes it on a
 little-endian host: 16-bit words are added in a 32-bit accumulator, the carries are
 folded back twice, and the low 16 bits are complemented.
 */
module Checksum {
  import opened Bytes

  /** The longest buffer whose words cannot overflow the signed accumulator. */
  const MAX_LEN := 0x1_0000

  /** The sum of the buffer's words; a trailing odd byte counts as a word with a zero high byte. */
  function WordSum(b: seq<byte>): nat {
    if |b| == 0 then 0
    else if |b| == 1 then b[0]
    else b[0] + 0x100 * b[1] + WordSum(b[2..])
  }

  /** One fold: high half plus low half. */
  function Once(sum: nat): nat {
    sum / 0x1_0000 + sum % 0x1_0000
  }

  /** The two folding steps of in_cksum, kept to 16 bits. */
  function Fold(sum: nat): uint16 {
    (Once(sum) + Once(sum) / 0x1_0000) % 0x1_0000
  }

  function Cksum(b: seq<byte>): uint16 {
    0xffff - Fold(WordSum(b))
  }

  /** Section 4.1 of RFC 1071: fold for as long as there is a carry. */
  function FoldCarries(sum: nat): uint16 {
    if sum < 0x1_0000 then sum else FoldCarries(Once(sum))
  }

  /** Every buffer up to MAX_LEN fits a 31-bit accumulator at every prefix of the loop. */
  lemma {:induction false} WordSumBound(b: seq<byte>)
    ensures WordSum(b) <= (|b| + 1) / 2 * 0xffff
    ensures |b| <= MAX_LEN ==> WordSum(b) < 0x8000_0000
  {
    if |b| > 1 {
      WordSumBound(b[2..]);
    }
  }

  /** Casting out 65535s. */
  lemma Casting(q: nat, x: nat)
    ensures (0xffff * q + x) % 0xffff == x % 0xffff
  {
    assert x == 0xffff * (x / 0xffff) + x % 0xffff;
    assert 0xffff * q + x == 0xffff * (q + x / 0xffff) + x % 0xffff;
  }

  /** After one fold at most one carry is left, so the second fold leaves none. */
  lemma FoldValue(sum: nat)
    requires sum < 0x1_0000_0000
    ensures Once(sum) <= 0x1_fffe && sum == 0xffff * (sum / 0x1_0000) + Once(sum)
    ensures Fold(sum) == if Once(sum) < 0x1_0000 then Once(sum) else Once(sum) - 0xffff
  {
    SecondFold(Once(sum));
  }

  lemma SecondFold(once: nat)
    requires once <= 0x1_fffe
    ensures (once + once / 0x1_0000) % 0x1_0000 == if once < 0x1_0000 then once else once - 0xffff
    ensures FoldCarries(once) == if once < 0x1_0000 then once else once - 0xffff
  {
    if once >= 0x1_0000 {
      assert once / 0x1_0000 == 1 && once % 0x1_0000 == once - 0x1_0000;
    }
  }

  /** Two folds are as good as folding until no carry is left, and keep the residue mod 65535. */
  lemma FoldIsOnesComplementSum(sum: nat)
    requires sum < 0x1_0000_0000
    ensures Fold(sum) == FoldCarries(sum)
    ensures Fold(sum) % 0xffff == sum % 0xffff
    ensures Fold(sum) == 0 <==> sum == 0
  {
    FoldValue(sum);
    FoldResidue(sum, sum / 0x1_0000, Once(sum), Fold(sum));
    CarriesAfterOnce(sum);
    SecondFold(Once(sum));
  }

  lemma CarriesAfterOnce(sum: nat)
    ensures FoldCarries(sum) == FoldCarries(Once(sum))
  {
    if sum < 0x1_0000 {
      assert sum / 0x1_0000 == 0 && sum % 0x1_0000 == sum;
    }
  }

  lemma FoldResidue(sum: nat, q: nat, once: nat, fold: uint16)
    requires sum == 0xffff * q + once && q <= once <= 0x1_fffe
    requires fold == if once < 0x1_0000 then once else once - 0xffff
    ensures fold % 0xffff == sum % 0xffff
    ensures fold == 0 <==> sum == 0
  {
    Casting(q, once);
    if once >= 0x1_0000 {
      Casting(1, once - 0xffff);
    }
  }

  lemma FullResidue(fold: uint16, sum: nat)
    requires fold % 0xffff == sum % 0xffff
    requires fold == 0 <==> sum == 0
    ensures fold == 0xffff <==> sum > 0 && sum % 0xffff == 0
  {
  }

  /** What a zero checksum says about the buffer: the sum is a positive multiple of 65535. */
  lemma CksumZero(b: seq<byte>)
    requires |b| <= MAX_LEN
    ensures Cksum(b) == 0 <==> WordSum(b) > 0 && WordSum(b) % 0xffff == 0
  {
    WordSumBound(b);
    FoldIsOnesComplementSum(WordSum(b));
    FullResidue(Fold(WordSum(b)), WordSum(b));
  }

  /** The all-zero buffer is the only one whose words sum to zero. */
  lemma {:induction false} WordSumZero(b: seq<byte>)
    ensures WordSum(b) == 0 <==> forall i :: 0 <= i < |b| ==> b[i] == 0
  {
    if |b| > 1 {
      WordSumZero(b[2..]);
      assert forall i :: 2 <= i < |b| ==> b[i] == b[2..][i - 2];
    }
  }

  /** What one byte weighs in the sum. */
  function Weight(i: nat): int {
    if i % 2 == 0 then 1 else 0x100
  }

  lemma {:induction false} WordSumUpdate(b: seq<byte>, i: nat, v: byte)
    requires i < |b|
    ensures WordSum(b[i := v]) == WordSum(b) + (v - b[i]) * Weight(i)
  {
    if i >= 2 {
      assert b[i := v][2..] == b[2..][i - 2 := v];
      WordSumUpdate(b[2..], i - 2, v);
    } else if |b| > 1 {
      assert b[i := v][2..] == b[2..];
    }
  }

  /** How far complementing byte a at position i moves the word sum. */
  function ComplementShift(a: byte, i: nat): int {
    (0xff - 2 * (a as int)) * Weight(i)
  }

  lemma WordSumComplement(b: seq<byte>, i: nat)
    requires i < |b|
    ensures WordSum(b[i := 0xff - b[i]]) == WordSum(b) + ComplementShift(b[i], i)
  {
    WordSumUpdate(b, i, 0xff - b[i]);
  }

  /** The shift is odd or 256 times odd and less than 65535 in size, so never a multiple of 65535. */
  lemma ComplementShows(b: seq<byte>, i: nat)
    requires i < |b|
    requires WordSum(b) % 0xffff == 0
    ensures WordSum(b[i := 0xff - b[i]]) % 0xffff != 0
  {
    WordSumComplement(b, i);
    assert ComplementShift(b[i], i) != 0 && -0xffff < ComplementShift(b[i], i) < 0xffff;
    SmallShift(WordSum(b), ComplementShift(b[i], i));
  }

  lemma SmallShift(sum: nat, shift: int)
    requires sum % 0xffff == 0 && shift != 0 && -0xffff < shift < 0xffff
    ensures (sum + shift) % 0xffff != 0
  {
    assert sum == 0xffff * (sum / 0xffff);
  }

  /** The last three statements of in_cksum: fold twice, complement, keep 16 bits. */
  method FoldAndComplement(total: int32) returns (answer: uint16)
    requires 0 <= total
    ensures answer == 0xffff - Fold(total as int)
  {
    var sum := total;
    sum := sum / 0x1_0000 + sum % 0x1_0000;
    assert sum as int == Once(total as int);
    sum := sum + sum / 0x1_0000;
    answer := 0xffff - (sum % 0x1_0000) as int;
  }

  method InCksum(addr: array<byte>, len: nat) returns (answer: uint16)
    requires len <= addr.Length && len <= MAX_LEN
    ensures answer == Cksum(addr[..len])
  {
    ghost var data := addr[..len];
    WordSumBound(data);
    var sum: int32 := 0;
    var w := 0;
    var nleft := len;
    while nleft > 1
      invariant w + nleft == len
      invariant 0 <= sum && sum as int + WordSum(data[w..]) == WordSum(data)
    {
      assert data[w..][2..] == data[w + 2..];
      sum := sum + (addr[w] as int + 0x100 * (addr[w + 1] as int)) as int32;
      w := w + 2;
      nleft := nleft - 2;
    }
    if nleft == 1 {
      sum := sum + addr[w] as int32;
    }
    assert sum as int == WordSum(data);
    answer := FoldAndComplement(sum);
  }
}
