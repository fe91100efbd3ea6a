/** The checksum the kernel stamps into raw IPv6 packets: a 32-bit wrapping sum of big-endian 16-bit words over
a pseudo-header and the packet, folded and complemented.
 */
module Checksums {
  import opened Wrappers
  import opened Bits
  import opened Sequences

  const EINVAL: int := 22
  const M32: int := 0x1_0000_0000

  // ----- the sum

  function Word(hi: int, lo: int): int { hi * 256 + lo }

  /** The exact sum of the 16-bit words; an odd last byte is the high half of a word. */
  function WordSum(bytes: seq<Byte>): nat
  {
    if bytes == [] then 0
    else if |bytes| == 1 then Word(bytes[0], 0)
    else Word(bytes[0], bytes[1]) + WordSum(bytes[2..])
  }

  function Weight(i: nat): nat { if i % 2 == 0 then 256 else 1 }

  lemma {:induction false} SetByte(bytes: seq<Byte>, i: nat, v: Byte)
    requires i < |bytes|
    ensures WordSum(bytes[i := v]) == WordSum(bytes) + (v - bytes[i]) * Weight(i)
    decreases |bytes|
  {
    if i >= 2 {
      assert bytes[i := v][2..] == bytes[2..][i - 2 := v];
      SetByte(bytes[2..], i - 2, v);
    } else if |bytes| >= 2 {
      assert bytes[i := v][2..] == bytes[2..];
    }
  }

  lemma {:induction false} SumOfZeros(bytes: seq<Byte>)
    requires forall i :: 0 <= i < |bytes| ==> bytes[i] == 0
    ensures WordSum(bytes) == 0
    decreases |bytes|
  {
    if |bytes| >= 2 {
      SumOfZeros(bytes[2..]);
    }
  }

  lemma {:induction false} SumConcat(a: seq<Byte>, b: seq<Byte>)
    requires |a| % 2 == 0
    ensures WordSum(a + b) == WordSum(a) + WordSum(b)
    decreases |a|
  {
    if a == [] {
      assert a + b == b;
    } else {
      assert (a + b)[2..] == a[2..] + b;
      SumConcat(a[2..], b);
    }
  }

  lemma {:induction false} SumBound(bytes: seq<Byte>)
    ensures WordSum(bytes) <= 65535 * (|bytes| / 2) + 65280 * (|bytes| % 2)
    decreases |bytes|
  {
    if |bytes| >= 2 {
      SumBound(bytes[2..]);
    }
  }

  // ----- the fold

  function Fold(sum: nat): nat
    decreases sum
  {
    if sum / 65536 == 0 then sum else Fold(sum % 65536 + sum / 65536)
  }

  /** The representative of `sum` modulo 65535 in 1..65535, or 0 for 0. */
  function Norm(sum: nat): nat
  {
    if sum == 0 then 0 else (sum - 1) % 65535 + 1
  }

  lemma NormStep(sum: nat)
    ensures Norm(sum % 65536 + sum / 65536) == Norm(sum)
  {
    var q, r := sum / 65536, sum % 65536;
    assert sum == q * 65536 + r;
    if sum > 0 {
      assert q + r > 0;
      assert sum - 1 == (q + r - 1) + q * 65535;
      ModShift(q + r - 1, q, 65535);
    }
  }

  lemma ModShift(x: int, k: int, m: int)
    requires m > 0
    ensures (x + k * m) % m == x % m
  {
    var q, r := x / m, x % m;
    assert x == q * m + r;
    assert x + k * m == (q + k) * m + r by {
      assert (q + k) * m == q * m + k * m;
    }
    DivUnique(x + k * m, m, q + k, r);
  }

  /** Folding ends in a 16-bit word congruent to the sum modulo 65535. */
  lemma {:induction false} FoldIsNorm(sum: nat)
    ensures Fold(sum) == Norm(sum) && Fold(sum) < 65536
    decreases sum
  {
    if sum / 65536 != 0 {
      NormStep(sum);
      FoldIsNorm(sum % 65536 + sum / 65536);
    }
  }

  lemma FoldCongruent(sum: nat)
    ensures Fold(sum) % 65535 == sum % 65535
  {
    FoldIsNorm(sum);
    if sum > 0 {
      var q, r := (sum - 1) / 65535, (sum - 1) % 65535;
      assert sum == (r + 1) + q * 65535;
      ModShift(r + 1, q, 65535);
    }
  }

  // ----- the reference: one's complement addition

  /** 16-bit addition with end-around carry. */
  function OnesAdd(a: nat, b: nat): nat { if a + b < 65536 then a + b else a + b - 65535 }

  /** The one's complement sum of section 4.1 of RFC 1071, as section 8.1 of RFC 8200 uses it. */
  function OnesSum(bytes: seq<Byte>): nat
  {
    if bytes == [] then 0
    else if |bytes| == 1 then Word(bytes[0], 0)
    else OnesAdd(Word(bytes[0], bytes[1]), OnesSum(bytes[2..]))
  }

  lemma NormAdd(a: nat, b: nat)
    requires a < 65536
    ensures OnesAdd(a, Norm(b)) == Norm(a + b)
  {
    if a > 0 && b > 0 {
      var q, r := (b - 1) / 65535, (b - 1) % 65535;
      assert b - 1 == q * 65535 + r;
      if a + r < 65535 {
        DivUnique(a + b - 1, 65535, q, a + r);
      } else {
        DivUnique(a + b - 1, 65535, q + 1, a + r - 65535);
      }
    }
  }

  lemma {:induction false} OnesSumIsNorm(bytes: seq<Byte>)
    ensures OnesSum(bytes) == Norm(WordSum(bytes))
    decreases |bytes|
  {
    hide Norm;
    if bytes == [] {
      NormSmall(0);
    } else if |bytes| == 1 {
      NormSmall(Word(bytes[0], 0));
    } else {
      OnesSumIsNorm(bytes[2..]);
      NormAdd(Word(bytes[0], bytes[1]), WordSum(bytes[2..]));
    }
  }

  lemma NormSmall(x: nat)
    requires x < 65536
    ensures Norm(x) == x
  {
  }

  // ----- the pseudo-header

  /** Both addresses are ::1; the length and the next header follow. */
  function Pseudo(next: Byte, len: nat): seq<Byte>
  {
    var l := len % 0x1_0000_0000;
    var addresses := Zeros(40)[15 := 1][31 := 1];
    addresses[32 := l / 0x100_0000][33 := l / 0x1_0000 % 256][34 := l / 256 % 256][35 := l % 256][39 := next]
  }

  /** The pseudo-header of section 8.1 of RFC 8200: source and destination ::1, the upper-layer length as a big-endian
      32-bit number, three zero bytes, the next header. */
  lemma PseudoLayout(next: Byte, len: nat)
    ensures var p := Pseudo(next, len);
      && |p| == 40 && p[15] == 1 && p[31] == 1 && p[39] == next
      && (forall i :: 0 <= i < 15 || 16 <= i < 31 || 36 <= i < 39 ==> p[i] == 0)
      && Word(p[32], p[33]) * 0x1_0000 + Word(p[34], p[35]) == len % 0x1_0000_0000
  {
    Digits(len % 0x1_0000_0000);
  }

  function PseudoSum(next: int, len: int): int
  {
    var l := len % 0x1_0000_0000;
    2 + l / 0x1_0000 + l % 0x1_0000 + next
  }

  lemma PseudoSumIs(next: Byte, len: nat)
    ensures WordSum(Pseudo(next, len)) == PseudoSum(next, len)
  {
    hide WordSum;
    var l := len % 0x1_0000_0000;
    var p0 := Zeros(40);
    SumOfZeros(p0);
    SetByte(p0, 15, 1);
    var p1 := p0[15 := 1];
    SetByte(p1, 31, 1);
    var p2 := p1[31 := 1];
    SetByte(p2, 32, l / 0x100_0000);
    var p3 := p2[32 := l / 0x100_0000];
    SetByte(p3, 33, l / 0x1_0000 % 256);
    var p4 := p3[33 := l / 0x1_0000 % 256];
    SetByte(p4, 34, l / 256 % 256);
    var p5 := p4[34 := l / 256 % 256];
    SetByte(p5, 35, l % 256);
    var p6 := p5[35 := l % 256];
    SetByte(p6, 39, next);
    Digits(l);
  }

  lemma Digits(l: nat)
    ensures l / 0x100_0000 * 256 + l / 0x1_0000 % 256 == l / 0x1_0000
    ensures l / 256 % 256 * 256 + l % 256 == l % 0x1_0000
  {
  }

  /** The exact sum that the checksum is about. */
  function FullSum(next: Byte, packet: seq<Byte>): nat
  {
    WordSum(Pseudo(next, |packet|)) + WordSum(packet)
  }

  /** What the kernel computes. */
  function Checksum(next: Byte, packet: seq<Byte>): nat
  {
    FoldIsNorm(FullSum(next, packet) % M32);
    65535 - Fold(FullSum(next, packet) % M32)
  }

  /** The receiver of section 8.1 of RFC 8200 adds everything up and expects all ones. */
  predicate ReceiverAccepts(next: Byte, packet: seq<Byte>)
  {
    OnesSum(Pseudo(next, |packet|) + packet) == 65535
  }

  lemma ReceiverSum(next: Byte, packet: seq<Byte>)
    ensures ReceiverAccepts(next, packet) <==> Norm(FullSum(next, packet)) == 65535
  {
    hide WordSum, OnesSum, Pseudo, Norm;
    PseudoLength(next, |packet|);
    OnesSumIsNorm(Pseudo(next, |packet|) + packet);
    SumConcat(Pseudo(next, |packet|), packet);
  }

  lemma PseudoLength(next: Byte, len: nat)
    ensures |Pseudo(next, len)| == 40
  {
  }

  // ----- stamping

  function Cleared(packet: seq<Byte>, offset: nat): seq<Byte>
    requires offset + 1 < |packet|
  {
    packet[offset := 0][offset + 1 := 0]
  }

  function Filled(packet: seq<Byte>, offset: nat, sum: nat): seq<Byte>
    requires offset + 1 < |packet| && sum < 65536
  {
    packet[offset := sum / 256][offset + 1 := sum % 256]
  }

  function Stamped(next: Byte, packet: seq<Byte>, offset: nat): seq<Byte>
    requires offset + 1 < |packet|
  {
    Filled(Cleared(packet, offset), offset, Checksum(next, Cleared(packet, offset)))
  }

  /** The two bytes as they count in the sum: swapped when they straddle two words. */
  function AsAdded(sum: nat, offset: nat): nat
  {
    if offset % 2 == 0 then sum else sum % 256 * 256 + sum / 256
  }

  lemma StampedSum(next: Byte, packet: seq<Byte>, offset: nat)
    requires offset + 1 < |packet|
    ensures |Stamped(next, packet, offset)| == |packet|
    ensures FullSum(next, Stamped(next, packet, offset)) ==
      FullSum(next, Cleared(packet, offset)) + AsAdded(Checksum(next, Cleared(packet, offset)), offset)
  {
    hide WordSum, Pseudo, Checksum;
    var cleared := Cleared(packet, offset);
    var sum := Checksum(next, cleared);
    SumIsWord(next, cleared);
    var half := cleared[offset := sum / 256];
    SetByte(cleared, offset, sum / 256);
    SetByte(half, offset + 1, sum % 256);
    assert cleared[offset] == 0 && half[offset + 1] == 0;
  }

  lemma SumIsWord(next: Byte, packet: seq<Byte>)
    ensures Checksum(next, packet) == 65535 - Norm(FullSum(next, packet) % M32)
    ensures Checksum(next, packet) < 65536
  {
    hide Fold, Norm;
    FoldIsNorm(FullSum(next, packet) % M32);
  }

  /** Adding the complement of the fold completes the sum to a multiple of 65535 that still fits 32 bits. */
  lemma Completes(r: nat)
    requires r < M32
    ensures 0 <= 65535 - Norm(r)
    ensures var x := r + (65535 - Norm(r)); 0 < x < M32 && x % 65535 == 0
  {
    if r > 0 {
      var q, m := (r - 1) / 65535, (r - 1) % 65535;
      var x := r + (65535 - Norm(r));
      assert x == (q + 1) * 65535;
      assert q <= 65536;
      ModShift(0, q + 1, 65535);
    }
  }

  lemma NormFull(x: nat)
    ensures Norm(x) == 65535 <==> x > 0 && x % 65535 == 0
  {
    if x > 0 {
      var q, r := (x - 1) / 65535, (x - 1) % 65535;
      assert x == q * 65535 + (r + 1);
      if r == 65534 {
        ModShift(0, q + 1, 65535);
      } else {
        DivUnique(x, 65535, q, r + 1);
      }
    }
  }

  /** Swapped bytes complete the sum only when they are the same byte. */
  lemma Straddles(r: nat, hi: Byte, lo: Byte)
    requires r < M32 && Word(hi, lo) == 65535 - Norm(r)
    ensures Norm((r + Word(lo, hi)) % M32) == 65535 <==> hi == lo
  {
    hide Norm;
    Completes(r);
    var x := r + Word(hi, lo);
    var d := lo - hi;
    var y := r + Word(lo, hi);
    assert y == x + 255 * d;
    var m := x / 65535;
    assert x == m * 65535;
    NormFull(y % M32);
    if y < M32 {
      assert y % M32 == y;
      ModShift(255 * d, m, 65535);
      SmallMultiple(d);
    } else {
      assert y % M32 == y - M32;
      assert y - M32 == (255 * d - 1) + (m - 65537) * 65535;
      ModShift(255 * d - 1, m - 65537, 65535);
      SmallMultiple(d);
    }
  }

  lemma SmallMultiple(d: int)
    requires -255 <= d <= 255
    ensures (255 * d) % 65535 == 0 <==> d == 0
    ensures (255 * d - 1) % 65535 != 0
  {
  }

  /** The kernel's own check of a stamped packet, for every packet of every length: it gives zero exactly when
      the field is at an even offset or the two checksum bytes are equal. */
  lemma VerifiesIff(next: Byte, packet: seq<Byte>, offset: nat)
    requires offset + 1 < |packet|
    ensures var sum := Checksum(next, Cleared(packet, offset));
      Checksum(next, Stamped(next, packet, offset)) == 0 <==> offset % 2 == 0 || sum / 256 == sum % 256
  {
    hide Norm, Checksum, FullSum, Stamped, Cleared;
    var cleared := Cleared(packet, offset);
    var sum := Checksum(next, cleared);
    var r := FullSum(next, cleared) % M32;
    SumIsWord(next, cleared);
    SumIsWord(next, Stamped(next, packet, offset));
    StampedSum(next, packet, offset);
    WrapAdd(FullSum(next, cleared), AsAdded(sum, offset));
    Completes(r);
    if offset % 2 == 0 {
      NormFull(r + sum);
    } else {
      Straddles(r, sum / 256, sum % 256);
    }
  }

  lemma WrapAdd(a: nat, b: nat)
    ensures (a % M32 + b) % M32 == (a + b) % M32
  {
    ModShift(a % M32 + b, a / M32, M32);
  }

  /** How far the stamped bytes are from completing the sum: nothing at an even offset, 255 times the difference of
      the two bytes at an odd one. */
  function Skew(sum: nat, offset: nat): int
  {
    if offset % 2 == 0 then 0 else 255 * (sum % 256 - sum / 256)
  }

  lemma SkewIs(sum: nat, offset: nat)
    requires sum < 65536
    ensures AsAdded(sum, offset) == sum + Skew(sum, offset)
  {
  }

  /** A receiver accepts a stamp exactly when the carries that the 32-bit sum lost and the skew of an odd offset cancel
      modulo 65535; without lost carries that is an even offset or two equal checksum bytes. */
  lemma ReceiverAcceptsIff(next: Byte, packet: seq<Byte>, offset: nat)
    requires offset + 1 < |packet|
    ensures
      var full, sum := FullSum(next, Cleared(packet, offset)), Checksum(next, Cleared(packet, offset));
      && (ReceiverAccepts(next, Stamped(next, packet, offset)) <==> (full / M32 + Skew(sum, offset)) % 65535 == 0)
      && (full < M32 ==>
           (ReceiverAccepts(next, Stamped(next, packet, offset)) <==> offset % 2 == 0 || sum / 256 == sum % 256))
  {
    hide Norm, Checksum, FullSum, Stamped, Cleared, ReceiverAccepts, Skew;
    var cleared := Cleared(packet, offset);
    var full, sum := FullSum(next, cleared), Checksum(next, cleared);
    var k, r := full / M32, full % M32;
    SumIsWord(next, cleared);
    StampedSum(next, packet, offset);
    SkewIs(sum, offset);
    ReceiverSum(next, Stamped(next, packet, offset));
    Completes(r);
    var total := full + sum + Skew(sum, offset);
    SumPositive(next, cleared);
    NormFull(total);
    Regroup(full, sum, Skew(sum, offset));
    SkewZero(sum, offset);
  }

  /** Modulo 65535 a lost carry counts one. */
  lemma Regroup(full: nat, sum: nat, skew: int)
    requires (full % M32 + sum) % 65535 == 0
    ensures (full + sum + skew) % 65535 == (full / M32 + skew) % 65535
  {
    var k, r := full / M32, full % M32;
    var m := (r + sum) / 65535;
    assert full == k * M32 + r && r + sum == m * 65535;
    assert full + sum + skew == (k + skew) + (k * 65537 + m) * 65535;
    ModShift(k + skew, k * 65537 + m, 65535);
  }

  lemma SkewZero(sum: nat, offset: nat)
    requires sum < 65536
    ensures Skew(sum, offset) % 65535 == 0 <==> offset % 2 == 0 || sum / 256 == sum % 256
  {
    SmallMultiple(sum % 256 - sum / 256);
  }

  lemma SumPositive(next: Byte, packet: seq<Byte>)
    ensures FullSum(next, packet) > 0
  {
    hide WordSum, Pseudo;
    PseudoSumIs(next, |packet|);
  }

  lemma ShortPseudo(next: Byte, len: nat)
    requires len <= 131_074
    ensures PseudoSum(next, len) <= 2 + 2 + 65535 + 255
    ensures len > 131_072 ==> PseudoSum(next, len) <= 2 + 2 + 2 + 255
  {
  }

  lemma ShortSumFits(next: Byte, packet: seq<Byte>, offset: nat)
    requires offset + 1 < |packet| <= 131_074
    ensures FullSum(next, Cleared(packet, offset)) < M32
  {
    hide WordSum, Pseudo;
    var cleared := Cleared(packet, offset);
    PseudoSumIs(next, |cleared|);
    ShortPseudo(next, |cleared|);
    hide PseudoSum;
    SumBound(Filled(cleared, offset, 65535));
    var half := cleared[offset := 255];
    SetByte(cleared, offset, 255);
    SetByte(half, offset + 1, 255);
  }

  /** No carry is lost up to 131,074 bytes, so there the receiver agrees with the kernel's own check. */
  lemma ShortPacketsFit(next: Byte, packet: seq<Byte>, offset: nat)
    requires offset + 1 < |packet| <= 131_074
    ensures FullSum(next, Cleared(packet, offset)) < M32
    ensures ReceiverAccepts(next, Stamped(next, packet, offset)) <==> Checksum(next, Stamped(next, packet, offset)) == 0
  {
    hide FullSum, Stamped, ReceiverAccepts, Checksum, Cleared;
    ShortSumFits(next, packet, offset);
    ReceiverAcceptsIff(next, packet, offset);
    VerifiesIff(next, packet, offset);
  }

  function AllOnes(n: nat): seq<Byte> { seq(n, _ => 255) }

  lemma {:induction false} SumOfOnes(n: nat)
    ensures WordSum(AllOnes(n)) == 65535 * (n / 2) + 65280 * (n % 2)
  {
    if n >= 2 {
      assert AllOnes(n)[2..] == AllOnes(n - 2);
      SumOfOnes(n - 2);
    }
  }

  /** One byte more and a carry can be lost: the kernel's own check still gives zero, but a receiver rejects. */
  lemma LongPacketRejected()
    ensures var packet := AllOnes(131_075);
      Checksum(255, Stamped(255, packet, 0)) == 0 && !ReceiverAccepts(255, Stamped(255, packet, 0))
  {
    hide WordSum, Pseudo, Stamped, ReceiverAccepts, Checksum;
    var packet := AllOnes(131_075);
    SumOfOnes(131_075);
    SetByte(packet, 0, 0);
    var half := packet[0 := 0];
    SetByte(half, 1, 0);
    PseudoSumIs(255, 131_075);
    assert FullSum(255, Cleared(packet, 0)) == M32 + 6;
    ReceiverAcceptsIff(255, packet, 0);
    VerifiesIff(255, packet, 0);
  }

  /** An odd offset fails already on four bytes: the recomputed checksum is not zero, and a receiver rejects. */
  lemma OddStampFails()
    ensures Checksum(58, Stamped(58, [0, 0, 0, 0], 1)) != 0 && !ReceiverAccepts(58, Stamped(58, [0, 0, 0, 0], 1))
  {
    hide WordSum, Pseudo, Stamped, ReceiverAccepts, Checksum, Fold;
    var packet: seq<Byte> := [0, 0, 0, 0];
    assert Cleared(packet, 1) == packet;
    SumOfZeros(packet);
    PseudoSumIs(58, 4);
    assert FullSum(58, packet) == 64;
    SumIsWord(58, packet);
    VerifiesIff(58, packet, 1);
    ReceiverAcceptsIff(58, packet, 1);
  }

  // ----- the kernel's code

  method ChecksumAdd(start: nat, bytes: seq<Byte>) returns (sum: nat)
    requires start < M32
    ensures sum == (start + WordSum(bytes)) % M32
  {
    sum := start;
    var i := 0;
    while i + 1 < |bytes|
      invariant 0 <= i <= |bytes| && i % 2 == 0 && sum < M32
      invariant (sum + WordSum(bytes[i..])) % M32 == (start + WordSum(bytes)) % M32
    {
      var word := Word(bytes[i], bytes[i + 1]);
      assert bytes[i..][2..] == bytes[i + 2..];
      WrapAdd(sum + word, WordSum(bytes[i + 2..]));
      sum := (sum + word) % M32;
      i := i + 2;
    }
    if i < |bytes| {
      assert bytes[i..] == [bytes[i]];
      sum := (sum + Word(bytes[i], 0)) % M32;
    } else {
      assert bytes[i..] == [];
    }
  }

  method ChecksumFinish(start: nat) returns (r: nat)
    ensures r < 65536 && (r + start) % 65535 == 0
    ensures r == 65535 <==> start == 0
    ensures r == 65535 - Fold(start)
  {
    var sum := start;
    while sum / 65536 != 0
      invariant Fold(sum) == Fold(start)
      decreases sum
    {
      sum := sum % 65536 + sum / 65536;
    }
    FoldIsNorm(start);
    FinishCompletes(start);
    r := 65535 - sum;
  }

  lemma FinishCompletes(sum: nat)
    ensures Norm(sum) <= 65535 && (65535 - Norm(sum) + sum) % 65535 == 0
  {
    if sum > 0 {
      var q := (sum - 1) / 65535;
      assert 65535 - Norm(sum) + sum == 0 + (q + 1) * 65535;
      ModShift(0, q + 1, 65535);
    }
  }

  method RawChecksum(next: Byte, packet: seq<Byte>) returns (r: nat)
    ensures r == Checksum(next, packet)
  {
    hide WordSum, Fold;
    var pseudo := Zeros(40);
    var l := |packet| % M32;
    pseudo := pseudo[15 := 1][31 := 1];
    pseudo := pseudo[32 := l / 0x100_0000][33 := l / 0x1_0000 % 256][34 := l / 256 % 256][35 := l % 256];
    pseudo := pseudo[39 := next];
    assert pseudo == Pseudo(next, |packet|);
    var sum := ChecksumAdd(0, pseudo);
    WrapAdd(WordSum(pseudo), WordSum(packet));
    sum := ChecksumAdd(sum, packet);
    r := ChecksumFinish(sum);
  }

  /** The packet a raw socket sends: unchanged without a checksum offset, refused when the field does not fit. */
  method StampPacket(next: Byte, data: seq<Byte>, offset: Option<nat>) returns (r: Result<seq<Byte>>)
    ensures offset.None? ==> r == Ok(data)
    ensures offset.Some? && offset.value + 1 >= |data| ==> r == Err(EINVAL)
    ensures offset.Some? && offset.value + 1 < |data| ==> r == Ok(Stamped(next, data, offset.value))
    ensures r.Ok? && offset.Some? ==> offset.value + 1 < |data| == |r.value|
    ensures r.Ok? && offset.Some? && offset.value % 2 == 0 ==> Checksum(next, r.value) == 0
    ensures r.Ok? && offset.Some? && offset.value % 2 == 0 && |data| <= 131_074 ==> ReceiverAccepts(next, r.value)
    ensures r.Ok? && offset.Some? ==>
      forall i :: 0 <= i < |data| && i != offset.value && i != offset.value + 1 ==> r.value[i] == data[i]
  {
    hide Checksum, ReceiverAccepts;
    var packet := data;
    if offset.None? {
      return Ok(packet);
    }
    var o := offset.value;
    if o + 1 >= |packet| {
      return Err(EINVAL);
    }
    packet := packet[o := 0][o + 1 := 0];
    var sum := RawChecksum(next, packet);
    SumIsWord(next, packet);
    packet := packet[o := sum / 256][o + 1 := sum % 256];
    assert packet == Stamped(next, data, o);
    VerifiesIff(next, data, o);
    if o % 2 == 0 && |data| <= 131_074 {
      ShortPacketsFit(next, data, o);
    }
    r := Ok(packet);
  }
}
