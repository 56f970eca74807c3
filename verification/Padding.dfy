/** The byte-level padding of the code against pad10*1 of section 5.1 of FIPS 202,
    and what a padded message gives away about the message. */
module Padding {
  import opened Numbers
  import opened Words
  import opened SpongeSpec
  import opened SpongeLaws

  /** Bytes as a bit string, least significant bit first (appendix B.1). */
  function BitString(bs: seq<Byte>): (s: seq<bool>)
    ensures |s| == 8 * |bs|
  {
    seq(8 * |bs|, i requires 0 <= i < 8 * |bs| => Bit(bs[i / 8], i % 8))
  }

  /** pad10*1(x, n), Algorithm 9. */
  function Pad101(x: int, n: int): seq<bool>
    requires 0 < x && 0 <= n
  {
    ModRange(-n - 2, x);
    [true] + seq((-n - 2) % x, i => false) + [true]
  }

  /** The highest set bit of a domain byte, below bit 7, ends its suffix. */
  predicate SuffixLength(p: Byte, t: nat) {
    t < 7 && Bit(p, t) && forall k :: t < k < 8 ==> !Bit(p, k)
  }

  function Suffix(p: Byte, t: nat): seq<bool>
    requires t <= 8
  {
    seq(t, i requires 0 <= i < t => Bit(p, i))
  }

  lemma BitOfOrFinal(p: Byte, k: nat)
    requires k < 8
    ensures Bit(OrByte(p, FINAL_BIT), k) == (Bit(p, k) || k == 7)
  {
    match k
    case 0 =>
    case 1 =>
    case 2 =>
    case 3 =>
    case 4 =>
    case 5 =>
    case 6 =>
    case _ =>
  }

  lemma BitOfFinal(k: nat)
    requires k < 8
    ensures Bit(FINAL_BIT, k) == (k == 7)
  {
  }

  lemma BitOfZero(k: nat)
    requires k < 8
    ensures !Bit(ZERO_BYTE, k)
  {
  }

  /** The number of zeros pad10*1 inserts, in terms of the bytes left in the block. */
  lemma ZeroCount(n: nat, r: nat, t: nat)
    requires 0 < r && t < 7
    ensures (-(8 * n + t) - 2) % (8 * r) == 8 * (r - n % r) - t - 2
  {
    var left := r - n % r;
    var q := -(n / r + 1);
    assert n + left == r * (n / r + 1);
    assert 8 * r * q == -8 * (n + left);
    ModUnique(-(8 * n + t) - 2, 8 * r, q, 8 * left - t - 2);
  }

  lemma PadByteAt(m: seq<Byte>, r: nat, p: Byte, i: nat)
    requires 0 < r
    requires i < |Pad(m, r, p)|
    ensures Pad(m, r, p)[i] ==
            if i < |m| then m[i]
            else if |m| + 1 == |Pad(m, r, p)| then OrByte(p, FINAL_BIT)
            else if i == |m| then p
            else if i == |Pad(m, r, p)| - 1 then FINAL_BIT
            else ZERO_BYTE
  {
    hide OrByte;
  }

  /** Padding a byte string with the domain byte p is appending the domain suffix
      and then pad10*1, for every message, rate and domain byte below 128. */
  lemma PadIsPad101(m: seq<Byte>, r: nat, p: Byte, t: nat)
    requires 0 < r && SuffixLength(p, t)
    ensures BitString(Pad(m, r, p)) == BitString(m) + Suffix(p, t) + Pad101(8 * r, 8 * |m| + t)
  {
    hide Bit, OrByte, Pad;
    var padded := Pad(m, r, p);
    var left := r - |m| % r;
    assert |padded| == |m| + left by {
      PadLength(m, r, p);
    }
    ZeroCount(|m|, r, t);
    var right := BitString(m) + Suffix(p, t) + Pad101(8 * r, 8 * |m| + t);
    assert |right| == 8 * |padded|;
    forall i | 0 <= i < 8 * |padded|
      ensures BitString(padded)[i] == right[i]
    {
      PadByteAt(m, r, p, i / 8);
      BitOfOrFinal(p, i % 8);
      BitOfFinal(i % 8);
      BitOfZero(i % 8);
    }
  }

  lemma PadLength(m: seq<Byte>, r: nat, p: Byte)
    requires 0 < r
    ensures |Pad(m, r, p)| == |m| + (r - |m| % r)
  {
  }

  const SHAKE_DOMAIN := Byte(0x1F)
  const SHA3_DOMAIN := Byte(0x06)

  /** SHA-3 appends 01, SHAKE appends 1111 (sections 6.1 and 6.2). */
  lemma DomainSuffixes()
    ensures SuffixLength(SHA3_DOMAIN, 2) && Suffix(SHA3_DOMAIN, 2) == [false, true]
    ensures SuffixLength(SHAKE_DOMAIN, 4) && Suffix(SHAKE_DOMAIN, 4) == [true, true, true, true]
  {
  }

  // ----- the padded message determines the message

  predicate LowBits(p: Byte) {
    p.bits & 0x7F != 0
  }

  lemma LowBitsMatter(p: Byte)
    ensures LowBits(p) <==> OrByte(p, FINAL_BIT) != FINAL_BIT
  {
  }

  lemma LowBitsNonzero(p: Byte)
    requires LowBits(p)
    ensures p != ZERO_BYTE
  {
  }

  lemma NotShorter(m1: seq<Byte>, m2: seq<Byte>, r: nat, p1: Byte, p2: Byte)
    requires 0 < r && LowBits(p1) && LowBits(p2)
    requires Pad(m1, r, p1) == Pad(m2, r, p2)
    ensures |m1| >= |m2|
  {
    hide LowBits, OrByte, Pad;
    var padded := Pad(m1, r, p1);
    PadLength(m1, r, p1);
    PadLength(m2, r, p2);
    LowBitsMatter(p2);
    LowBitsNonzero(p2);
    if |m1| < |m2| {
      PadByteAt(m1, r, p1, |m2|);
      PadByteAt(m2, r, p2, |m2|);
      assert false;
    }
  }

  /** Two padded messages are equal only if message and domain byte are. */
  lemma PadInjective(m1: seq<Byte>, m2: seq<Byte>, r: nat, p1: Byte, p2: Byte)
    requires 0 < r && LowBits(p1) && LowBits(p2) && TopBitClear(p1) && TopBitClear(p2)
    requires Pad(m1, r, p1) == Pad(m2, r, p2)
    ensures m1 == m2 && p1 == p2
  {
    hide LowBits, OrByte, Pad, TopBitClear;
    NotShorter(m1, m2, r, p1, p2);
    NotShorter(m2, m1, r, p2, p1);
    PadLength(m1, r, p1);
    PadLength(m2, r, p2);
    forall i | 0 <= i < |m1|
      ensures m1[i] == m2[i]
    {
      PadByteAt(m1, r, p1, i);
      PadByteAt(m2, r, p2, i);
    }
    PadByteAt(m1, r, p1, |m1|);
    PadByteAt(m2, r, p2, |m1|);
    OrFinalInjective(p1, p2);
  }

  lemma OrFinalInjective(p1: Byte, p2: Byte)
    requires TopBitClear(p1) && TopBitClear(p2) && OrByte(p1, FINAL_BIT) == OrByte(p2, FINAL_BIT)
    ensures p1 == p2
  {
  }

  ghost predicate MessageDetermined(r: nat, p: Byte)
    requires 0 < r
  {
    forall m1: seq<Byte>, m2: seq<Byte> :: Pad(m1, r, p) == Pad(m2, r, p) ==> m1 == m2
  }

  /** For one domain byte, the blocks determine the message exactly when the
      domain byte is not 0 or 128. */
  lemma PaddingDeterminesMessage(r: nat, p: Byte)
    requires 1 < r
    ensures MessageDetermined(r, p) <==> LowBits(p)
  {
    hide LowBits, Pad;
    if LowBits(p) {
      forall m1: seq<Byte>, m2: seq<Byte> | Pad(m1, r, p) == Pad(m2, r, p)
        ensures m1 == m2
      {
        SameDomainInjective(m1, m2, r, p);
      }
    } else {
      NoLowBitsCollide(r, p);
      var shorter := Zeros(r - 2);
      assert shorter != shorter + [p];
    }
  }

  lemma SameDomainInjective(m1: seq<Byte>, m2: seq<Byte>, r: nat, p: Byte)
    requires 0 < r && LowBits(p)
    requires Pad(m1, r, p) == Pad(m2, r, p)
    ensures m1 == m2
  {
    hide LowBits, OrByte, Pad;
    NotShorter(m1, m2, r, p, p);
    NotShorter(m2, m1, r, p, p);
    PadLength(m1, r, p);
    PadLength(m2, r, p);
    forall i | 0 <= i < |m1|
      ensures m1[i] == m2[i]
    {
      PadByteAt(m1, r, p, i);
      PadByteAt(m2, r, p, i);
    }
  }

  /** With a domain byte of 0 or 128 a message two bytes short of the rate and the
      same message with that byte appended collide. */
  lemma NoLowBitsCollide(r: nat, p: Byte)
    requires 1 < r && !LowBits(p)
    ensures Pad(Zeros(r - 2), r, p) == Pad(Zeros(r - 2) + [p], r, p)
  {
    hide LowBits, OrByte;
    LowBitsMatter(p);
    var m := Zeros(r - 2);
    ModUnique(r - 2, r, 0, r - 2);
    ModUnique(r - 1, r, 0, r - 1);
    assert Pad(m, r, p) == m + [p] + [FINAL_BIT];
  }
}
