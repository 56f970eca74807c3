/** The sponge construction of section 4 of FIPS 202 over bytes, for any
    permutation f of the 25 lanes, and two byte-at-a-time machines that say what
    the incremental interface means: one that absorbs, one that squeezes. */
module SpongeSpec {
  import opened Numbers
  import opened Words

  /** The order in which the sponge sees the bits of the lanes. */
  function Bytes(s: Lanes): ByteState {
    seq(200, i requires 0 <= i < 200 => ByteOf(s[i / 8], i % 8))
  }

  /** The first n bytes of x gathered into a lane, little-endian. */
  function LoadPrefix(x: seq<Byte>, n: nat): Lane
    requires n <= |x| == 8
  {
    if n == 0 then ZERO_LANE else Or(LoadPrefix(x, n - 1), ByteInLane(x[n - 1], n - 1))
  }

  function Load64(x: seq<Byte>): Lane
    requires |x| == 8
  {
    LoadPrefix(x, 8)
  }

  function FromBytes(b: ByteState): Lanes {
    seq(25, i requires 0 <= i < 25 => Load64(b[8 * i..8 * i + 8]))
  }

  /** The permutation as it acts on byte strings. */
  function OnBytes(f: Lanes -> Lanes, b: ByteState): ByteState {
    Bytes(f(FromBytes(b)))
  }

  function Zeros(n: nat): (z: seq<Byte>)
    ensures |z| == n
    ensures forall i :: 0 <= i < n ==> z[i] == ZERO_BYTE
  {
    seq(n, i => ZERO_BYTE)
  }

  function ZeroState(): ByteState {
    Zeros(200)
  }

  predicate ValidRate(r: nat) {
    0 < r <= 200 && r % 8 == 0
  }

  /** b XORed into st from position pos on. */
  function XoredAt(st: ByteState, pos: nat, b: seq<Byte>): ByteState
    requires pos + |b| <= 200
  {
    seq(200, i requires 0 <= i < 200 => if pos <= i < pos + |b| then XorByte(st[i], b[i - pos]) else st[i])
  }

  // ----- the sponge of FIPS 202, Algorithm 8

  const FINAL_BIT := Byte(0x80)

  /** The padding that follows the last whole block: domain byte, zeros, final bit;
      one byte carries both when only one byte is left. */
  function PadBytes(n: nat, p: Byte): (b: seq<Byte>)
    requires 0 < n
    ensures |b| == n
  {
    if n == 1 then [OrByte(p, FINAL_BIT)] else [p] + Zeros(n - 2) + [FINAL_BIT]
  }

  function Pad(m: seq<Byte>, r: nat, p: Byte): seq<Byte>
    requires 0 < r
  {
    m + PadBytes(r - |m| % r, p)
  }

  /** Steps 5 and 6: absorb whole blocks, permuting after each. */
  function AbsorbBlocks(f: Lanes -> Lanes, r: nat, st: ByteState, blocks: seq<Byte>): ByteState
    requires 0 < r <= 200 && |blocks| % r == 0
    decreases |blocks|
  {
    if |blocks| < r then st
    else
      BlocksLeft(|blocks|, r);
      AbsorbBlocks(f, r, OnBytes(f, XoredAt(st, 0, blocks[..r])), blocks[r..])
  }

  /** Steps 7 to 10: truncate to the rate, permute, repeat. */
  function SqueezeBytes(f: Lanes -> Lanes, r: nat, st: ByteState, d: nat): (z: seq<Byte>)
    requires 0 < r <= 200
    ensures |z| == d
    decreases d
  {
    if d <= r then st[..d] else st[..r] + SqueezeBytes(f, r, OnBytes(f, st), d - r)
  }

  /** SPONGE[f, pad, r](m, d), lengths in bytes. */
  function Sponge(f: Lanes -> Lanes, r: nat, p: Byte, m: seq<Byte>, d: nat): (z: seq<Byte>)
    requires 0 < r <= 200
    ensures |z| == d
  {
    PadFills(m, r, p);
    SqueezeBytes(f, r, AbsorbBlocks(f, r, ZeroState(), Pad(m, r, p)), d)
  }

  /** Like AbsorbBlocks, but stopping before the permutation of the last block. */
  function BeforeLastPermutation(f: Lanes -> Lanes, r: nat, st: ByteState, blocks: seq<Byte>): ByteState
    requires 0 < r <= 200 && |blocks| % r == 0 && |blocks| >= r
    decreases |blocks|
  {
    BlocksFollow(|blocks|, r);
    if |blocks| == r then XoredAt(st, 0, blocks)
    else BeforeLastPermutation(f, r, OnBytes(f, XoredAt(st, 0, blocks[..r])), blocks[r..])
  }

  // ----- the incremental meaning: one byte at a time

  datatype Absorbing = Absorbing(st: ByteState, pos: nat)

  function AbsorbByte(f: Lanes -> Lanes, r: nat, a: Absorbing, b: Byte): (a': Absorbing)
    requires 0 < r <= 200 && a.pos < r
    ensures a'.pos < r
  {
    var st := a.st[a.pos := XorByte(a.st[a.pos], b)];
    if a.pos + 1 == r then Absorbing(OnBytes(f, st), 0) else Absorbing(st, a.pos + 1)
  }

  function AbsorbAll(f: Lanes -> Lanes, r: nat, a: Absorbing, m: seq<Byte>): (a': Absorbing)
    requires 0 < r <= 200 && a.pos < r
    ensures a'.pos < r
    decreases |m|
  {
    if m == [] then a else AbsorbAll(f, r, AbsorbByte(f, r, a, m[0]), m[1..])
  }

  function Finalized(r: nat, a: Absorbing, p: Byte): ByteState
    requires 0 < r <= 200 && a.pos < r
  {
    var st := a.st[a.pos := XorByte(a.st[a.pos], p)];
    st[r - 1 := XorByte(st[r - 1], FINAL_BIT)]
  }

  /** left counts the bytes of the current block that are still to be handed out. */
  datatype Squeezing = Squeezing(st: ByteState, left: nat)

  function SqueezeByte(f: Lanes -> Lanes, r: nat, q: Squeezing): (out: (Squeezing, Byte))
    requires 0 < r <= 200 && q.left < r
    ensures out.0.left < r
  {
    if q.left > 0 then (Squeezing(q.st, q.left - 1), q.st[r - q.left])
    else
      var st := OnBytes(f, q.st);
      (Squeezing(st, r - 1), st[0])
  }

  function SqueezeState(f: Lanes -> Lanes, r: nat, q: Squeezing, n: nat): (q': Squeezing)
    requires 0 < r <= 200 && q.left < r
    ensures q'.left < r
    decreases n
  {
    if n == 0 then q else SqueezeState(f, r, SqueezeByte(f, r, q).0, n - 1)
  }

  function SqueezeOut(f: Lanes -> Lanes, r: nat, q: Squeezing, n: nat): (z: seq<Byte>)
    requires 0 < r <= 200 && q.left < r
    ensures |z| == n
    decreases n
  {
    if n == 0 then [] else
      var (q', b) := SqueezeByte(f, r, q);
      [b] + SqueezeOut(f, r, q', n - 1)
  }

  // ----- lanes and bytes carry the same information

  lemma LoadPrefixBytes(x: seq<Byte>, n: nat, k: nat)
    requires n <= |x| == 8 && k < 8
    ensures ByteOf(LoadPrefix(x, n), k) == if k < n then x[k] else ZERO_BYTE
  {
    hide ByteOf, Or, OrByte, ByteInLane;
    if n == 0 {
      ByteOfZero(k);
    } else {
      LoadPrefixBytes(x, n - 1, k);
      ByteOfPlaced(x[n - 1], n - 1, k);
      ByteOfOr(LoadPrefix(x, n - 1), ByteInLane(x[n - 1], n - 1), k);
      ZeroOr(x[n - 1]);
      OrZero(x[k]);
      OrZero(ZERO_BYTE);
    }
  }

  /** load64 undoes store64. */
  lemma LoadStore(w: Lane)
    ensures Load64(seq(8, j requires 0 <= j < 8 => ByteOf(w, j))) == w
  {
    hide ByteOf, LoadPrefix;
    var x := seq(8, j requires 0 <= j < 8 => ByteOf(w, j));
    forall k | 0 <= k < 8
      ensures ByteOf(Load64(x), k) == ByteOf(w, k)
    {
      LoadPrefixBytes(x, 8, k);
    }
    LaneExtensional(Load64(x), w);
  }

  lemma FromBytesOfBytes(s: Lanes)
    ensures FromBytes(Bytes(s)) == s
  {
    hide ByteOf, Load64;
    forall i | 0 <= i < 25
      ensures FromBytes(Bytes(s))[i] == s[i]
    {
      var x := seq(8, j requires 0 <= j < 8 => ByteOf(s[i], j));
      assert Bytes(s)[8 * i..8 * i + 8] == x;
      LoadStore(s[i]);
    }
  }

  lemma BytesOfFromBytes(b: ByteState)
    ensures Bytes(FromBytes(b)) == b
  {
    hide ByteOf, LoadPrefix;
    forall i | 0 <= i < 200
      ensures Bytes(FromBytes(b))[i] == b[i]
    {
      var x := b[8 * (i / 8)..8 * (i / 8) + 8];
      LoadPrefixBytes(x, 8, i % 8);
    }
  }

  /** On bytes, the permutation does what it does on lanes. */
  lemma OnBytesOfBytes(f: Lanes -> Lanes, s: Lanes)
    ensures OnBytes(f, Bytes(s)) == Bytes(f(s))
  {
    FromBytesOfBytes(s);
  }

  // ----- arithmetic of block counts

  lemma BlocksLeft(n: nat, r: nat)
    requires 0 < r && n % r == 0
    ensures n >= r ==> (n - r) % r == 0
    ensures n < r ==> n == 0
  {
    if n >= r {
      ModLess(n, r);
    }
  }

  /** After the first of several whole blocks at least one is left. */
  lemma BlocksFollow(n: nat, r: nat)
    requires 0 < r <= n && n % r == 0
    ensures (n - r) % r == 0 && (n > r ==> n - r >= r)
  {
    BlocksLeft(n, r);
    BlocksLeft(n - r, r);
  }

  lemma PadFills(m: seq<Byte>, r: nat, p: Byte)
    requires 0 < r
    ensures |Pad(m, r, p)| == r * (|m| / r + 1)
    ensures |Pad(m, r, p)| % r == 0 && |Pad(m, r, p)| >= r
  {
    ModUnique(|Pad(m, r, p)|, r, |m| / r + 1, 0);
  }
}
