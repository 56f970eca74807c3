/** What the byte-at-a-time machines have to do with the sponge of FIPS 202,
    and the laws of both, for every permutation, rate, message and length. */
module SpongeLaws {
  import opened Numbers
  import opened Words
  import opened SpongeSpec

  // ----- absorbing

  /** Absorbing does not see how the input was split into calls. */
  lemma {:induction false} AbsorbSplits(f: Lanes -> Lanes, r: nat, a: Absorbing, m1: seq<Byte>, m2: seq<Byte>)
    requires 0 < r <= 200 && a.pos < r
    ensures AbsorbAll(f, r, a, m1 + m2) == AbsorbAll(f, r, AbsorbAll(f, r, a, m1), m2)
    decreases |m1|
  {
    hide AbsorbByte;
    if m1 == [] {
      assert m1 + m2 == m2;
    } else {
      assert (m1 + m2)[1..] == m1[1..] + m2;
      AbsorbSplits(f, r, AbsorbByte(f, r, a, m1[0]), m1[1..], m2);
    }
  }

  lemma XoredOneMore(st: ByteState, pos: nat, m: seq<Byte>)
    requires pos + |m| <= 200 && m != []
    ensures XoredAt(st, pos, m) == XoredAt(st[pos := XorByte(st[pos], m[0])], pos + 1, m[1..])
  {
    hide XorByte;
  }

  /** Bytes that stay below the rate are XORed in and counted. */
  lemma {:induction false} AbsorbBelowRate(f: Lanes -> Lanes, r: nat, a: Absorbing, m: seq<Byte>)
    requires 0 < r <= 200 && a.pos + |m| < r
    ensures AbsorbAll(f, r, a, m) == Absorbing(XoredAt(a.st, a.pos, m), a.pos + |m|)
    decreases |m|
  {
    hide XorByte, XoredAt, OnBytes;
    if m == [] {
      XoredNothing(a.st, a.pos);
    } else {
      XoredOneMore(a.st, a.pos, m);
      AbsorbBelowRate(f, r, AbsorbByte(f, r, a, m[0]), m[1..]);
    }
  }

  lemma XoredNothing(st: ByteState, pos: nat)
    requires pos <= 200
    ensures XoredAt(st, pos, []) == st
  {
  }

  /** Filling the rate permutes and starts over. */
  lemma {:induction false} AbsorbFillsRate(f: Lanes -> Lanes, r: nat, a: Absorbing, m: seq<Byte>)
    requires 0 < r <= 200 && m != [] && a.pos + |m| == r
    ensures AbsorbAll(f, r, a, m) == Absorbing(OnBytes(f, XoredAt(a.st, a.pos, m)), 0)
    decreases |m|
  {
    hide XorByte, XoredAt, OnBytes;
    XoredOneMore(a.st, a.pos, m);
    var a' := AbsorbByte(f, r, a, m[0]);
    if |m| == 1 {
      XoredNothing(a.st[a.pos := XorByte(a.st[a.pos], m[0])], a.pos + 1);
      assert m[1..] == [];
      assert AbsorbAll(f, r, a', []) == a';
    } else {
      AbsorbFillsRate(f, r, a', m[1..]);
    }
  }

  /** One turn of the block loop of keccak_inc_absorb. */
  lemma AbsorbOneBlock(f: Lanes -> Lanes, r: nat, a: Absorbing, m: seq<Byte>)
    requires 0 < r <= 200 && a.pos < r <= a.pos + |m|
    ensures AbsorbAll(f, r, a, m) ==
            AbsorbAll(f, r, Absorbing(OnBytes(f, XoredAt(a.st, a.pos, m[..r - a.pos])), 0), m[r - a.pos..])
  {
    hide XoredAt, OnBytes, AbsorbAll;
    var k := r - a.pos;
    assert m == m[..k] + m[k..];
    AbsorbSplits(f, r, a, m[..k], m[k..]);
    AbsorbFillsRate(f, r, a, m[..k]);
  }

  /** The cursor counts the bytes since the last permutation. */
  lemma {:induction false} AbsorbCursor(f: Lanes -> Lanes, r: nat, a: Absorbing, m: seq<Byte>)
    requires 0 < r <= 200 && a.pos < r
    ensures AbsorbAll(f, r, a, m).pos == (a.pos + |m|) % r
    decreases |m|
  {
    hide OnBytes, XorByte;
    if m == [] {
      SmallMod(a.pos, r);
    } else {
      AbsorbCursor(f, r, AbsorbByte(f, r, a, m[0]), m[1..]);
      if a.pos + 1 == r {
        ModLess(a.pos + |m|, r);
      }
    }
  }

  lemma PadOfLongMessage(m: seq<Byte>, r: nat, p: Byte)
    requires 0 < r <= |m|
    ensures Pad(m, r, p)[..r] == m[..r]
    ensures Pad(m, r, p)[r..] == Pad(m[r..], r, p)
  {
    ModLess(|m|, r);
  }

  /** The whole blocks of a message are absorbed the same way by the sponge and
      by the byte machine. */
  lemma BeforeLastOfLongMessage(f: Lanes -> Lanes, r: nat, st: ByteState, m: seq<Byte>, p: Byte)
    requires 0 < r <= 200 && r <= |m|
    ensures |Pad(m, r, p)| % r == 0 && |Pad(m, r, p)| >= r
    ensures |Pad(m[r..], r, p)| % r == 0 && |Pad(m[r..], r, p)| >= r
    ensures BeforeLastPermutation(f, r, st, Pad(m, r, p)) ==
            BeforeLastPermutation(f, r, OnBytes(f, XoredAt(st, 0, m[..r])), Pad(m[r..], r, p))
  {
    hide XoredAt, OnBytes, Pad;
    PadFills(m, r, p);
    PadFills(m[r..], r, p);
    PadOfLongMessage(m, r, p);
    assert |Pad(m, r, p)| == r + |Pad(m[r..], r, p)|;
  }

  predicate TopBitClear(p: Byte) {
    p.bits & 0x80 == 0
  }

  /** OR and XOR of the final bit agree exactly when the domain byte leaves it clear. */
  lemma OrIsXor(p: Byte)
    ensures OrByte(p, FINAL_BIT) == XorByte(p, FINAL_BIT) <==> TopBitClear(p)
  {
  }

  /** The padded last block, byte by byte. */
  lemma PadOfShortMessage(m: seq<Byte>, r: nat, p: Byte)
    requires |m| < r
    ensures |Pad(m, r, p)| == r
    ensures forall i :: 0 <= i < |m| ==> Pad(m, r, p)[i] == m[i]
    ensures forall i :: |m| < i < r - 1 ==> Pad(m, r, p)[i] == ZERO_BYTE
    ensures |m| + 1 < r ==> Pad(m, r, p)[|m|] == p && Pad(m, r, p)[r - 1] == FINAL_BIT
    ensures |m| + 1 == r ==> Pad(m, r, p)[r - 1] == OrByte(p, FINAL_BIT)
  {
    hide OrByte;
    ModUnique(|m|, r, 0, |m|);
  }

  lemma FinalizeAwayFromEdge(r: nat, st: ByteState, m: seq<Byte>, p: Byte)
    requires 0 < r <= 200 && |m| + 1 < r
    ensures |Pad(m, r, p)| == r
    ensures Finalized(r, Absorbing(XoredAt(st, 0, m), |m|), p) == XoredAt(st, 0, Pad(m, r, p))
  {
    hide XorByte, OrByte, Pad;
    PadOfShortMessage(m, r, p);
    var left := Finalized(r, Absorbing(XoredAt(st, 0, m), |m|), p);
    forall i | 0 <= i < 200
      ensures left[i] == XoredAt(st, 0, Pad(m, r, p))[i]
    {
      XorZero(st[i]);
    }
  }

  lemma FinalizeAtEdge(r: nat, st: ByteState, m: seq<Byte>, p: Byte)
    requires 0 < r <= 200 && |m| + 1 == r
    ensures |Pad(m, r, p)| == r
    ensures Finalized(r, Absorbing(XoredAt(st, 0, m), |m|), p) == XoredAt(st, 0, Pad(m, r, p)) <==> TopBitClear(p)
  {
    hide XorByte, OrByte, Pad, TopBitClear;
    PadOfShortMessage(m, r, p);
    var left := Finalized(r, Absorbing(XoredAt(st, 0, m), |m|), p);
    var right := XoredAt(st, 0, Pad(m, r, p));
    assert left[r - 1] == XorByte(st[r - 1], XorByte(p, FINAL_BIT)) by {
      XorAssociative(st[r - 1], p, FINAL_BIT);
    }
    assert right[r - 1] == XorByte(st[r - 1], OrByte(p, FINAL_BIT));
    assert left[r - 1] == right[r - 1] <==> TopBitClear(p) by {
      XorCancels(st[r - 1], XorByte(p, FINAL_BIT), OrByte(p, FINAL_BIT));
      OrIsXor(p);
    }
    assert forall i :: 0 <= i < 200 && i != r - 1 ==> left[i] == right[i];
    if TopBitClear(p) {
      assert left == right;
    }
  }

  /** Finalizing after the last incomplete block is XORing in the padded block,
      exactly when the domain byte and the final bit do not collide. */
  lemma FinalizeShortMessage(f: Lanes -> Lanes, r: nat, st: ByteState, m: seq<Byte>, p: Byte)
    requires 0 < r <= 200 && |m| < r
    ensures |Pad(m, r, p)| == r
    ensures Finalized(r, AbsorbAll(f, r, Absorbing(st, 0), m), p) == XoredAt(st, 0, Pad(m, r, p))
            <==> (TopBitClear(p) || |m| + 1 < r)
  {
    hide XorByte, OrByte, OnBytes, AbsorbAll, TopBitClear, Pad, XoredAt, Finalized;
    AbsorbBelowRate(f, r, Absorbing(st, 0), m);
    if |m| + 1 < r {
      FinalizeAwayFromEdge(r, st, m, p);
    } else {
      FinalizeAtEdge(r, st, m, p);
    }
  }

  lemma XorCancels(s: Byte, a: Byte, b: Byte)
    ensures XorByte(s, a) == XorByte(s, b) <==> a == b
  {
    XorTwice(a, s);
    XorTwice(b, s);
    XorCommutes(s, a);
    XorCommutes(s, b);
  }

  /** The incremental interface and keccak_absorb reach the same 25 lanes, on every
      message, exactly when the domain byte has bit 7 clear or does not share a
      byte with the final bit. */
  lemma {:induction false} IncrementalMatchesOneShot(f: Lanes -> Lanes, r: nat, st: ByteState, m: seq<Byte>, p: Byte)
    requires 0 < r <= 200
    ensures |Pad(m, r, p)| % r == 0 && |Pad(m, r, p)| >= r
    ensures Finalized(r, AbsorbAll(f, r, Absorbing(st, 0), m), p) == BeforeLastPermutation(f, r, st, Pad(m, r, p))
            <==> (TopBitClear(p) || |m| % r != r - 1)
    decreases |m|
  {
    hide XoredAt, OnBytes, AbsorbAll, Finalized, Pad, TopBitClear;
    PadFills(m, r, p);
    if |m| < r {
      FinalizeShortMessage(f, r, st, m, p);
    } else {
      AbsorbOneBlock(f, r, Absorbing(st, 0), m);
      BeforeLastOfLongMessage(f, r, st, m, p);
      ModLess(|m|, r);
      IncrementalMatchesOneShot(f, r, OnBytes(f, XoredAt(st, 0, m[..r])), m[r..], p);
    }
  }

  /** The pre-permutation state is one application of f short of FIPS 202. */
  lemma {:induction false} LastPermutation(f: Lanes -> Lanes, r: nat, st: ByteState, blocks: seq<Byte>)
    requires 0 < r <= 200 && |blocks| % r == 0 && |blocks| >= r
    ensures OnBytes(f, BeforeLastPermutation(f, r, st, blocks)) == AbsorbBlocks(f, r, st, blocks)
    decreases |blocks|
  {
    hide XoredAt, OnBytes;
    BlocksLeft(|blocks|, r);
    var st' := OnBytes(f, XoredAt(st, 0, blocks[..r]));
    if |blocks| == r {
      assert blocks[..r] == blocks && blocks[r..] == [];
      assert AbsorbBlocks(f, r, st', []) == st';
    } else {
      BlocksLeft(|blocks[r..]|, r);
      LastPermutation(f, r, st', blocks[r..]);
    }
  }

  // ----- squeezing

  /** Squeezing does not see how the output was split into calls. */
  lemma {:induction false} SqueezeSplits(f: Lanes -> Lanes, r: nat, q: Squeezing, n1: nat, n2: nat)
    requires 0 < r <= 200 && q.left < r
    ensures SqueezeState(f, r, q, n1 + n2) == SqueezeState(f, r, SqueezeState(f, r, q, n1), n2)
    ensures SqueezeOut(f, r, q, n1 + n2) == SqueezeOut(f, r, q, n1) + SqueezeOut(f, r, SqueezeState(f, r, q, n1), n2)
    decreases n1
  {
    hide SqueezeByte;
    if n1 == 0 {
      assert SqueezeOut(f, r, q, 0) == [];
    } else {
      var (q', b) := SqueezeByte(f, r, q);
      SqueezeSplits(f, r, q', n1 - 1, n2);
      assert SqueezeOut(f, r, q, n1) == [b] + SqueezeOut(f, r, q', n1 - 1);
    }
  }

  /** The counter holds what the last permuted block has left. */
  lemma {:induction false} SqueezeCounter(f: Lanes -> Lanes, r: nat, q: Squeezing, n: nat)
    requires 0 < r <= 200 && q.left < r
    ensures SqueezeState(f, r, q, n).left == (q.left - n) % r
    decreases n
  {
    hide OnBytes;
    if n == 0 {
      SmallMod(q.left, r);
    } else {
      SqueezeCounter(f, r, SqueezeByte(f, r, q).0, n - 1);
      if q.left == 0 {
        ModLess(r - n, r);
      }
    }
  }

  /** Bytes still lying in the block are handed out from r - left on. */
  lemma {:induction false} SqueezeLeftover(f: Lanes -> Lanes, r: nat, q: Squeezing, n: nat)
    requires 0 < r <= 200 && n <= q.left < r
    ensures SqueezeState(f, r, q, n) == Squeezing(q.st, q.left - n)
    ensures SqueezeOut(f, r, q, n) == q.st[r - q.left..r - q.left + n]
    decreases n
  {
    hide OnBytes;
    var a := r - q.left;
    if n == 0 {
      assert q.st[a..a] == [];
    } else {
      var q' := Squeezing(q.st, q.left - 1);
      SqueezeLeftover(f, r, q', n - 1);
      assert SqueezeByte(f, r, q) == (q', q.st[a]);
      hide SqueezeByte;
      assert [q.st[a]] + q.st[a + 1..a + n] == q.st[a..a + n];
    }
  }

  /** An exhausted block costs one permutation. */
  lemma SqueezeFreshBlock(f: Lanes -> Lanes, r: nat, st: ByteState, n: nat)
    requires 0 < n <= r <= 200
    ensures SqueezeState(f, r, Squeezing(st, 0), n) == Squeezing(OnBytes(f, st), r - n)
    ensures SqueezeOut(f, r, Squeezing(st, 0), n) == OnBytes(f, st)[..n]
  {
    hide OnBytes;
    var st' := OnBytes(f, st);
    SqueezeLeftover(f, r, Squeezing(st', r - 1), n - 1);
    assert [st'[0]] + st'[1..n] == st'[..n];
  }

  lemma NothingSqueezed(f: Lanes -> Lanes, r: nat, q: Squeezing)
    requires 0 < r <= 200 && q.left < r
    ensures SqueezeOut(f, r, q, 0) == [] && SqueezeState(f, r, q, 0) == q
  {
  }

  /** From a finalized state the bytes are those of FIPS 202. */
  lemma {:induction false} SqueezeIsSponge(f: Lanes -> Lanes, r: nat, st: ByteState, n: nat)
    requires 0 < r <= 200
    ensures SqueezeOut(f, r, Squeezing(st, 0), n) == SqueezeBytes(f, r, OnBytes(f, st), n)
    decreases n
  {
    hide OnBytes, SqueezeState, SqueezeOut, SqueezeBytes;
    SqueezeBytesUnfold(f, r, OnBytes(f, st), n);
    if n == 0 {
      NothingSqueezed(f, r, Squeezing(st, 0));
    } else if n <= r {
      SqueezeFreshBlock(f, r, st, n);
    } else {
      SqueezeSplits(f, r, Squeezing(st, 0), r, n - r);
      SqueezeFreshBlock(f, r, st, r);
      SqueezeIsSponge(f, r, OnBytes(f, st), n - r);
    }
  }

  lemma SqueezeBytesUnfold(f: Lanes -> Lanes, r: nat, st: ByteState, d: nat)
    requires 0 < r <= 200
    ensures d <= r ==> SqueezeBytes(f, r, st, d) == st[..d]
    ensures d > r ==> SqueezeBytes(f, r, st, d) == st[..r] + SqueezeBytes(f, r, OnBytes(f, st), d - r)
  {
    hide OnBytes;
  }

  /** The state after n whole blocks. */
  function Permuted(f: Lanes -> Lanes, st: ByteState, n: nat): ByteState
    decreases n
  {
    if n == 0 then st else Permuted(f, OnBytes(f, st), n - 1)
  }

  /** The n blocks keccak_squeezeblocks writes: permute, then copy out the rate. */
  function BlocksOut(f: Lanes -> Lanes, r: nat, st: ByteState, n: nat): (z: seq<Byte>)
    requires 0 < r <= 200
    ensures |z| == n * r
    decreases n
  {
    if n == 0 then []
    else
      assert n * r == r + (n - 1) * r;
      OnBytes(f, st)[..r] + BlocksOut(f, r, OnBytes(f, st), n - 1)
  }

  /** Squeezing n * r bytes from a finalized state is squeezing n blocks. */
  lemma {:induction false} SqueezeWholeBlocks(f: Lanes -> Lanes, r: nat, st: ByteState, n: nat)
    requires 0 < r <= 200
    ensures 0 <= n * r
    ensures SqueezeOut(f, r, Squeezing(st, 0), n * r) == BlocksOut(f, r, st, n)
    ensures SqueezeState(f, r, Squeezing(st, 0), n * r) == Squeezing(Permuted(f, st, n), 0)
    decreases n
  {
    hide OnBytes, SqueezeByte;
    if n == 0 {
      assert n * r == 0;
    } else {
      assert n * r == r + (n - 1) * r;
      SqueezeWholeBlocks(f, r, OnBytes(f, st), n - 1);
      SqueezeSplits(f, r, Squeezing(st, 0), r, (n - 1) * r);
      SqueezeFreshBlock(f, r, st, r);
    }
  }

  /** A shorter output is a prefix of a longer one. */
  lemma {:induction false} ShorterIsPrefix(f: Lanes -> Lanes, r: nat, st: ByteState, d: nat, e: nat)
    requires 0 < r <= 200 && d <= e
    ensures SqueezeBytes(f, r, st, d) == SqueezeBytes(f, r, st, e)[..d]
    decreases d
  {
    hide OnBytes, SqueezeBytes;
    SqueezeBytesUnfold(f, r, st, d);
    SqueezeBytesUnfold(f, r, st, e);
    if d > r {
      ShorterIsPrefix(f, r, OnBytes(f, st), d - r, e - r);
      var rest := SqueezeBytes(f, r, OnBytes(f, st), e - r);
      assert (st[..r] + rest)[..d] == st[..r] + rest[..d - r];
    } else if e > r {
      assert (st[..r] + SqueezeBytes(f, r, OnBytes(f, st), e - r))[..d] == st[..d];
    } else {
      assert st[..e][..d] == st[..d];
    }
  }

  // ----- whole runs of the incremental interface

  function Concat(ms: seq<seq<Byte>>): seq<Byte> {
    if ms == [] then [] else ms[0] + Concat(ms[1..])
  }

  function Total(ns: seq<nat>): nat {
    if ns == [] then 0 else ns[0] + Total(ns[1..])
  }

  /** One absorb call after another. */
  function AbsorbCalls(f: Lanes -> Lanes, r: nat, a: Absorbing, ms: seq<seq<Byte>>): (a': Absorbing)
    requires 0 < r <= 200 && a.pos < r
    ensures a'.pos < r
    decreases |ms|
  {
    if ms == [] then a else AbsorbCalls(f, r, AbsorbAll(f, r, a, ms[0]), ms[1..])
  }

  /** The concatenated output of one squeeze call after another. */
  function SqueezeCalls(f: Lanes -> Lanes, r: nat, q: Squeezing, ns: seq<nat>): seq<Byte>
    requires 0 < r <= 200 && q.left < r
    decreases |ns|
  {
    if ns == [] then []
    else SqueezeOut(f, r, q, ns[0]) + SqueezeCalls(f, r, SqueezeState(f, r, q, ns[0]), ns[1..])
  }

  lemma {:induction false} AbsorbCallsConcat(f: Lanes -> Lanes, r: nat, a: Absorbing, ms: seq<seq<Byte>>)
    requires 0 < r <= 200 && a.pos < r
    ensures AbsorbCalls(f, r, a, ms) == AbsorbAll(f, r, a, Concat(ms))
    decreases |ms|
  {
    if ms != [] {
      AbsorbSplits(f, r, a, ms[0], Concat(ms[1..]));
      AbsorbCallsConcat(f, r, AbsorbAll(f, r, a, ms[0]), ms[1..]);
    }
  }

  lemma {:induction false} SqueezeCallsTotal(f: Lanes -> Lanes, r: nat, q: Squeezing, ns: seq<nat>)
    requires 0 < r <= 200 && q.left < r
    ensures SqueezeCalls(f, r, q, ns) == SqueezeOut(f, r, q, Total(ns))
    decreases |ns|
  {
    if ns != [] {
      SqueezeSplits(f, r, q, ns[0], Total(ns[1..]));
      SqueezeCallsTotal(f, r, SqueezeState(f, r, q, ns[0]), ns[1..]);
    }
  }

  /** Whatever the split into absorb and squeeze calls, the incremental interface
      computes the sponge of FIPS 202 on the concatenated message. */
  lemma IncrementalRunIsSponge(f: Lanes -> Lanes, r: nat, p: Byte, ms: seq<seq<Byte>>, ns: seq<nat>)
    requires 0 < r <= 200
    requires TopBitClear(p) || |Concat(ms)| % r != r - 1
    ensures SqueezeCalls(f, r, Squeezing(Finalized(r, AbsorbCalls(f, r, Absorbing(ZeroState(), 0), ms), p), 0), ns)
            == Sponge(f, r, p, Concat(ms), Total(ns))
  {
    hide OnBytes, AbsorbAll, SqueezeOut, Finalized, Pad, TopBitClear;
    var m := Concat(ms);
    AbsorbCallsConcat(f, r, Absorbing(ZeroState(), 0), ms);
    IncrementalMatchesOneShot(f, r, ZeroState(), m, p);
    var st := BeforeLastPermutation(f, r, ZeroState(), Pad(m, r, p));
    SqueezeCallsTotal(f, r, Squeezing(st, 0), ns);
    SqueezeIsSponge(f, r, st, Total(ns));
    LastPermutation(f, r, ZeroState(), Pad(m, r, p));
  }
}
