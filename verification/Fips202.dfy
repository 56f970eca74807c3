/** The sponge code of firmware/fips202_lca.c, over any permutation f: the one-shot
    path on a bare lane array and the incremental path on a context with a cursor.
    Instantiating f with KeccakF1600.KeccakF gives the code as shipped. */
module Fips202 {
  import opened Numbers
  import opened Words
  import opened SpongeSpec
  import opened SpongeLaws
  import opened Padding

  // ----- lanes and bytes of memory

  /** Memory after block was written over it from position at on. */
  function Wrote(before: seq<Byte>, at: nat, block: seq<Byte>): (after: seq<Byte>)
    requires at + |block| <= |before|
    ensures |after| == |before|
  {
    before[..at] + block + before[at + |block|..]
  }

  lemma WroteNothing(before: seq<Byte>, at: nat)
    requires at <= |before|
    ensures Wrote(before, at, []) == before
  {
  }

  /** Writing right behind what was already written. */
  lemma WroteBehind(before: seq<Byte>, at: nat, a: seq<Byte>, b: seq<Byte>)
    requires at + |a| + |b| <= |before|
    ensures Wrote(Wrote(before, at, a), at + |a|, b) == Wrote(before, at, a + b)
  {
  }

  /** KeccakF1600_StatePermute, in place. */
  method StatePermute(f: Lanes -> Lanes, state: array<Lane>)
    requires state.Length == 25
    modifies state
    ensures state[..] == f(old(state[..]))
  {
    var after := f(state[..]);
    forall i | 0 <= i < 25 {
      state[i] := after[i];
    }
  }

  method LoadLane(x: seq<Byte>) returns (r: Lane)
    requires |x| == 8
    ensures r == Load64(x)
  {
    hide ByteInLane, Or;
    r := ZERO_LANE;
    for i := 0 to 8
      invariant r == LoadPrefix(x, i)
    {
      r := Or(r, ByteInLane(x[i], i));
    }
  }

  function StoredBytes(u: Lane): (x: seq<Byte>)
    ensures |x| == 8
  {
    seq(8, j requires 0 <= j < 8 => ByteOf(u, j))
  }

  method StoreLane(x: array<Byte>, at: nat, u: Lane)
    requires at + 8 <= x.Length
    modifies x
    ensures x[..] == Wrote(old(x[..]), at, StoredBytes(u))
  {
    hide ByteOf;
    for i := 0 to 8
      invariant forall k :: 0 <= k < i ==> x[at + k] == StoredBytes(u)[k]
      invariant x[..at] == old(x[..at]) && x[at + 8..] == old(x[at + 8..])
    {
      x[at + i] := ByteOf(u, i);
    }
  }

  /** One more byte behind what was written is one update. */
  lemma WroteByte(before: seq<Byte>, at: nat, a: seq<Byte>, b: Byte)
    requires at + |a| < |before|
    ensures Wrote(before, at, a)[at + |a| := b] == Wrote(before, at, a + [b])
  {
  }

  lemma ByteAt(s: Lanes, i: nat)
    requires i < 200
    ensures Bytes(s)[i] == ByteOf(s[i / 8], i % 8)
  {
  }

  // ----- the bytes of a state whose lanes were XORed

  /** XORing a placed byte into a lane touches that byte of the state only. */
  lemma XorByteIntoLane(s: Lanes, pos: nat, b: Byte)
    requires pos < 200
    ensures Bytes(s[pos / 8 := Xor(s[pos / 8], ByteInLane(b, pos % 8))])
            == Bytes(s)[pos := XorByte(Bytes(s)[pos], b)]
  {
    hide ByteOf, Xor, XorByte, ByteInLane;
    var t := s[pos / 8 := Xor(s[pos / 8], ByteInLane(b, pos % 8))];
    forall i | 0 <= i < 200
      ensures Bytes(t)[i] == Bytes(s)[pos := XorByte(Bytes(s)[pos], b)][i]
    {
      if i / 8 == pos / 8 {
        ByteOfXor(s[pos / 8], ByteInLane(b, pos % 8), i % 8);
        ByteOfPlaced(b, pos % 8, i % 8);
        XorZero(ByteOf(s[i / 8], i % 8));
      }
    }
  }

  /** XORing loaded lanes into the front of the state XORs the bytes they came from. */
  lemma XorLanesAreBytes(s: Lanes, t: Lanes, r: nat, m: seq<Byte>)
    requires ValidRate(r) && |m| == r
    requires forall i :: 0 <= i < r / 8 ==> t[i] == Xor(s[i], Load64(m[8 * i..8 * i + 8]))
    requires forall i :: r / 8 <= i < 25 ==> t[i] == s[i]
    ensures Bytes(t) == XoredAt(Bytes(s), 0, m)
  {
    hide ByteOf, Xor, XorByte, LoadPrefix;
    forall i | 0 <= i < 200
      ensures Bytes(t)[i] == XoredAt(Bytes(s), 0, m)[i]
    {
      if i < r {
        var j := i / 8;
        ByteOfXor(s[j], Load64(m[8 * j..8 * j + 8]), i % 8);
        LoadPrefixBytes(m[8 * j..8 * j + 8], 8, i % 8);
      }
    }
  }

  lemma ZeroLanesAreBytes(s: Lanes)
    requires forall i :: 0 <= i < 25 ==> s[i] == ZERO_LANE
    ensures Bytes(s) == ZeroState()
  {
    hide ByteOf;
    forall i | 0 <= i < 200
      ensures Bytes(s)[i] == ZERO_BYTE
    {
      ByteOfZero(i % 8);
    }
  }

  // ----- one-shot path

  /** The lane loop of keccak_absorb: s[i] ^= load64(m + 8 * i). */
  method XorBlock(s: array<Lane>, r: nat, m: seq<Byte>)
    requires s.Length == 25 && ValidRate(r) && |m| >= r
    modifies s
    ensures Bytes(s[..]) == XoredAt(Bytes(old(s[..])), 0, m[..r])
  {
    hide Xor, Load64, XoredAt, Bytes;
    ghost var before: Lanes := s[..];
    for i := 0 to r / 8
      invariant forall k :: 0 <= k < i ==> s[k] == Xor(before[k], Load64(m[..r][8 * k..8 * k + 8]))
      invariant forall k :: i <= k < 25 ==> s[k] == before[k]
    {
      assert m[8 * i..8 * i + 8] == m[..r][8 * i..8 * i + 8];
      var w := LoadLane(m[8 * i..8 * i + 8]);
      s[i] := Xor(s[i], w);
    }
    XorLanesAreBytes(before, s[..], r, m[..r]);
  }

  /** The last, padded block of keccak_absorb, built in a zeroed buffer. */
  method PaddedBlock(r: nat, m: seq<Byte>, p: Byte) returns (t: array<Byte>)
    requires ValidRate(r) && |m| < r
    ensures fresh(t) && t.Length == 200
    ensures t[..r] == Pad(m, r, p)
  {
    hide OrByte, Pad;
    t := new Byte[200](_ => ZERO_BYTE);
    for i := 0 to r
      invariant forall k :: 0 <= k < i ==> t[k] == ZERO_BYTE
    {
      t[i] := ZERO_BYTE;
    }
    for i := 0 to |m|
      invariant forall k :: 0 <= k < i ==> t[k] == m[k]
      invariant forall k :: i <= k < r ==> t[k] == ZERO_BYTE
    {
      t[i] := m[i];
    }
    t[|m|] := p;
    t[r - 1] := OrByte(t[r - 1], FINAL_BIT);
    PadOfShortMessage(m, r, p);
    ZeroOr(FINAL_BIT);
  }

  /** keccak_absorb (firmware/fips202_lca.c:382-413). */
  method KeccakAbsorb(f: Lanes -> Lanes, s: array<Lane>, r: nat, m: seq<Byte>, p: Byte)
    requires s.Length == 25 && ValidRate(r)
    modifies s
    ensures |Pad(m, r, p)| % r == 0 && |Pad(m, r, p)| >= r
    ensures Bytes(s[..]) == BeforeLastPermutation(f, r, ZeroState(), Pad(m, r, p))
  {
    hide XoredAt, Bytes, Pad, OnBytes;
    for i := 0 to 25
      invariant forall k :: 0 <= k < i ==> s[k] == ZERO_LANE
    {
      s[i] := ZERO_LANE;
    }
    ZeroLanesAreBytes(s[..]);
    PadFills(m, r, p);
    var rest := m;
    while |rest| >= r
      invariant |Pad(rest, r, p)| % r == 0 && |Pad(rest, r, p)| >= r
      invariant BeforeLastPermutation(f, r, Bytes(s[..]), Pad(rest, r, p))
                == BeforeLastPermutation(f, r, ZeroState(), Pad(m, r, p))
      decreases |rest|
    {
      BeforeLastOfLongMessage(f, r, Bytes(s[..]), rest, p);
      XorBlock(s, r, rest);
      OnBytesOfBytes(f, s[..]);
      StatePermute(f, s);
      rest := rest[r..];
    }
    var t := PaddedBlock(r, rest, p);
    PadOfShortMessage(rest, r, p);
    assert t[..][..r] == Pad(rest, r, p);
    XorBlock(s, r, t[..]);
  }

  lemma StoredLanes(s: Lanes, i: nat)
    requires i < 25
    ensures Bytes(s)[8 * i..8 * i + 8] == StoredBytes(s[i])
  {
    hide ByteOf;
  }

  /** The first of n blocks. */
  lemma FirstBlock(f: Lanes -> Lanes, r: nat, st: ByteState, n: nat)
    requires 0 < r <= 200 && n > 0
    ensures n * r == r + (n - 1) * r
    ensures BlocksOut(f, r, st, n) == OnBytes(f, st)[..r] + BlocksOut(f, r, OnBytes(f, st), n - 1)
    ensures Permuted(f, st, n) == Permuted(f, OnBytes(f, st), n - 1)
  {
    hide OnBytes;
  }

  lemma NoBlocks(f: Lanes -> Lanes, r: nat, st: ByteState)
    requires 0 < r <= 200
    ensures BlocksOut(f, r, st, 0) == [] && Permuted(f, st, 0) == st && 0 * r == 0
  {
  }

  /** keccak_squeezeblocks (firmware/fips202_lca.c:428-438), writing from h[at]. */
  method KeccakSqueezeBlocks(f: Lanes -> Lanes, h: array<Byte>, at: nat, nblocks: nat, s: array<Lane>, r: nat)
    requires s.Length == 25 && ValidRate(r)
    requires at + nblocks * r <= h.Length
    modifies h, s
    ensures Bytes(s[..]) == Permuted(f, Bytes(old(s[..])), nblocks)
    ensures h[..] == Wrote(old(h[..]), at, BlocksOut(f, r, Bytes(old(s[..])), nblocks))
  {
    hide Bytes, OnBytes, BlocksOut, Permuted, Wrote;
    var left: nat := nblocks;
    var to: nat := at;
    ghost var start := Bytes(s[..]);
    ghost var before := h[..];
    ghost var out: seq<Byte> := [];
    WroteNothing(before, at);
    while left > 0
      invariant to == at + |out| && to + left * r == at + nblocks * r
      invariant h[..] == Wrote(before, at, out)
      invariant Permuted(f, Bytes(s[..]), left) == Permuted(f, start, nblocks)
      invariant out + BlocksOut(f, r, Bytes(s[..]), left) == BlocksOut(f, r, start, nblocks)
      decreases left
    {
      ghost var st := Bytes(s[..]);
      FirstBlock(f, r, st, left);
      OnBytesOfBytes(f, s[..]);
      StatePermute(f, s);
      ghost var block := Bytes(s[..])[..r];
      StoreRate(h, to, s, r);
      WroteBehind(before, at, out, block);
      Regroup(out, block, BlocksOut(f, r, OnBytes(f, st), left - 1));
      out := out + block;
      to := to + r;
      left := left - 1;
    }
    NoBlocks(f, r, Bytes(s[..]));
    assert out + [] == out;
  }

  lemma Regroup(a: seq<Byte>, b: seq<Byte>, c: seq<Byte>)
    ensures a + (b + c) == a + b + c
  {
  }

  /** The lane loop of keccak_squeezeblocks: store64(h + 8 * i, s[i]). */
  method StoreRate(h: array<Byte>, to: nat, s: array<Lane>, r: nat)
    requires s.Length == 25 && ValidRate(r) && to + r <= h.Length
    modifies h
    ensures h[..] == Wrote(old(h[..]), to, Bytes(s[..])[..r])
  {
    hide Bytes, StoredBytes, Wrote;
    ghost var b := Bytes(s[..]);
    ghost var before := h[..];
    WroteNothing(before, to);
    for i := 0 to r / 8
      invariant h[..] == Wrote(before, to, b[..8 * i])
    {
      StoreLane(h, to + 8 * i, s[i]);
      StoredLanes(s[..], i);
      WroteBehind(before, to, b[..8 * i], b[8 * i..8 * i + 8]);
      assert b[..8 * i] + b[8 * i..8 * i + 8] == b[..8 * i + 8];
    }
  }

  /** The block count of shake128 and shake256 and what is left. */
  method WholeBlocks(outlen: nat, r: nat) returns (nblocks: nat, whole: nat, rest: nat)
    requires 0 < r
    ensures whole == nblocks * r && whole + rest == outlen && rest < r
  {
    QuotientNonNegative(outlen, r);
    ModRange(outlen, r);
    QuotientRemainder(outlen, r);
    nblocks := outlen / r;
    ProductNonNegative(nblocks, r);
    whole := nblocks * r;
    rest := outlen - whole;
  }

  /** shake128 and shake256 (firmware/fips202_lca.c:728-778): whole blocks straight
      into the output, a last partial block through a buffer. */
  method Shake(f: Lanes -> Lanes, r: nat, output: array<Byte>, outlen: nat, input: seq<Byte>)
    requires ValidRate(r) && outlen <= output.Length
    modifies output
    ensures output[..] == Wrote(old(output[..]), 0, Sponge(f, r, SHAKE_DOMAIN, input, outlen))
  {
    hide Bytes, OnBytes, Pad, BlocksOut, SqueezeBytes, Permuted, Wrote;
    var s := new Lane[25](_ => ZERO_LANE);
    KeccakAbsorb(f, s, r, input, SHAKE_DOMAIN);
    ghost var st := Bytes(s[..]);
    ghost var before := output[..];
    var nblocks, whole, rest := WholeBlocks(outlen, r);
    KeccakSqueezeBlocks(f, output, 0, nblocks, s, r);
    ghost var out := BlocksOut(f, r, st, nblocks);
    WholeAndPartialBlocks(f, r, st, nblocks, rest);
    LastPermutation(f, r, ZeroState(), Pad(input, r, SHAKE_DOMAIN));
    if rest > 0 {
      var t := SqueezeOneBlock(f, s, r);
      CopyFront(output, whole, t, rest);
      WroteBehind(before, 0, out, t[..rest]);
    } else {
      assert out + [] == out;
    }
  }

  /** keccak_squeezeblocks for one block into a fresh buffer t. */
  method SqueezeOneBlock(f: Lanes -> Lanes, s: array<Lane>, r: nat) returns (t: array<Byte>)
    requires s.Length == 25 && ValidRate(r)
    modifies s
    ensures fresh(t) && t.Length == r
    ensures forall n :: 0 <= n <= r ==> t[..n] == OnBytes(f, Bytes(old(s[..])))[..n]
  {
    hide Bytes, OnBytes;
    t := new Byte[r](_ => ZERO_BYTE);
    ghost var st := Bytes(s[..]);
    OneBlockOut(f, r, st);
    KeccakSqueezeBlocks(f, t, 0, 1, s, r);
    assert t[..] == OnBytes(f, st)[..r];
    forall n | 0 <= n <= r
      ensures t[..n] == OnBytes(f, st)[..n]
    {
      assert t[..n] == t[..][..n];
    }
  }

  /** The byte loop that moves the front of a block buffer to the output. */
  method CopyFront(output: array<Byte>, to: nat, t: array<Byte>, n: nat)
    requires output != t && to + n <= output.Length && n <= t.Length
    modifies output
    ensures output[..] == Wrote(old(output[..]), to, t[..n])
  {
    hide Wrote;
    ghost var before := output[..];
    WroteNothing(before, to);
    for i := 0 to n
      invariant output[..] == Wrote(before, to, t[..i])
    {
      WroteByte(before, to, t[..i], t[i]);
      output[to + i] := t[i];
      assert t[..i] + [t[i]] == t[..i + 1];
    }
  }

  lemma OneBlockOut(f: Lanes -> Lanes, r: nat, st: ByteState)
    requires 0 < r <= 200
    ensures 1 * r == r
    ensures BlocksOut(f, r, st, 1) == OnBytes(f, st)[..r]
  {
    hide OnBytes;
    assert BlocksOut(f, r, OnBytes(f, st), 0) == [];
  }

  /** n whole blocks and the front of one more are the first bytes of the sponge. */
  lemma WholeAndPartialBlocks(f: Lanes -> Lanes, r: nat, st: ByteState, n: nat, rest: nat)
    requires 0 < r <= 200 && rest < r
    ensures SqueezeBytes(f, r, OnBytes(f, st), n * r + rest)
            == BlocksOut(f, r, st, n) + (if rest > 0 then OnBytes(f, Permuted(f, st, n))[..rest] else [])
  {
    hide OnBytes, SqueezeOut, BlocksOut, Permuted, SqueezeState, SqueezeBytes;
    SqueezeIsSponge(f, r, st, n * r + rest);
    SqueezeSplits(f, r, Squeezing(st, 0), n * r, rest);
    SqueezeWholeBlocks(f, r, st, n);
    if rest > 0 {
      SqueezeFreshBlock(f, r, Permuted(f, st, n), rest);
    } else {
      assert SqueezeOut(f, r, Squeezing(Permuted(f, st, n), 0), 0) == [];
    }
  }

  /** sha3_256, sha3_384 and sha3_512 (firmware/fips202_lca.c:826-839, 887-900, 948-961):
      one block, of which the digest is the front. */
  method Sha3(f: Lanes -> Lanes, r: nat, output: array<Byte>, dlen: nat, input: seq<Byte>)
    requires ValidRate(r) && dlen <= r && dlen <= output.Length
    modifies output
    ensures output[..] == Wrote(old(output[..]), 0, Sponge(f, r, SHA3_DOMAIN, input, dlen))
  {
    hide Bytes, OnBytes, Pad, Wrote;
    var s := new Lane[25](_ => ZERO_LANE);
    KeccakAbsorb(f, s, r, input, SHA3_DOMAIN);
    var t := SqueezeOneBlock(f, s, r);
    CopyFront(output, 0, t, dlen);
    LastPermutation(f, r, ZeroState(), Pad(input, r, SHA3_DOMAIN));
  }

  // ----- incremental path

  /** The 26-word context: 25 lanes and a cursor. Before finalize the cursor counts
      bytes absorbed but not permuted, after it bytes not yet squeezed. Every lane
      write below is checked to stay inside the 25 lanes, so none can reach the
      cursor's word. */
  class IncContext {
    const lanes: array<Lane>
    var cursor: nat

    ghost predicate Valid(r: nat)
      reads this
    {
      lanes.Length == 25 && ValidRate(r) && cursor < r
    }

    ghost function State(): ByteState
      requires lanes.Length == 25
      reads this, lanes
    {
      Bytes(lanes[..])
    }

    /** The memory malloc hands out, before keccak_inc_init. */
    constructor ()
      ensures fresh(lanes) && lanes.Length == 25
    {
      lanes := new Lane[25](_ => ZERO_LANE);
      cursor := 0;
    }

    /** keccak_inc_init (firmware/fips202_lca.c:450-457). */
    method Init()
      requires lanes.Length == 25
      modifies this, lanes
      ensures State() == ZeroState() && cursor == 0
    {
      for i := 0 to 25
        invariant forall k :: 0 <= k < i ==> lanes[k] == ZERO_LANE
      {
        lanes[i] := ZERO_LANE;
      }
      ZeroLanesAreBytes(lanes[..]);
      cursor := 0;
    }

    /** The byte loop of keccak_inc_absorb: n bytes from the cursor on. */
    method XorBytes(m: seq<Byte>, n: nat)
      requires lanes.Length == 25 && n <= |m| && cursor + n <= 200
      modifies lanes
      ensures State() == XoredAt(old(State()), cursor, m[..n])
    {
      hide Xor, ByteInLane, Bytes;
      ghost var st := State();
      assert st == XoredAt(st, cursor, []) by {
        XoredNothing(st, cursor);
      }
      for i := 0 to n
        invariant State() == XoredAt(st, cursor, m[..i])
      {
        var pos := cursor + i;
        XorByteIntoLane(lanes[..], pos, m[i]);
        lanes[pos / 8] := Xor(lanes[pos / 8], ByteInLane(m[i], pos % 8));
        XoredAppend(st, cursor, m[..i], m[i]);
        assert m[..i] + [m[i]] == m[..i + 1];
      }
    }

    /** keccak_inc_absorb (firmware/fips202_lca.c:473-495). */
    method Absorb(f: Lanes -> Lanes, r: nat, m: seq<Byte>)
      requires Valid(r)
      modifies this, lanes
      ensures Valid(r)
      ensures Absorbing(State(), cursor) == AbsorbAll(f, r, Absorbing(old(State()), old(cursor)), m)
    {
      hide XoredAt, Bytes, OnBytes, AbsorbAll;
      var rest := m;
      ghost var start := Absorbing(State(), cursor);
      while |rest| + cursor >= r
        invariant Valid(r)
        invariant AbsorbAll(f, r, Absorbing(State(), cursor), rest) == AbsorbAll(f, r, start, m)
        decreases |rest|
      {
        AbsorbOneBlock(f, r, Absorbing(State(), cursor), rest);
        XorBytes(rest, r - cursor);
        OnBytesOfBytes(f, lanes[..]);
        rest := rest[r - cursor..];
        cursor := 0;
        StatePermute(f, lanes);
      }
      AbsorbBelowRate(f, r, Absorbing(State(), cursor), rest);
      assert rest[..|rest|] == rest;
      XorBytes(rest, |rest|);
      cursor := cursor + |rest|;
    }

    /** keccak_inc_finalize (firmware/fips202_lca.c:510-516). */
    method Finalize(r: nat, p: Byte)
      requires Valid(r)
      modifies this, lanes
      ensures Valid(r) && cursor == 0
      ensures State() == Finalized(r, Absorbing(old(State()), old(cursor)), p)
    {
      hide Xor, ByteInLane, Bytes, XorByte;
      XorByteIntoLane(lanes[..], cursor, p);
      lanes[cursor / 8] := Xor(lanes[cursor / 8], ByteInLane(p, cursor % 8));
      XorByteIntoLane(lanes[..], r - 1, FINAL_BIT);
      lanes[(r - 1) / 8] := Xor(lanes[(r - 1) / 8], ByteInLane(FINAL_BIT, (r - 1) % 8));
      cursor := 0;
    }

    /** A byte loop of keccak_inc_squeeze: n state bytes from position from on. */
    method CopyOut(h: array<Byte>, to: nat, from: nat, n: nat)
      requires lanes.Length == 25 && from + n <= 200 && to + n <= h.Length
      modifies h
      ensures h[..] == Wrote(old(h[..]), to, State()[from..from + n])
    {
      hide ByteOf, Wrote, Bytes;
      ghost var before := h[..];
      ghost var st := State();
      WroteNothing(before, to);
      assert st[from..from] == [];
      for i := 0 to n
        invariant h[..] == Wrote(before, to, st[from..from + i])
      {
        ByteAt(lanes[..], from + i);
        WroteByte(before, to, st[from..from + i], st[from + i]);
        h[to + i] := ByteOf(lanes[(from + i) / 8], (from + i) % 8);
        assert st[from..from + i] + [st[from + i]] == st[from..from + i + 1];
      }
    }

    /** The block loop of keccak_inc_squeeze, entered with no bytes left over. */
    method SqueezeBlocks(f: Lanes -> Lanes, r: nat, h: array<Byte>, at: nat, outlen: nat)
      requires Valid(r) && cursor == 0 && at + outlen <= h.Length
      modifies this, lanes, h
      ensures Valid(r)
      ensures Squeezing(State(), cursor) == SqueezeState(f, r, Squeezing(old(State()), 0), outlen)
      ensures h[..] == Wrote(old(h[..]), at, SqueezeOut(f, r, Squeezing(old(State()), 0), outlen))
    {
      hide Bytes, OnBytes, SqueezeByte, SqueezeState, SqueezeOut, Wrote;
      ghost var start := Squeezing(State(), 0);
      ghost var before := h[..];
      SqueezeLeftover(f, r, start, 0);
      WroteNothing(before, at);
      var to := at;
      var left: nat := outlen;
      ghost var done: nat := 0;
      while left > 0
        invariant Valid(r) && (left > 0 ==> cursor == 0)
        invariant to == at + done && done + left == outlen
        invariant h[..] == Wrote(before, at, SqueezeOut(f, r, start, done))
        invariant Squeezing(State(), cursor) == SqueezeState(f, r, start, done)
        decreases left
      {
        ghost var st := State();
        OnBytesOfBytes(f, lanes[..]);
        StatePermute(f, lanes);
        var n := if left < r then left else r;
        SqueezeSplits(f, r, start, done, n);
        SqueezeFreshBlock(f, r, st, n);
        CopyOut(h, to, 0, n);
        WroteBehind(before, at, SqueezeOut(f, r, start, done), State()[..n]);
        to := to + n;
        left := left - n;
        done := done + n;
        cursor := r - n;
      }
    }

    /** keccak_inc_squeeze (firmware/fips202_lca.c:531-556), writing from h[at]. */
    method Squeeze(f: Lanes -> Lanes, r: nat, h: array<Byte>, at: nat, outlen: nat)
      requires Valid(r) && at + outlen <= h.Length
      modifies this, lanes, h
      ensures Valid(r)
      ensures Squeezing(State(), cursor) == SqueezeState(f, r, Squeezing(old(State()), old(cursor)), outlen)
      ensures h[..] == Wrote(old(h[..]), at, SqueezeOut(f, r, Squeezing(old(State()), old(cursor)), outlen))
    {
      hide Bytes, SqueezeState, SqueezeOut, Wrote;
      ghost var start := Squeezing(State(), cursor);
      ghost var before := h[..];
      var n := if outlen < cursor then outlen else cursor;
      CopyOut(h, at, r - cursor, n);
      SqueezeLeftover(f, r, start, n);
      cursor := cursor - n;
      SqueezeSplits(f, r, start, n, outlen - n);
      if outlen > n {
        SqueezeBlocks(f, r, h, at + n, outlen - n);
        WroteBehind(before, at, SqueezeOut(f, r, start, n), SqueezeOut(f, r, Squeezing(start.st, 0), outlen - n));
      }
    }
  }

  /** sha3_*_inc_finalize (firmware/fips202_lca.c:804-816, 865-877, 926-938): finalize,
      one block, the front of it. */
  method Sha3IncFinalize(f: Lanes -> Lanes, r: nat, output: array<Byte>, dlen: nat, ctx: IncContext)
    requires ctx.Valid(r) && dlen <= r && dlen <= output.Length
    modifies ctx, ctx.lanes, output
    ensures output[..] == Wrote(old(output[..]), 0,
              SqueezeBytes(f, r, OnBytes(f, Finalized(r, Absorbing(old(ctx.State()), old(ctx.cursor)), SHA3_DOMAIN)), dlen))
  {
    hide Bytes, OnBytes, Finalized, Wrote;
    ctx.Finalize(r, SHA3_DOMAIN);
    var t := SqueezeOneBlock(f, ctx.lanes, r);
    CopyFront(output, 0, t, dlen);
  }

  /** Absorbed in any number of calls, the incremental digest is the one-shot one. */
  lemma Sha3IncrementalIsSponge(f: Lanes -> Lanes, r: nat, ms: seq<seq<Byte>>, dlen: nat)
    requires 0 < r <= 200
    ensures SqueezeBytes(f, r, OnBytes(f, Finalized(r, AbsorbCalls(f, r, Absorbing(ZeroState(), 0), ms), SHA3_DOMAIN)), dlen)
            == Sponge(f, r, SHA3_DOMAIN, Concat(ms), dlen)
  {
    hide OnBytes, AbsorbAll, Finalized, Pad, SqueezeBytes;
    DomainsLeaveTopBitClear();
    AbsorbCallsConcat(f, r, Absorbing(ZeroState(), 0), ms);
    IncrementalMatchesOneShot(f, r, ZeroState(), Concat(ms), SHA3_DOMAIN);
    LastPermutation(f, r, ZeroState(), Pad(Concat(ms), r, SHA3_DOMAIN));
  }

  lemma DomainsLeaveTopBitClear()
    ensures TopBitClear(SHA3_DOMAIN) && TopBitClear(SHAKE_DOMAIN)
  {
  }

  lemma XoredAppend(st: ByteState, pos: nat, m: seq<Byte>, b: Byte)
    requires pos + |m| < 200
    ensures XoredAt(st, pos, m + [b])
            == XoredAt(st, pos, m)[pos + |m| := XorByte(XoredAt(st, pos, m)[pos + |m|], b)]
  {
    hide XorByte;
  }
}
