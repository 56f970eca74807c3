/** The plain Keccak-f[1600] with nested loops over coordinates
    (test/fullchip_datapath_smoke.cc:67-115). */
module KeccakReference {
  import opened Numbers
  import opened Words
  import opened KeccakF1600

  /** What c[x] holds after y steps of the column loop. */
  ghost function Column(s: Lanes, x: nat, y: nat): Lane
    requires x < 5 && y <= 5
  {
    if y == 0 then ZERO_LANE else Xor(Column(s, x, y - 1), s[x + 5 * (y - 1)])
  }

  lemma ColumnIsParity(s: Lanes, x: nat)
    requires x < 5
    ensures Column(s, x, 5) == Parity(s, x)
  {
    hide Xor;
    ZeroXorLane(s[x]);
    assert Column(s, x, 1) == s[x];
    assert Column(s, x, 2) == Xor(s[x], s[x + 5]);
    assert Column(s, x, 3) == Xor(Column(s, x, 2), s[x + 10]);
    assert Column(s, x, 4) == Xor(Column(s, x, 3), s[x + 15]);
  }

  lemma ZeroXorLane(a: Lane)
    ensures Xor(ZERO_LANE, a) == a
  {
  }

  /** The lane the reference stores a rotated lane (x, y) in. */
  function Target(x: nat, y: nat): (i: nat)
    requires x < 5 && y < 5
    ensures i < 25
  {
    y + 5 * ((2 * x + 3 * y) % 5)
  }

  /** The coordinates can be read back from the target. */
  lemma TargetDecodes(x: nat, y: nat)
    requires x < 5 && y < 5
    ensures Target(x, y) % 5 == y
    ensures (y + 3 * (Target(x, y) / 5)) % 5 == x
  {
    var row, q := (2 * x + 3 * y) % 5, (2 * x + 3 * y) / 5;
    assert 2 * x + 3 * y == 5 * q + row;
    ModUniqueInt(Target(x, y), 5, row, y);
    ModUniqueInt(y + 3 * row, 5, x + 2 * y - 3 * q, x);
  }

  /** Storing at Target is the pi mapping, read from the other side. */
  lemma TargetIsPi(s: Lanes, x: nat, y: nat)
    requires x < 5 && y < 5
    ensures Pi(s)[Target(x, y)] == s[x + 5 * y]
  {
    TargetDecodes(x, y);
  }

  lemma TargetInjective(x: nat, y: nat, x': nat, y': nat)
    requires x < 5 && y < 5 && x' < 5 && y' < 5 && (x != x' || y != y')
    ensures Target(x, y) != Target(x', y')
  {
    hide Target;
    TargetDecodes(x, y);
    TargetDecodes(x', y');
  }

  lemma TargetSurjective(i: nat) returns (x: nat, y: nat)
    requires i < 25
    ensures x < 5 && y < 5 && Target(x, y) == i
  {
    y := i % 5;
    var row := i / 5;
    assert i == 5 * row + y;
    x := (y + 3 * row) % 5;
    var q := (y + 3 * row) / 5;
    assert y + 3 * row == 5 * q + x;
    ModUniqueInt(2 * x + 3 * y, 5, y + row - 2 * q, row);
  }

  /** The column parities c. */
  method ColumnParities(state: array<Lane>) returns (c: array<Lane>)
    requires state.Length == 25
    ensures fresh(c) && c.Length == 5
    ensures forall k :: 0 <= k < 5 ==> c[k] == Parity(state[..], k)
  {
    hide Xor, Parity;
    ghost var s: Lanes := state[..];
    c := new Lane[5](_ => ZERO_LANE);
    for x := 0 to 5
      invariant forall k :: 0 <= k < x ==> c[k] == Parity(s, k)
      invariant forall k :: x <= k < 5 ==> c[k] == ZERO_LANE
    {
      for y := 0 to 5
        invariant forall k :: 0 <= k < x ==> c[k] == Parity(s, k)
        invariant forall k :: x < k < 5 ==> c[k] == ZERO_LANE
        invariant c[x] == Column(s, x, y)
      {
        c[x] := Xor(c[x], state[x + 5 * y]);
      }
      ColumnIsParity(s, x);
    }
  }

  /** The theta effect d of every column. */
  method ThetaEffect(state: array<Lane>) returns (d: array<Lane>)
    requires state.Length == 25
    ensures fresh(d) && d.Length == 5
    ensures forall k :: 0 <= k < 5 ==> d[k] == Effect(state[..], k)
  {
    hide Xor, Rotl64, Parity;
    var c := ColumnParities(state);
    ghost var s: Lanes := state[..];
    d := new Lane[5](_ => ZERO_LANE);
    for x := 0 to 5
      invariant forall k :: 0 <= k < 5 ==> c[k] == Parity(s, k)
      invariant forall k :: 0 <= k < x ==> d[k] == Effect(s, k)
    {
      d[x] := Xor(c[(x + 4) % 5], Rotl64(c[(x + 1) % 5], 1));
    }
  }

  /** Theta, rho and pi of one round: b becomes Pi(Rho(Theta(state))). */
  method ThetaRhoPi(state: array<Lane>) returns (b: array<Lane>)
    requires state.Length == 25
    ensures fresh(b) && b.Length == 25
    ensures b[..] == Pi(Rho(Theta(state[..])))
  {
    hide Xor, Rotl64, Pi, Rho, Theta, RhoOffset, Target, Effect;
    ghost var s: Lanes := state[..];
    ghost var rotated := Rho(Theta(s));
    var d := ThetaEffect(state);
    var a := new Lane[25](_ => ZERO_LANE);
    b := new Lane[25](_ => ZERO_LANE);
    for x := 0 to 5
      invariant forall k :: 0 <= k < 5 ==> d[k] == Effect(s, k)
      invariant forall x', y' :: 0 <= x' < x && 0 <= y' < 5 ==> b[Target(x', y')] == rotated[x' + 5 * y']
    {
      for y := 0 to 5
        invariant forall k :: 0 <= k < 5 ==> d[k] == Effect(s, k)
        invariant forall x', y' :: 0 <= x' < x && 0 <= y' < 5 ==> b[Target(x', y')] == rotated[x' + 5 * y']
        invariant forall y' :: 0 <= y' < y ==> b[Target(x, y')] == rotated[x + 5 * y']
      {
        var lane := x + 5 * y;
        RotatedLane(s, x, y);
        a[lane] := Xor(state[lane], d[x]);
        b[Target(x, y)] := Rotl64(a[lane], RhoOffset(lane));
        forall x', y' | 0 <= x' < 5 && 0 <= y' < 5 && (x' != x || y' != y)
          ensures Target(x', y') != Target(x, y)
        {
          TargetInjective(x', y', x, y);
        }
      }
    }
    StoredIsPi(rotated, b[..]);
  }

  lemma RotatedLane(s: Lanes, x: nat, y: nat)
    requires x < 5 && y < 5
    ensures Rho(Theta(s))[x + 5 * y] == Rotl64(Xor(s[x + 5 * y], Effect(s, x)), RhoOffset(x + 5 * y))
  {
    hide Xor, Rotl64, RhoOffset, Effect;
    ModUniqueInt(x + 5 * y, 5, y, x);
  }

  /** Stores at every target make up pi. */
  lemma StoredIsPi(s: Lanes, b: seq<Lane>)
    requires |b| == 25
    requires forall x, y :: 0 <= x < 5 && 0 <= y < 5 ==> b[Target(x, y)] == s[x + 5 * y]
    ensures b == Pi(s)
  {
    hide Pi, Target;
    forall i | 0 <= i < 25
      ensures b[i] == Pi(s)[i]
    {
      var x, y := TargetSurjective(i);
      TargetIsPi(s, x, y);
    }
  }

  /** Chi of one round, written back over the state. */
  method ChiBack(state: array<Lane>, b: array<Lane>)
    requires state.Length == 25 && b.Length == 25 && state != b
    modifies state
    ensures state[..] == Chi(b[..])
  {
    hide Xor, And, Not, ChiLane;
    ghost var p: Lanes := b[..];
    for x := 0 to 5
      invariant forall i :: 0 <= i < 25 && i % 5 < x ==> state[i] == ChiLane(p, i % 5, i / 5)
    {
      for y := 0 to 5
        invariant forall i :: 0 <= i < 25 && i % 5 < x ==> state[i] == ChiLane(p, i % 5, i / 5)
        invariant forall i :: 0 <= i < 25 && i % 5 == x && i / 5 < y ==> state[i] == ChiLane(p, i % 5, i / 5)
      {
        var lane := x + 5 * y;
        assert lane % 5 == x && lane / 5 == y;
        state[lane] := Xor(b[lane], And(Not(b[(x + 1) % 5 + 5 * y]), b[(x + 2) % 5 + 5 * y]));
        assert state[lane] == ChiLane(p, x, y) by {
          ChiLaneIs(p, x, y);
        }
      }
    }
  }

  lemma ChiLaneIs(s: Lanes, x: nat, y: nat)
    requires x < 5 && y < 5
    ensures ChiLane(s, x, y) == Xor(s[x + 5 * y], And(Not(s[(x + 1) % 5 + 5 * y]), s[(x + 2) % 5 + 5 * y]))
  {
  }

  method ReferenceRound(state: array<Lane>, round: nat)
    requires state.Length == 25 && round < 24
    modifies state
    ensures state[..] == Round(old(state[..]), RoundConstant(round))
  {
    hide Xor, And, Not, Theta, Rho, Pi, Chi, RoundConstant;
    var b := ThetaRhoPi(state);
    ghost var p: Lanes := b[..];
    ChiBack(state, b);
    state[0] := Xor(state[0], RoundConstant(round));
    assert state[..] == Iota(Chi(p), RoundConstant(round));
  }

  method KeccakReference(state: array<Lane>)
    requires state.Length == 25
    modifies state
    ensures state[..] == KeccakF(old(state[..]))
  {
    hide Round, RoundConstant;
    ghost var start: Lanes := state[..];
    for round := 0 to 24
      invariant state[..] == Rounds(start, round)
    {
      ReferenceRound(state, round);
    }
  }
}
