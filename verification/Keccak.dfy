/** The in-place permutation keccakf of keccak-tiny.c over an array of 25 lanes. */
module Keccak {
  import opened Fips202
  import opened KeccakTables
  import opened KeccakLanes

  // ---------- Theta ----------

  /** The first half of theta: b receives the parities of the five columns. */
  method ColumnParities(a: array<Lane>, b: array<Lane>)
    requires a.Length == 25 && b.Length == 5 && a != b
    modifies b
    ensures forall x: nat :: x < 5 ==> b[x] == ParityLane(a[..], x)
  {
    hide Plus, ParityLane, Parity, ZERO;
    ghost var s: State := a[..];
    for x := 0 to 5
      invariant a[..] == s
      invariant forall i: nat :: i < x ==> b[i] == ParityLane(s, i)
    {
      b[x] := ZERO;
      for y := 0 to 5
        invariant a[..] == s
        invariant forall i: nat :: i < x ==> b[i] == ParityLane(s, i)
        invariant b[x] == ColumnSum(s, x, y)
      {
        assert ColumnSum(s, x, y + 1) == Plus(ColumnSum(s, x, y), s[5 * y + x]);
        b[x] := Plus(b[x], a[x + 5 * y]);
      }
      WholeColumn(s, x);
    }
  }

  /** The second half of theta: every lane receives the effect of its column. */
  method AddEffects(a: array<Lane>, b: array<Lane>, ghost s: State)
    requires a.Length == 25 && b.Length == 5 && a != b && a[..] == s
    requires forall x: nat :: x < 5 ==> b[x] == ParityLane(s, x)
    modifies a
    ensures a[..] == Theta(s)
  {
    hide Theta, ParityLane, Plus, Rol;
    for x := 0 to 5
      invariant forall i: nat :: i < 5 ==> b[i] == ParityLane(s, i)
      invariant forall k: nat :: k < 25 ==> a[k] == if k % 5 < x then Theta(s)[k] else s[k]
    {
      for y := 0 to 5
        invariant forall i: nat :: i < 5 ==> b[i] == ParityLane(s, i)
        invariant forall k: nat :: k < 25 ==>
          a[k] == if k % 5 < x || (k % 5 == x && k / 5 < y) then Theta(s)[k] else s[k]
      {
        var k := 5 * y + x;
        assert k % 5 == x && k / 5 == y;
        ThetaLaneSum(s, k);
        a[y * 5 + x] := Plus(a[y * 5 + x], Plus(b[(x + 4) % 5], Rol(b[(x + 1) % 5], 1)));
      }
    }
  }

  // ---------- Rho and pi ----------

  /** The 24-step cycle through the table PI: no lane is overwritten before it is read. */
  method RhoPi(a: array<Lane>)
    requires a.Length == 25
    modifies a
    ensures a[..] == Pi(Rho(old(a[..])))
  {
    hide *;
    ghost var s: State := a[..];
    var t := a[1];
    CycleStart(s);
    for j := 0 to 24
      invariant j < 24 ==> t == s[Previous(j)]
      invariant Cycled(a[..], s, j)
    {
      ghost var l: State := a[..];
      CycleStep(l, s, j);
      if j < 23 {
        PreviousIs(j + 1);
      }
      var b := a[Target(j)];
      a[Target(j)] := Rol(t, Turn(j));
      t := b;
      assert a[..] == l[Target(j) := Rotated(s[Previous(j)], Turn(j))];
    }
    CycleDone(a[..], s);
  }

  // ---------- Chi and iota ----------

  /** Each row of five lanes is mixed from a copy of itself. */
  method MixRows(a: array<Lane>)
    requires a.Length == 25
    modifies a
    ensures a[..] == Chi(old(a[..]))
  {
    hide Chi, Plus, And, Not, ZERO;
    ghost var s: State := a[..];
    var b := new Lane[5](i => ZERO);
    for y := 0 to 5
      invariant forall k: nat :: k < 25 ==> a[k] == if k < 5 * y then Chi(s)[k] else s[k]
    {
      for x := 0 to 5
        invariant forall k: nat :: k < 25 ==> a[k] == if k < 5 * y then Chi(s)[k] else s[k]
        invariant forall i: nat :: i < x ==> b[i] == s[5 * y + i]
      {
        b[x] := a[5 * y + x];
      }
      for x := 0 to 5
        invariant forall k: nat :: k < 25 ==> a[k] == if k < 5 * y + x then Chi(s)[k] else s[k]
        invariant forall i: nat :: i < 5 ==> b[i] == s[5 * y + i]
      {
        ChiLaneSum(s, x, y);
        a[5 * y + x] := Plus(b[x], And(Not(b[(x + 1) % 5]), b[(x + 2) % 5]));
      }
    }
  }

  method AddConstant(a: array<Lane>, i: nat)
    requires a.Length == 25 && i < 24
    modifies a
    ensures a[..] == Iota(old(a[..]), i)
  {
    RoundConstants(i);
    hide LaneOf, RoundConstant, Plus, ConstantOf;
    a[0] := Plus(a[0], LaneOf(ConstantOf(i)));
  }

  // ---------- The permutation ----------

  method Keccakf(a: array<Lane>)
    requires a.Length == 25
    modifies a
    ensures a[..] == Permutation(old(a[..]))
  {
    hide Theta, Rho, Pi, Chi, Iota, ParityLane, ZERO;
    ghost var s: State := a[..];
    var b := new Lane[5](i => ZERO);
    for i := 0 to 24
      invariant fresh(b)
      invariant a[..] == Rounds(s, i)
    {
      ghost var r: State := a[..];
      ColumnParities(a, b);
      AddEffects(a, b, r);
      RhoPi(a);
      MixRows(a);
      AddConstant(a, i);
      assert a[..] == Rounds(s, i + 1);
    }
  }
}
