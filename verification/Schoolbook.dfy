/** Four-digit long multiplication over any base: the column sums a schoolbook multiplier
    forms are congruent to the product modulo the fourth power of the base. */
module Schoolbook {
  import opened Words
  import TwoDigits

  /** The number with digits (or columns) c3 c2 c1 c0. */
  function Horner(b: int, c3: int, c2: int, c1: int, c0: int): int
  {
    ((c3 * b + c2) * b + c1) * b + c0
  }

  function FourthPower(b: int): int
  {
    (b * b) * (b * b)
  }

  lemma HornerSum(b: int, c3: int, c2: int, c1: int, c0: int, d3: int, d2: int, d1: int, d0: int)
    ensures Horner(b, c3, c2, c1, c0) + Horner(b, d3, d2, d1, d0)
            == Horner(b, c3 + d3, c2 + d2, c1 + d1, c0 + d0)
  {
  }

  lemma HornerScale(b: int, k: int, c3: int, c2: int, c1: int, c0: int)
    ensures k * Horner(b, c3, c2, c1, c0) == Horner(b, k * c3, k * c2, k * c1, k * c0)
  {
  }

  /** Moving every column up drops the top one, modulo the fourth power. */
  lemma HornerShift(b: int, c3: int, c2: int, c1: int, c0: int)
    ensures Horner(b, c3, c2, c1, c0) * b == c3 * FourthPower(b) + Horner(b, c2, c1, c0, 0)
  {
    var p := ((c3 * b) * b) * b;
    TwoDigits.Distribute(c3 * b, c2, b);
    TwoDigits.Distribute((c3 * b) * b, c2 * b + c1, b);
    TwoDigits.Distribute(p, (c2 * b + c1) * b + c0, b);
    assert p * b == c3 * FourthPower(b) by {
      TwoDigits.Reassociate(c3, b, b);
      TwoDigits.Reassociate((c3 * b) * b, b, b);
      TwoDigits.Reassociate(c3, b * b, b * b);
    }
  }

  /** x and y differ by q times the fourth power of the base. */
  ghost predicate Congruent(b: int, x: int, y: int, q: int)
  {
    x == y + q * FourthPower(b)
  }

  /** One row of the multiplication: the rows so far move up a column and the next is added. */
  lemma NextRow(b: int, x: int, q: int, c3: int, c2: int, c1: int, c0: int, d3: int, d2: int, d1: int, d0: int)
    requires Congruent(b, x, Horner(b, c3, c2, c1, c0), q)
    ensures Congruent(b, x * b + Horner(b, d3, d2, d1, d0), Horner(b, c2 + d3, c1 + d2, c0 + d1, d0), q * b + c3)
  {
    var m := FourthPower(b);
    HornerShift(b, c3, c2, c1, c0);
    HornerSum(b, c2, c1, c0, 0, d3, d2, d1, d0);
    hide *;
    RowStep(x, b, Horner(b, c3, c2, c1, c0), q, m);
    TwoDigits.Distribute(q * b, c3, m);
    CongruentMeaning(b, x, Horner(b, c3, c2, c1, c0), q);
    CongruentMeaning(b, x * b + Horner(b, d3, d2, d1, d0), Horner(b, c2 + d3, c1 + d2, c0 + d1, d0), q * b + c3);
  }

  lemma CongruentMeaning(b: int, x: int, y: int, q: int)
    ensures Congruent(b, x, y, q) <==> x == y + q * FourthPower(b)
  {
  }

  lemma RowStep(x: int, b: int, y: int, q: int, m: int)
    ensures x == y + q * m ==> x * b == y * b + (q * b) * m
  {
  }

  /** The product of two four-digit numbers, its partial products gathered by weight. */
  lemma Diagonals(b: int, t3: int, t2: int, t1: int, t0: int, s3: int, s2: int, s1: int, s0: int) returns (q: int)
    ensures Congruent(b, Horner(b, t3, t2, t1, t0) * Horner(b, s3, s2, s1, s0),
                      Horner(b, t3 * s0 + t2 * s1 + t1 * s2 + t0 * s3, t2 * s0 + t1 * s1 + t0 * s2,
                             t1 * s0 + t0 * s1, t0 * s0), q)
  {
    var s := Horner(b, s3, s2, s1, s0);
    var r3, r2, r1 := t3, t3 * b + t2, (t3 * b + t2) * b + t1;
    HornerScale(b, t3, s3, s2, s1, s0);
    HornerScale(b, t2, s3, s2, s1, s0);
    HornerScale(b, t1, s3, s2, s1, s0);
    HornerScale(b, t0, s3, s2, s1, s0);
    assert Horner(b, t3, t2, t1, t0) == r1 * b + t0;
    hide *;
    CongruentMeaning(b, r3 * s, Horner(b, t3 * s3, t3 * s2, t3 * s1, t3 * s0), 0);
    NextRow(b, r3 * s, 0, t3 * s3, t3 * s2, t3 * s1, t3 * s0, t2 * s3, t2 * s2, t2 * s1, t2 * s0);
    RowProduct(t3, b, t2, s);
    var q2 := 0 * b + t3 * s3;
    NextRow(b, r2 * s, q2, t3 * s2 + t2 * s3, t3 * s1 + t2 * s2, t3 * s0 + t2 * s1, t2 * s0,
            t1 * s3, t1 * s2, t1 * s1, t1 * s0);
    RowProduct(r2, b, t1, s);
    var q1 := q2 * b + (t3 * s2 + t2 * s3);
    NextRow(b, r1 * s, q1, t3 * s1 + t2 * s2 + t1 * s3, t3 * s0 + t2 * s1 + t1 * s2, t2 * s0 + t1 * s1, t1 * s0,
            t0 * s3, t0 * s2, t0 * s1, t0 * s0);
    RowProduct(r1, b, t0, s);
    q := q1 * b + (t3 * s1 + t2 * s2 + t1 * s3);
  }

  lemma RowProduct(r: int, b: int, t: int, s: int)
    ensures (r * b + t) * s == (r * s) * b + t * s
  {
  }

  /** Columns of two-digit entries: the upper digits belong one column higher. */
  lemma CarryColumns(b: int, h3: int, l3: int, h2: int, l2: int, h1: int, l1: int, h0: int, l0: int)
    ensures Congruent(b, Horner(b, h3 * b + l3, h2 * b + l2, h1 * b + l1, h0 * b + l0),
                      Horner(b, h2 + l3, h1 + l2, h0 + l1, l0), h3)
  {
    var m := FourthPower(b);
    HornerSum(b, h3 * b, h2 * b, h1 * b, h0 * b, l3, l2, l1, l0);
    HornerScale(b, b, h3, h2, h1, h0);
    HornerShift(b, h3, h2, h1, h0);
    HornerSum(b, h2, h1, h0, 0, l3, l2, l1, l0);
    hide *;
    TwoDigits.Commute(b, Horner(b, h3, h2, h1, h0));
    TwoDigits.Commute(b, h3);
    TwoDigits.Commute(b, h2);
    TwoDigits.Commute(b, h1);
    TwoDigits.Commute(b, h0);
    CongruentMeaning(b, Horner(b, h3 * b + l3, h2 * b + l2, h1 * b + l1, h0 * b + l0),
                     Horner(b, h2 + l3, h1 + l2, h0 + l1, l0), h3);
  }

  lemma CongruentMod(b: int, x: int, y: int, q: int)
    requires b > 0 && Congruent(b, x, y, q)
    ensures x % FourthPower(b) == y % FourthPower(b)
  {
    MulBound(b, b);
    MulBound(b * b, b * b);
    ModAddMultiple(y, q, FourthPower(b));
  }

  lemma CongruentTransitive(b: int, x: int, y: int, z: int, q: int, r: int)
    requires Congruent(b, x, y, q) && Congruent(b, y, z, r)
    ensures Congruent(b, x, z, q + r)
  {
  }

  /** The four column sums of a schoolbook multiplication, as the code forms them from the
      halves of the partial products t_i * s_j. */
  lemma Columns(b: int, t3: int, t2: int, t1: int, t0: int, s3: int, s2: int, s1: int, s0: int)
    requires b > 0
    ensures (Horner(b, t3, t2, t1, t0) * Horner(b, s3, s2, s1, s0)) % FourthPower(b)
            == Horner(b,
                      (t0 * s3) % b + (t0 * s2) / b + (t1 * s2) % b + (t1 * s1) / b
                      + (t2 * s1) % b + (t2 * s0) / b + (t3 * s0) % b,
                      (t0 * s2) % b + (t0 * s1) / b + (t1 * s1) % b + (t1 * s0) / b + (t2 * s0) % b,
                      (t0 * s1) % b + (t0 * s0) / b + (t1 * s0) % b,
                      (t0 * s0) % b) % FourthPower(b)
  {
    var q := Diagonals(b, t3, t2, t1, t0, s3, s2, s1, s0);
    var x := Horner(b, t3, t2, t1, t0) * Horner(b, s3, s2, s1, s0);
    var h3 := (t0 * s3) / b + (t1 * s2) / b + (t2 * s1) / b + (t3 * s0) / b;
    var l3 := (t0 * s3) % b + (t1 * s2) % b + (t2 * s1) % b + (t3 * s0) % b;
    var h2 := (t0 * s2) / b + (t1 * s1) / b + (t2 * s0) / b;
    var l2 := (t0 * s2) % b + (t1 * s1) % b + (t2 * s0) % b;
    var h1 := (t0 * s1) / b + (t1 * s0) / b;
    var l1 := (t0 * s1) % b + (t1 * s0) % b;
    var h0, l0 := (t0 * s0) / b, (t0 * s0) % b;
    hide *;
    SplitSum(b, t0 * s3, t1 * s2, t2 * s1, t3 * s0);
    SplitSum(b, t0 * s2, t1 * s1, t2 * s0, 0);
    SplitSum(b, t0 * s1, t1 * s0, 0, 0);
    SplitSum(b, t0 * s0, 0, 0, 0);
    CarryColumns(b, h3, l3, h2, l2, h1, l1, h0, l0);
    CongruentTransitive(b, x, Horner(b, h3 * b + l3, h2 * b + l2, h1 * b + l1, h0 * b + l0),
                        Horner(b, h2 + l3, h1 + l2, h0 + l1, l0), q, h3);
    CongruentMod(b, x, Horner(b, h2 + l3, h1 + l2, h0 + l1, l0), q + h3);
  }

  lemma SplitSum(b: int, w: int, x: int, y: int, z: int)
    requires b > 0
    ensures w + x + y + z == (w / b + x / b + y / b + z / b) * b + (w % b + x % b + y % b + z % b)
    ensures 0 / b == 0 && 0 % b == 0
  {
  }
}
