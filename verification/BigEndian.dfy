/** The numbers that byte strings denote, most significant byte first. */
module BigEndian {
  import opened Words
  import TwoDigits

  /** The number a byte string denotes, most significant byte first. */
  function Value(s: seq<u8>): nat
  {
    if s == [] then 0 else Value(s[..|s| - 1]) * 0x100 + s[|s| - 1]
  }

  lemma Snoc(s: seq<u8>, b: u8)
    ensures Value(s + [b]) == Value(s) * 0x100 + b
  {
  }

  lemma {:induction false} Concat(s: seq<u8>, t: seq<u8>)
    ensures Value(s + t) == Value(s) * Pow2(8 * |t|) + Value(t)
  {
    if t == [] {
      assert s + t == s;
    } else {
      var front, last := t[..|t| - 1], t[|t| - 1];
      assert s + t == (s + front) + [last];
      Concat(s, front);
      Snoc(s + front, last);
      Pow2Sum(8 * |front|, 8);
      assert Pow2(8) == 0x100;
      TwoDigits.Reassociate(Value(s), Pow2(8 * |front|), 0x100);
      TwoDigits.Commute(Pow2(8 * |front|), 0x100);
    }
  }

  lemma {:induction false} Bound(s: seq<u8>)
    ensures Value(s) < Pow2(8 * |s|)
  {
    if s != [] {
      Bound(s[..|s| - 1]);
      Pow2Sum(8 * (|s| - 1), 8);
      assert Pow2(8) == 0x100;
    }
  }

  lemma {:induction false} AllZeros(s: seq<u8>)
    requires forall i :: 0 <= i < |s| ==> s[i] == 0
    ensures Value(s) == 0
  {
    if s != [] {
      AllZeros(s[..|s| - 1]);
    }
  }
}
