/** Printing a 256-bit number in a radix from 2 to 16, and the numerals it prints. */
module Radix {
  import opened Words
  import opened Uint128
  import opened Uint256
  import opened Division
  import TwoDigits

  const HEXDIGITS: string := "0123456789abcdef"

  function Digit(d: nat): char
    requires d < 16
  {
    HEXDIGITS[d]
  }

  // ---------- Numerals ----------

  /** The numeral of n in radix b, most significant digit first, without leading zeros. */
  function Numeral(n: nat, b: nat): (s: string)
    requires 2 <= b <= 16
    ensures |s| > 0
  {
    if n < b then [Digit(n)] else
      QuotientSmaller(n, b);
      Numeral(n / b, b) + [Digit(n % b)]
  }

  lemma QuotientSmaller(n: nat, b: nat)
    requires b >= 2 && n > 0
    ensures 0 <= n / b < n
    ensures n >= b ==> n / b > 0
  {
  }

  predicate IsDigit(c: char, b: nat)
    requires b <= 16
  {
    exists d :: 0 <= d < b && Digit(d) == c
  }

  /** The value of a digit; 0 for a character that is none. */
  function DigitValue(c: char): (d: nat)
    ensures d < 16
  {
    if '0' <= c <= '9' then c as nat - '0' as nat
    else if 'a' <= c <= 'f' then c as nat - 'a' as nat + 10
    else 0
  }

  lemma DigitRoundTrip(d: nat)
    requires d < 16
    ensures DigitValue(Digit(d)) == d
  {
  }

  lemma DigitValueRange(c: char, b: nat)
    requires 2 <= b <= 16 && IsDigit(c, b)
    ensures DigitValue(c) < b && Digit(DigitValue(c)) == c
  {
    var d :| 0 <= d < b && Digit(d) == c;
    DigitRoundTrip(d);
  }

  /** Reading a numeral, most significant digit first. */
  function Read(s: string, b: nat): nat
  {
    if s == [] then 0 else Read(s[..|s| - 1], b) * b + DigitValue(s[|s| - 1])
  }

  /** Digits of the radix only, at least one, and no leading zero before another digit. */
  predicate Canonical(s: string, b: nat)
    requires b <= 16
  {
    && |s| > 0
    && (forall i :: 0 <= i < |s| ==> IsDigit(s[i], b))
    && (|s| > 1 ==> s[0] != '0')
  }

  lemma ReadSnoc(s: string, c: char, b: nat)
    ensures Read(s + [c], b) == Read(s, b) * b + DigitValue(c)
  {
  }

  /** A further digit keeps a numeral canonical unless it follows a lone zero. */
  lemma CanonicalSnoc(s: string, d: nat, b: nat)
    requires 2 <= b <= 16 && d < b && Canonical(s, b) && s[0] != '0'
    ensures Canonical(s + [Digit(d)], b) && (s + [Digit(d)])[0] != '0'
  {
  }

  lemma SingleDigit(n: nat, b: nat)
    requires 2 <= b <= 16 && n < b
    ensures Canonical([Digit(n)], b) && Read([Digit(n)], b) == n
    ensures n > 0 ==> Digit(n) != '0'
  {
    DigitRoundTrip(n);
    DigitRoundTrip(0);
    ReadSnoc([], Digit(n), b);
    assert [] + [Digit(n)] == [Digit(n)];
  }

  lemma {:induction false} NumeralReads(n: nat, b: nat)
    requires 2 <= b <= 16
    ensures Read(Numeral(n, b), b) == n
    ensures Canonical(Numeral(n, b), b)
    ensures n > 0 ==> Numeral(n, b)[0] != '0'
    decreases n
  {
    hide Read, Canonical, Digit, DigitValue;
    if n < b {
      SingleDigit(n, b);
    } else {
      QuotientSmaller(n, b);
      NumeralReads(n / b, b);
      DigitRoundTrip(n % b);
      ReadSnoc(Numeral(n / b, b), Digit(n % b), b);
      CanonicalSnoc(Numeral(n / b, b), n % b, b);
    }
  }

  /** Canonical numerals are exactly the numerals that are printed. */
  lemma {:induction false} ReadPrints(s: string, b: nat)
    requires 2 <= b <= 16 && Canonical(s, b)
    ensures Numeral(Read(s, b), b) == s
    ensures s[0] != '0' ==> Read(s, b) > 0
    decreases |s|
  {
    var front, last := s[..|s| - 1], s[|s| - 1];
    assert s == front + [last];
    DigitValueRange(last, b);
    DigitRoundTrip(0);
    hide Digit, DigitValue, IsDigit;
    ReadSnoc(front, last, b);
    if |s| > 1 {
      ReadPrints(front, b);
      PrintSnoc(Read(front, b), DigitValue(last), b);
    }
  }

  lemma PrintSnoc(q: nat, d: nat, b: nat)
    requires 2 <= b <= 16 && d < b && q > 0
    ensures q * b + d > 0 && Numeral(q * b + d, b) == Numeral(q, b) + [Digit(d)]
  {
    DivModUnique(q * b + d, q, d, b);
    MulBound(q, b);
  }

  /** Two numbers have the same numeral only if they are equal. */
  lemma NumeralInjective(m: nat, n: nat, b: nat)
    requires 2 <= b <= 16
    ensures Numeral(m, b) == Numeral(n, b) <==> m == n
  {
    NumeralReads(m, b);
    NumeralReads(n, b);
  }

  function Power(b: nat, k: nat): nat
  {
    if k == 0 then 1 else b * Power(b, k - 1)
  }

  /** A number fits in k digits exactly when it is below b^k. */
  lemma {:induction false} NumeralLength(n: nat, b: nat, k: nat)
    requires 2 <= b <= 16 && k >= 1
    ensures |Numeral(n, b)| <= k <==> n < Power(b, k)
    decreases k
  {
    if k == 1 {
      assert Power(b, 1) == b * Power(b, 0) == b;
    } else if n < b {
      PowerAtLeast(b, k - 1);
      MulBound(Power(b, k - 1), b);
    } else {
      NumeralLength(n / b, b, k - 1);
      QuotientBelow(n, b, Power(b, k - 1));
    }
  }

  lemma {:induction false} PowerAtLeast(b: nat, k: nat)
    requires b >= 1
    ensures Power(b, k) >= 1
  {
    if k > 0 {
      PowerAtLeast(b, k - 1);
      MulBound(Power(b, k - 1), b);
    }
  }

  lemma QuotientBelow(n: nat, b: nat, p: nat)
    requires b > 0
    ensures n / b < p <==> n < b * p
  {
    assert n == (n / b) * b + n % b;
    MulBound(p - n / b, b);
    TwoDigits.Distribute(p - n / b, n / b, b);
  }

  // ---------- In-place reversal ----------

  function Reversed(s: string): (r: string)
    ensures |r| == |s|
  {
    if s == [] then [] else Reversed(s[1..]) + [s[0]]
  }

  lemma {:induction false} ReversedAt(s: string, k: nat)
    requires k < |s|
    ensures Reversed(s)[k] == s[|s| - 1 - k]
  {
    if k < |s| - 1 {
      ReversedAt(s[1..], k);
    }
  }

  lemma ReversedSnoc(s: string, c: char)
    ensures Reversed(s + [c]) == [c] + Reversed(s)
  {
    var t := s + [c];
    forall k | 0 <= k < |t|
      ensures Reversed(t)[k] == ([c] + Reversed(s))[k]
    {
      ReversedAt(t, k);
      if k > 0 {
        ReversedAt(s, k - 1);
      }
    }
  }

  method ReverseString(str: array<char>, length: u32)
    requires 1 <= length <= str.Length
    modifies str
    ensures str[..length] == Reversed(old(str[..length]))
    ensures str[length..] == old(str[length..])
  {
    var i, j := 0, length - 1;
    while i < j
      invariant 0 <= i <= length && i + j == length - 1
      invariant forall k :: 0 <= k < i ==> str[k] == old(str[length - 1 - k]) && str[length - 1 - k] == old(str[k])
      invariant forall k :: i <= k <= j ==> str[k] == old(str[k])
      invariant str[length..] == old(str[length..])
    {
      var c := str[i];
      str[i] := str[j];
      str[j] := c;
      i := i + 1;
      j := j - 1;
    }
    forall k | 0 <= k < length
      ensures str[..length][k] == Reversed(old(str[..length]))[k]
    {
      ReversedAt(old(str[..length]), k);
    }
  }

  // ---------- tostring256 ----------

  /** The numeral of n, split behind its leading part: `low` holds the digits already
      produced, least significant first, and `rest` is what they leave of n. */
  ghost predicate Produced(n: nat, b: nat, rest: nat, low: string)
    requires 2 <= b <= 16
  {
    Numeral(n, b) == (if rest == 0 && low != [] then [] else Numeral(rest, b)) + Reversed(low)
  }

  lemma NextDigit(n: nat, b: nat, rest: nat, low: string, q: nat, d: nat)
    requires 2 <= b <= 16 && Produced(n, b, rest, low) && (low == [] || rest > 0)
    requires Divided(rest, b, q, d)
    ensures d < 16 && Produced(n, b, q, low + [Digit(d)])
    ensures rest > 0 ==> q < rest
  {
    DividedMeans(rest, b, q, d);
    ReversedSnoc(low, Digit(d));
    if rest > 0 {
      QuotientSmaller(rest, b);
    }
    if rest < b {
      DivModUnique(rest, 0, rest, b);
    } else {
      assert q > 0;
    }
  }

  lemma Begin(n: nat, b: nat)
    requires 2 <= b <= 16
    ensures Produced(n, b, n, [])
  {
  }

  /** Digits still to come: the numeral is longer than what has been produced. */
  lemma MoreDigits(n: nat, b: nat, rest: nat, low: string)
    requires 2 <= b <= 16 && Produced(n, b, rest, low) && (low == [] || rest > 0)
    ensures |Numeral(n, b)| > |low|
  {
  }

  lemma AllDigits(n: nat, b: nat, low: string)
    requires 2 <= b <= 16 && Produced(n, b, 0, low) && low != []
    ensures Numeral(n, b) == Reversed(low)
  {
  }

  method SmallNumber(word: u64) returns (n: U256)
    ensures fresh(n) && fresh(n.upper) && fresh(n.lower) && n.upper != n.lower
    ensures n.Value() == word
  {
    n := new U256();
    Clear256(n);
    n.lower.upper := 0;
    n.lower.lower := word;
  }

  lemma {:induction false} PowerOfTwoBelow(b: nat, k: nat)
    requires b >= 2
    ensures Pow2(k) <= Power(b, k)
  {
    if k > 0 {
      PowerOfTwoBelow(b, k - 1);
      assert 2 * Power(b, k - 1) <= b * Power(b, k - 1);
    }
  }

  /** No supported radix needs more than 256 digits. */
  lemma AtMost256Digits(n: nat, b: nat)
    requires 2 <= b <= 16 && n < W256
    ensures |Numeral(n, b)| <= 256
  {
    hide Numeral, Power, Pow2;
    Pow2Words();
    PowerOfTwoBelow(b, 256);
    NumeralLength(n, b, 256);
  }

  /** One turn of the digit loop: divides and writes the remainder's digit. */
  method WriteDigit(rDiv: U256, rMod: U256, base: U256, radix: nat, out: array<char>, offset: nat, ghost n: nat)
    requires 2 <= radix <= 16 && base.Value() == radix && offset < out.Length
    requires Separate(rDiv, rMod) && Separate(rDiv, base) && Separate(rMod, base)
    requires Produced(n, radix, rDiv.Value(), out[..offset]) && (offset == 0 || rDiv.Value() > 0)
    modifies rDiv.upper, rDiv.lower, rMod.upper, rMod.lower, out
    ensures Produced(n, radix, rDiv.Value(), old(out[..offset]) + [out[offset]])
    ensures out[..offset] == old(out[..offset])
    ensures forall k :: offset < k < out.Length ==> out[k] == old(out[k])
  {
    hide U128.Value, U256.Value, Pow2, Or, BitLength, W64, W128, W256,
         Divided, Produced, Numeral, Reversed, Digit, HEXDIGITS;
    ghost var rest, low := rDiv.Value(), out[..offset];
    Divmod256(rDiv, base, rDiv, rMod);
    NextDigit(n, radix, rest, low, rDiv.Value(), rMod.Value());
    LowWord(rMod);
    out[offset] := Digit(rMod.lower.lower);
    assert out[..offset] == low;
  }

  /** The digit loop between two turns: digits are missing, and there is room for the next one
      or the limit has been reached. A limit of 0 wraps around and is none. */
  ghost predicate InLoop(n: nat, b: nat, rest: nat, low: string, limit: u32, size: nat)
    requires 2 <= b <= 16
  {
    && Produced(n, b, rest, low) && (low == [] || rest > 0)
    && |low| < |Numeral(n, b)| <= 256 && (limit > 0 ==> |low| <= limit)
    && (1 <= limit < size || |Numeral(n, b)| < size)
  }

  lemma LimitMeans(limit: u32)
    ensures limit == 0 ==> Sub32(limit, 1) == 0xFFFF_FFFF
    ensures limit > 0 ==> Sub32(limit, 1) == limit - 1
  {
  }

  lemma LoopStarts(n: nat, b: nat, limit: u32, size: nat)
    requires 2 <= b <= 16 && n < W256 && (1 <= limit < size || |Numeral(n, b)| < size)
    ensures InLoop(n, b, n, [], limit, size)
  {
    AtMost256Digits(n, b);
    hide Numeral;
  }

  lemma LoopStops(n: nat, b: nat, rest: nat, low: string, limit: u32, size: nat)
    requires 2 <= b <= 16 && InLoop(n, b, rest, low, limit, size) && |low| > Sub32(limit, 1)
    ensures 0 < limit == |low| < |Numeral(n, b)|
  {
    LimitMeans(limit);
    hide Sub32, Produced, Numeral;
  }

  lemma LoopGoesOn(n: nat, b: nat, rest: nat, low: string, limit: u32, size: nat, rest': nat, c: char)
    requires 2 <= b <= 16 && InLoop(n, b, rest, low, limit, size) && |low| <= Sub32(limit, 1)
    requires Produced(n, b, rest', low + [c])
    ensures rest' > 0 ==> InLoop(n, b, rest', low + [c], limit, size)
    ensures rest' == 0 ==> Numeral(n, b) == Reversed(low + [c]) && |Numeral(n, b)| == |low| + 1
    ensures rest' == 0 ==> limit == 0 || |Numeral(n, b)| <= limit
  {
    LimitMeans(limit);
    if rest' > 0 {
      MoreDigits(n, b, rest', low + [c]);
    } else {
      AllDigits(n, b, low + [c]);
      ReversedSame(low + [c]);
    }
    hide Sub32, Produced, Numeral, Reversed;
  }

  lemma LoopHasRoom(n: nat, b: nat, rest: nat, low: string, limit: u32, size: nat)
    requires 2 <= b <= 16 && InLoop(n, b, rest, low, limit, size)
    ensures |low| < size && |low| < |Numeral(n, b)| <= 256
    ensures |low| <= Sub32(limit, 1) ==> |low| + 1 < size
    ensures Produced(n, b, rest, low) && (low == [] || rest > 0)
  {
    LimitMeans(limit);
    hide Sub32, Produced, Numeral;
  }

  /** One turn of the digit loop, when the limit has not been reached. */
  method Turn(rDiv: U256, rMod: U256, base: U256, radix: nat, out: array<char>, limit: u32, offset: nat, ghost n: nat)
    requires 2 <= radix <= 16 && base.Value() == radix
    requires Separate(rDiv, rMod) && Separate(rDiv, base) && Separate(rMod, base)
    requires offset < out.Length && InLoop(n, radix, rDiv.Value(), out[..offset], limit, out.Length)
    requires offset <= Sub32(limit, 1)
    modifies rDiv.upper, rDiv.lower, rMod.upper, rMod.lower, out
    ensures offset + 1 < out.Length && offset < |Numeral(n, radix)| <= 256
    ensures rDiv.Value() > 0 ==> InLoop(n, radix, rDiv.Value(), out[..offset + 1], limit, out.Length)
    ensures rDiv.Value() == 0 ==> Numeral(n, radix) == Reversed(out[..offset + 1])
    ensures rDiv.Value() == 0 ==> limit == 0 || |Numeral(n, radix)| <= limit
    ensures out[offset + 1..] == old(out[offset + 1..])
  {
    hide *;
    ghost var rest, low, size := rDiv.Value(), out[..offset], out.Length;
    LoopHasRoom(n, radix, rest, low, limit, size);
    WriteDigit(rDiv, rMod, base, radix, out, offset, n);
    assert out[..offset + 1] == low + [out[offset]];
    LoopGoesOn(n, radix, rest, low, limit, size, rDiv.Value(), out[offset]);
  }

  /** The digit loop: the digits of a number, least significant first, in the leading part of
      `out`, as long as they fit in `limit` characters. */
  method ProduceDigits(rDiv: U256, rMod: U256, base: U256, radix: nat, out: array<char>, limit: u32)
    returns (ok: bool, offset: u32)
    requires 2 <= radix <= 16 && base.Value() == radix
    requires Separate(rDiv, rMod) && Separate(rDiv, base) && Separate(rMod, base)
    requires 1 <= limit < out.Length || |Numeral(rDiv.Value(), radix)| < out.Length
    modifies rDiv.upper, rDiv.lower, rMod.upper, rMod.lower, out
    ensures ok <==> limit == 0 || |Numeral(old(rDiv.Value()), radix)| <= limit
    ensures offset < out.Length && out[offset..] == old(out[offset..])
    ensures !ok ==> offset == limit
    ensures ok ==> offset >= 1 && Numeral(old(rDiv.Value()), radix) == Reversed(out[..offset])
  {
    ghost var n, size := rDiv.Value(), out.Length;
    hide *;
    LoopStarts(n, radix, limit, size);
    offset := 0;
    assert out[..0] == [];
    while true
      invariant offset < out.Length && InLoop(n, radix, rDiv.Value(), out[..offset], limit, size)
      invariant base.Value() == radix
      invariant out[offset..] == old(out[offset..])
      decreases |Numeral(n, radix)| - offset
    {
      if offset > Sub32(limit, 1) {
        LoopStops(n, radix, rDiv.Value(), out[..offset], limit, size);
        return false, offset;
      }
      ghost var tail := out[offset..];
      Turn(rDiv, rMod, base, radix, out, limit, offset, n);
      offset := offset + 1;
      assert out[offset..] == tail[1..];
      if Zero256(rDiv) {
        break;
      }
    }
    return true, offset;
  }

  lemma ReversedSame(s: string)
    ensures |Reversed(s)| == |s|
  {
  }

  lemma LowWord(n: U256)
    ensures n.Value() < 16 ==> n.lower.lower == n.Value()
  {
  }

  /** The end of tostring256: the terminator, and the digits put in order. */
  method Terminate(out: array<char>, offset: u32)
    requires 1 <= offset < out.Length
    modifies out
    ensures out[..offset] == Reversed(old(out[..offset])) && out[offset] == '\0'
    ensures out[offset + 1..] == old(out[offset + 1..])
  {
    hide *;
    ghost var low, tail := out[..offset], out[offset + 1..];
    out[offset] := '\0';
    assert out[..offset] == low && out[offset + 1..] == tail;
    ghost var rest := out[offset..];
    ReverseString(out, offset);
    assert out[offset] == rest[0] && out[offset + 1..] == rest[1..];
  }

  lemma TailOfTail(s: string, t: string, i: nat, j: nat)
    requires i <= |s| == |t| && s[i..] == t[i..]
    ensures i <= j <= |s| ==> s[j..] == t[j..]
  {
    if i <= j <= |s| {
      assert s[j..] == s[i..][j - i..] && t[j..] == t[i..][j - i..];
    }
  }

  /** Prints a number into a buffer of `outLength` characters. Succeeds exactly when the radix
      is supported and the numeral leaves room for the terminator; then the buffer starts with
      the numeral and a terminator and is otherwise unchanged. Nothing at or beyond the last
      character that a failed call may use is written. For a length of 0 or 1 the bound wraps
      around: the numeral and its terminator are written behind the buffer. */
  method Tostring256(number: U256, baseParam: u32, out: array<char>, outLength: u32) returns (ok: bool)
    requires number.upper != number.lower
    requires outLength <= out.Length
    requires outLength < 2 && 2 <= baseParam <= 16 ==> |Numeral(number.Value(), baseParam)| < out.Length
    modifies out
    ensures ok <==> 2 <= baseParam <= 16 && (outLength < 2 || |Numeral(number.Value(), baseParam)| <= outLength - 1)
    ensures ok ==> var d := Numeral(number.Value(), baseParam);
                   && |d| < out.Length
                   && out[..|d|] == d
                   && out[|d|] == '\0'
                   && out[|d| + 1..] == old(out[|d| + 1..])
    ensures outLength >= 2 ==> out[outLength..] == old(out[outLength..])
    ensures outLength < 2 && ok ==> |Numeral(number.Value(), baseParam)| >= outLength
    ensures !ok && outLength >= 2 ==> out[outLength - 1..] == old(out[outLength - 1..])
    ensures !ok && outLength < 2 ==> out[..] == old(out[..])
  {
    hide U128.Value, U256.Value, W256, Numeral, Reversed, Sub32;
    var rDiv := new U256();
    var rMod := new U256();
    Copy256(rDiv, number);
    var base := SmallNumber(baseParam);
    if baseParam < 2 || baseParam > 16 {
      return false;
    }
    AtMost256Digits(number.Value(), baseParam);
    var limit := Sub32(outLength, 1);  // keeps a character for the terminator
    LimitMeans(outLength);
    var offset;
    ghost var before := out[..];
    ok, offset := ProduceDigits(rDiv, rMod, base, baseParam, out, limit);
    if !ok {
      TailOfTail(before, out[..], offset, limit);
      return false;
    }
    TailOfTail(before, out[..], offset, offset + 1);
    ReversedSame(out[..offset]);
    Terminate(out, offset);
    if outLength >= 2 {
      TailOfTail(before, out[..], offset + 1, outLength);
    }
  }
}
