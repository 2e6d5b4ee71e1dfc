/** readu128BE and readu256BE: big-endian bytes into the limb structures. */
module LoadBytes {
  import opened Words
  import opened Uint128
  import opened Uint256
  import opened BigEndian
  import TwoDigits

  /** Or-ing a byte below the bits already read. */
  lemma OrByte(high: nat, b: u8, k: nat)
    ensures Or(high * Pow2(k + 8), b * Pow2(k)) == (high * 0x100 + b) * Pow2(k)
  {
    assert Pow2(8) == 0x100;
    OrSplit(high, 0, 0, b, 8);
    assert Digits(high, 0, 0x100) == high * 0x100 && Digits(0, b, 0x100) == b;
    OrZeros(high);
    OrZeros(b);
    OrShift(high * 0x100, b, k);
    Pow2Sum(8, k);
    TwoDigits.Reassociate(high, 0x100, Pow2(k));
    TwoDigits.Commute(0x100, Pow2(k));
  }

  lemma OrZeros(a: nat)
    ensures Or(a, 0) == a && Or(0, a) == a
  {
  }

  lemma OrShift(a: nat, b: nat, k: nat)
    ensures Or(a * Pow2(k), b * Pow2(k)) == Or(a, b) * Pow2(k)
  {
    OrSplit(a, 0, b, 0, k);
    assert Digits(a, 0, Pow2(k)) == a * Pow2(k) && Digits(b, 0, Pow2(k)) == b * Pow2(k);
    assert Digits(Or(a, b), Or(0, 0), Pow2(k)) == Or(a, b) * Pow2(k);
  }

  /** The first k of the eight bytes, in place. */
  ghost predicate HasRead(s: seq<u8>, k: nat, word: u64)
    requires |s| == 8 && k <= 8
  {
    word == Value(s[..k]) * Pow2(64 - 8 * k)
  }

  lemma ReadFirst(s: seq<u8>)
    requires |s| == 8
    ensures HasRead(s, 1, Place(s[0], 0))
  {
    ByteShift(s[0], 56 - 8 * 0);
    Snoc([], s[0]);
    assert s[..1] == [] + [s[0]];
  }

  lemma ReadNext(s: seq<u8>, k: nat, word: u64)
    requires |s| == 8 && 1 <= k < 8 && HasRead(s, k, word)
    ensures HasRead(s, k + 1, Or64(word, Place(s[k], k)))
  {
    ByteShift(s[k], 56 - 8 * k);
    OrByte(Value(s[..k]), s[k], 56 - 8 * k);
    Snoc(s[..k], s[k]);
    assert s[..k + 1] == s[..k] + [s[k]];
  }

  /** A byte shifted within a word loses nothing. */
  lemma ByteShift(b: u8, k: nat)
    requires k <= 56
    ensures Shl64(b, k) == b * Pow2(k)
  {
    Pow2Sum(8, k);
    Pow2Grows(8 + k, 64);
    Pow2Words();
    ScaleBounds(b, 0, 0, 0x100, Pow2(k));
    ShlExact(b, k);
  }

  /** Byte i of eight, shifted to its place in the word. */
  function Place(b: u8, i: nat): u64
    requires i < 8
  {
    Shl64(b, 56 - 8 * i)
  }

  function ReadUint64BE(s: seq<u8>): u64
    requires |s| == 8
  {
    Or64(Or64(Or64(Or64(Or64(Or64(Or64(
      Place(s[0], 0), Place(s[1], 1)), Place(s[2], 2)), Place(s[3], 3)),
      Place(s[4], 4)), Place(s[5], 5)), Place(s[6], 6)), Place(s[7], 7))
  }

  lemma ReadsBigEndian(s: seq<u8>)
    requires |s| == 8
    ensures ReadUint64BE(s) == Value(s)
  {
    hide Or64, Place, HasRead, Value;
    ReadFirst(s);
    var w := Place(s[0], 0);
    ReadNext(s, 1, w);
    w := Or64(w, Place(s[1], 1));
    ReadNext(s, 2, w);
    w := Or64(w, Place(s[2], 2));
    ReadNext(s, 3, w);
    w := Or64(w, Place(s[3], 3));
    ReadNext(s, 4, w);
    w := Or64(w, Place(s[4], 4));
    ReadNext(s, 5, w);
    w := Or64(w, Place(s[5], 5));
    ReadNext(s, 6, w);
    w := Or64(w, Place(s[6], 6));
    ReadNext(s, 7, w);
    w := Or64(w, Place(s[7], 7));
    AllRead(s, w);
  }

  lemma AllRead(s: seq<u8>, word: u64)
    requires |s| == 8 && HasRead(s, 8, word)
    ensures word == Value(s)
  {
    assert s[..8] == s;
    assert Pow2(0) == 1;
  }

  /** The number in the 16 bytes from `at`. */
  method Readu128BE(buffer: array<u8>, at: nat, target: U128)
    requires at + 16 <= buffer.Length
    modifies target
    ensures target.Value() == Value(buffer[at..at + 16])
  {
    hide *;
    var high, low := buffer[at..at + 8], buffer[at + 8..at + 16];
    ReadsBigEndian(high);
    ReadsBigEndian(low);
    assert buffer[at..at + 16] == high + low;
    Concat(high, low);
    Pow2Words();
    target.upper := ReadUint64BE(high);
    target.lower := ReadUint64BE(low);
    Parts(target);
  }

  /** The number in the first 32 bytes. */
  method Readu256BE(buffer: array<u8>, target: U256)
    requires buffer.Length >= 32
    requires target.upper != target.lower
    modifies target.upper, target.lower
    ensures target.Value() == Value(buffer[..32])
  {
    hide *;
    assert buffer[..32] == buffer[0..16] + buffer[16..32];
    Concat(buffer[0..16], buffer[16..32]);
    Pow2Words();
    Readu128BE(buffer, 0, target.upper);
    Readu128BE(buffer, 16, target.lower);
    Halves(target);
  }
}
