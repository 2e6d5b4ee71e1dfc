/** Byte-wise access to the state of the sponge, and the steps of absorbing and squeezing. */
module SpongeSteps {
  import opened Words
  import opened Fips202

  // ---------- Strings and states ----------

  lemma StringRoundTrip(a: State)
    ensures StateOf(StringOf(a)) == a
  {
    forall k: nat, z: nat | k < 25 && z < 64
      ensures LaneFrom(StringOf(a), k)[z] == a[k][z]
    {
      DivModUnique(64 * k + z, k, z, 64);
    }
    hide StringOf;
    forall k: nat | k < 25
      ensures LaneFrom(StringOf(a), k) == a[k]
    {
    }
  }

  lemma RateBits()
    ensures RATE == 8 * 136
  {
  }

  // ---------- Bytes of the state ----------

  /** A lane with byte j xored with v. */
  function XoredLane(l: Lane, j: nat, v: Byte): Lane
    requires j < 8
  {
    seq(64, z requires 0 <= z < 64 => if z / 8 == j then l[z] != v[z % 8] else l[z])
  }

  function LaneByte(l: Lane, j: nat): Byte
    requires j < 8
  {
    l[8 * j..8 * j + 8]
  }

  /** A string xored with a few bits from position p on. */
  function XorAt(s: BitString, p: nat, bits: seq<bool>): BitString
  {
    seq(1600, n requires 0 <= n < 1600 => s[n] != (p <= n < p + |bits| && bits[n - p]))
  }

  lemma XoredByte(a: State, i: nat, v: Byte)
    requires i < 200
    ensures StringOf(a[i / 8 := XoredLane(a[i / 8], i % 8, v)]) == XorAt(StringOf(a), 8 * i, v)
  {
  }

  lemma BytePosition(i: nat, n: nat)
    ensures 8 * i <= n < 8 * i + 8 <==> n / 64 == i / 8 && (n % 64) / 8 == i % 8
    ensures 8 * i <= n < 8 * i + 8 ==> (n % 64) % 8 == n - 8 * i
  {
  }

  lemma ByteBits(a: State, i: nat)
    requires i < 200
    ensures LaneByte(a[i / 8], i % 8) == StringOf(a)[8 * i..8 * i + 8]
  {
    forall c: nat | c < 8
      ensures LaneByte(a[i / 8], i % 8)[c] == StringOf(a)[8 * i + c]
    {
      BytePosition(i, 8 * i + c);
      assert StringOf(a)[8 * i + c] == BitOf(a, 8 * i + c);
    }
  }

  // ---------- Bytes as bits ----------

  lemma {:induction false} BitsLength(bytes: seq<Byte>)
    ensures |BitsOf(bytes)| == 8 * |bytes|
  {
    if bytes != [] {
      BitsLength(bytes[1..]);
    }
  }

  lemma {:induction false} BitsConcat(u: seq<Byte>, v: seq<Byte>)
    ensures BitsOf(u + v) == BitsOf(u) + BitsOf(v)
  {
    if u == [] {
      assert u + v == v;
    } else {
      BitsConcat(u[1..], v);
      assert (u + v)[1..] == u[1..] + v;
    }
  }

  lemma NoBits()
    ensures BitsOf([]) == []
  {
  }

  lemma BitsSnoc(u: seq<Byte>, b: Byte)
    ensures BitsOf(u + [b]) == BitsOf(u) + b
  {
    BitsConcat(u, [b]);
    assert BitsOf([b]) == b;
  }

  /** A byte string is determined by its bits. */
  lemma {:induction false} BitsInjective(u: seq<Byte>, v: seq<Byte>)
    requires BitsOf(u) == BitsOf(v)
    ensures u == v
  {
    BitsLength(u);
    BitsLength(v);
    if u != [] {
      assert BitsOf(u)[..8] == u[0] && BitsOf(u)[8..] == BitsOf(u[1..]);
      assert BitsOf(v)[..8] == v[0] && BitsOf(v)[8..] == BitsOf(v[1..]);
      BitsInjective(u[1..], v[1..]);
      assert u == [u[0]] + u[1..] && v == [v[0]] + v[1..];
    }
  }

  lemma XorMore(s: BitString, bits: seq<bool>, more: seq<bool>)
    ensures XorAt(XorBlock(s, bits), |bits|, more) == XorBlock(s, bits + more)
  {
  }

  lemma XorNothing(s: BitString)
    ensures XorBlock(s, []) == s
  {
  }

  // ---------- Absorbing ----------

  lemma AbsorbStep(s: BitString, block: seq<bool>, rest: seq<bool>)
    requires |block| == RATE
    ensures Absorb(s, block + rest) == Absorb(F(XorBlock(s, block)), rest)
  {
  }

  /** The padding of a message whose last partial block has m bits. */
  lemma PadOfTail(q: nat, m: nat)
    requires m <= RATE - 2
    ensures Pad(q * RATE + m) == [true] + Zeros(RATE - 2 - m) + [true]
    ensures |Pad(q * RATE + m)| == RATE - m
  {
  }

  const DELIM: Byte := [true, false, false, false, false, false, false, false]
  const FINAL: Byte := [false, false, false, false, false, false, false, true]

  /** Xoring the delimiter, the final bit and the tail one after another xors the padded tail. */
  lemma LastBlock(s: BitString, tail: seq<bool>, pad: seq<bool>)
    requires |tail| <= RATE - 8
    requires pad == [true] + Zeros(RATE - 2 - |tail|) + [true]
    ensures XorBlock(XorAt(XorAt(s, |tail|, DELIM), RATE - 8, FINAL), tail) == XorBlock(s, tail + pad)
  {
  }

  lemma AbsorbLast(s: BitString, block: seq<bool>)
    requires |block| == RATE
    ensures Absorb(s, block) == F(XorBlock(s, block))
  {
    AbsorbStep(s, block, []);
    assert block + [] == block;
  }

  /** No two messages are padded to the same string. */
  lemma PaddingInjective(u: seq<bool>, v: seq<bool>)
    requires u + Pad(|u|) == v + Pad(|v|)
    ensures u == v
  {
    if |u| < |v| {
      LongerDiffers(u, v);
    } else if |v| < |u| {
      LongerDiffers(v, u);
    }
    assert u == (u + Pad(|u|))[..|u|];
    assert v == (v + Pad(|v|))[..|v|];
  }

  lemma LongerDiffers(u: seq<bool>, v: seq<bool>)
    requires |u| < |v|
    ensures u + Pad(|u|) != v + Pad(|v|)
  {
    assert (v + Pad(|v|))[|v|];
    if |u + Pad(|u|)| == |v + Pad(|v|)| {
      assert !(u + Pad(|u|))[|v|];
    }
  }

  // ---------- Squeezing ----------

  lemma JoinThree(u: seq<bool>, v: seq<bool>, w: seq<bool>)
    ensures (u + v) + w == u + (v + w)
  {
  }

  lemma SqueezeLast(s: BitString, d: nat)
    requires d <= RATE
    ensures Squeeze(s, d) == s[..d]
  {
  }

  lemma SpongeIs(message: seq<bool>, d: nat)
    ensures Sponge(message, d) == Squeeze(Absorb(Zeros(1600), message + Pad(|message|)), d)
  {
  }

  lemma NextByte(s: BitString, i: nat)
    requires i < 200
    ensures s[..8 * i] + s[8 * i..8 * i + 8] == s[..8 * (i + 1)]
  {
  }

  lemma SqueezeStep(s: BitString, d: nat)
    requires d >= RATE
    ensures Squeeze(s, d) == s[..RATE] + Squeeze(F(s), d - RATE)
  {
  }

  /** What is still to be absorbed: the bits from byte off on, and the padding. */
  function Remaining(bytes: seq<Byte>, off: nat): seq<bool>
    requires off <= |bytes|
  {
    BitsOf(bytes[off..]) + Pad(8 * |bytes|)
  }

  lemma AllRemaining(bytes: seq<Byte>)
    ensures Remaining(bytes, 0) == BitsOf(bytes) + Pad(|BitsOf(bytes)|)
  {
    BitsLength(bytes);
    assert bytes[0..] == bytes;
  }

  lemma AbsorbBytes(s: BitString, bytes: seq<Byte>, off: nat)
    requires off + 136 <= |bytes|
    ensures Absorb(s, Remaining(bytes, off))
            == Absorb(F(XorBlock(s, BitsOf(bytes[off..off + 136]))), Remaining(bytes, off + 136))
  {
    var block, rest := BitsOf(bytes[off..off + 136]), BitsOf(bytes[off + 136..]);
    assert bytes[off..] == bytes[off..off + 136] + bytes[off + 136..];
    hide BitsOf, Pad, Absorb, XorBlock, F;
    BitsConcat(bytes[off..off + 136], bytes[off + 136..]);
    BitsLength(bytes[off..off + 136]);
    var pad := Pad(8 * |bytes|);
    assert (block + rest) + pad == block + (rest + pad);
    AbsorbStep(s, block, rest + pad);
  }

  /** The three xors of the last block, followed by the permutation, finish the absorption. */
  lemma AbsorbTail(s: BitString, bytes: seq<Byte>, off: nat)
    requires off <= |bytes| < off + 136 && off % 136 == 0
    ensures var tail := BitsOf(bytes[off..]);
            |tail| == 8 * (|bytes| - off)
            && Absorb(s, Remaining(bytes, off))
               == F(XorBlock(XorAt(XorAt(s, |tail|, DELIM), RATE - 8, FINAL), tail))
  {
    hide BitsOf, Pad, Absorb, XorBlock, XorAt, F, DELIM, FINAL;
    var tail := BitsOf(bytes[off..]);
    BitsLength(bytes[off..]);
    PadOfTail(off / 136, |tail|);
    assert 8 * |bytes| == off / 136 * RATE + |tail|;
    var pad := Pad(8 * |bytes|);
    LastBlock(s, tail, pad);
    AbsorbLast(s, tail + pad);
  }
}
