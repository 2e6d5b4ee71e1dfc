/** keccak_hash of keccak-tiny.c: absorbing whole blocks in place, the last block in three
    xors, and squeezing straight into the output buffer. */
module KeccakHash {
  import opened Words
  import opened Fips202
  import opened KeccakLanes
  import opened Keccak
  import opened SpongeSteps

  datatype ZxErr = ZxOk | ZxInvalidCryptoSettings

  /** The state as the bit string of the standard. */
  function Str(a: array<Lane>): BitString
    requires a.Length == 25
    reads a
  {
    StringOf(a[..])
  }

  lemma ZeroState(a: array<Lane>)
    requires a.Length == 25 && forall k: nat :: k < 25 ==> a[k] == ZERO
    ensures Str(a) == Zeros(1600)
  {
  }

  method XorByte(a: array<Lane>, i: nat, v: Byte)
    requires a.Length == 25 && i < 200
    modifies a
    ensures Str(a) == XorAt(old(Str(a)), 8 * i, v)
  {
    hide StringOf, XorAt, XoredLane;
    ghost var s: State := a[..];
    XoredByte(s, i, v);
    a[i / 8] := XoredLane(a[i / 8], i % 8, v);
    assert a[..] == s[i / 8 := XoredLane(s[i / 8], i % 8, v)];
  }

  /** Xors len bytes of the source, from off on, into the start of the state. */
  method Xorin(a: array<Lane>, src: array<Byte>, off: nat, len: nat)
    requires a.Length == 25 && len <= 200 && off + len <= src.Length && (a as object) != src
    modifies a
    ensures Str(a) == XorBlock(old(Str(a)), BitsOf(src[off..off + len]))
  {
    hide *;
    ghost var s := Str(a);
    ghost var bytes := src[off..off + len];
    assert bytes[..0] == [];
    NoBits();
    XorNothing(s);
    for i := 0 to len
      invariant src[off..off + len] == bytes
      invariant Str(a) == XorBlock(s, BitsOf(bytes[..i]))
    {
      assert src[off + i] == bytes[i];
      assert bytes[..i + 1] == bytes[..i] + [bytes[i]];
      BitsSnoc(bytes[..i], bytes[i]);
      BitsLength(bytes[..i]);
      XorMore(s, BitsOf(bytes[..i]), bytes[i]);
      XorByte(a, i, src[off + i]);
    }
    assert bytes[..len] == bytes;
  }

  /** Appends the first len bytes of the state to the first off bytes of the output. */
  method Setout(a: array<Lane>, out: array<Byte>, off: nat, len: nat)
    requires a.Length == 25 && len <= 200 && off + len <= out.Length && (a as object) != out
    modifies out
    ensures BitsOf(out[..off + len]) == old(BitsOf(out[..off])) + Str(a)[..8 * len]
    ensures forall k :: off + len <= k < out.Length ==> out[k] == old(out[k])
  {
    hide StringOf, BitsOf, LaneByte;
    ghost var s: State := a[..];
    ghost var before := BitsOf(out[..off]);
    for i := 0 to len
      invariant a[..] == s
      invariant BitsOf(out[..off + i]) == before + StringOf(s)[..8 * i]
      invariant forall k :: off + i <= k < out.Length ==> out[k] == old(out[k])
    {
      ByteBits(s, i);
      ghost var done := out[..off + i];
      out[off + i] := LaneByte(a[i / 8], i % 8);
      assert out[..off + (i + 1)] == done + [out[off + i]];
      BitsSnoc(done, out[off + i]);
      NextByte(StringOf(s), i);
      JoinThree(before, StringOf(s)[..8 * i], StringOf(s)[8 * i..8 * i + 8]);
    }
  }

  method Permute(a: array<Lane>)
    requires a.Length == 25
    modifies a
    ensures Str(a) == F(old(Str(a)))
  {
    hide StringOf, StateOf, Permutation;
    StringRoundTrip(a[..]);
    Keccakf(a);
  }

  /** The first part of keccak_hash: the state after the whole input and its padding. */
  method AbsorbInput(a: array<Lane>, input: array<Byte>, inLen: nat)
    requires a.Length == 25 && inLen <= input.Length && (a as object) != input
    requires Str(a) == Zeros(1600)
    modifies a
    ensures var message := BitsOf(input[..inLen]);
            Str(a) == Absorb(Zeros(1600), message + Pad(|message|))
  {
    hide *;
    ghost var bytes := input[..inLen];
    var off, len := 0, inLen;
    AllRemaining(bytes);
    while len >= 136
      invariant 0 <= len <= inLen && off + len == inLen && off % 136 == 0
      invariant input[..inLen] == bytes
      invariant Absorb(Str(a), Remaining(bytes, off)) == Absorb(Zeros(1600), Remaining(bytes, 0))
    {
      AbsorbBytes(Str(a), bytes, off);
      assert input[off..off + 136] == bytes[off..off + 136];
      Xorin(a, input, off, 136);
      Permute(a);
      off, len := off + 136, len - 136;
    }
    RateBits();
    AbsorbTail(Str(a), bytes, off);
    XorByte(a, len, DELIM);
    XorByte(a, 135, FINAL);
    assert input[off..off + len] == bytes[off..];
    Xorin(a, input, off, len);
    Permute(a);
  }

  /** The second part: outLen bytes squeezed out. */
  method SqueezeOutput(a: array<Lane>, out: array<Byte>, outLen: nat)
    requires a.Length == 25 && outLen <= out.Length && (a as object) != out
    modifies a, out
    ensures BitsOf(out[..outLen]) == Squeeze(old(Str(a)), 8 * outLen)
    ensures forall k :: outLen <= k < out.Length ==> out[k] == old(out[k])
  {
    hide *;
    RateBits();
    ghost var goal := Squeeze(Str(a), 8 * outLen);
    var off, len := 0, outLen;
    assert out[..0] == [];
    NoBits();
    while len >= 136
      invariant 0 <= len <= outLen && off + len == outLen
      invariant BitsOf(out[..off]) + Squeeze(Str(a), 8 * len) == goal
      invariant forall k :: outLen <= k < out.Length ==> out[k] == old(out[k])
    {
      SqueezeStep(Str(a), 8 * len);
      JoinThree(BitsOf(out[..off]), Str(a)[..RATE], Squeeze(F(Str(a)), 8 * len - RATE));
      Setout(a, out, off, 136);
      Permute(a);
      off, len := off + 136, len - 136;
    }
    SqueezeLast(Str(a), 8 * len);
    Setout(a, out, off, len);
  }

  /** For every input and output length the output is the sponge of the input; the output
      buffer may even be the input buffer. */
  method Hash(input: array?<Byte>, inLen: u32, out: array?<Byte>, outLen: u32) returns (err: ZxErr)
    requires input != null ==> inLen <= input.Length
    requires out != null ==> outLen <= out.Length
    modifies out
    ensures err == ZxInvalidCryptoSettings <==> out == null || (input == null && inLen != 0)
    ensures err == ZxOk && input != null ==>
      BitsOf(out[..outLen]) == Sponge(BitsOf(old(input[..inLen])), 8 * outLen)
    ensures err == ZxOk && input == null ==> BitsOf(out[..outLen]) == Sponge([], 8 * outLen)
    ensures out != null ==> forall k :: outLen <= k < out.Length ==> out[k] == old(out[k])
    ensures err != ZxOk && out != null ==> out[..] == old(out[..])
  {
    hide *;
    if out == null || (input == null && inLen != 0) {
      return ZxInvalidCryptoSettings;
    }
    var source := input;
    if source == null {
      source := new Byte[0];
    }
    NoBits();
    var a := new Lane[25](i => ZERO);
    ZeroState(a);
    SpongeIs(BitsOf(source[..inLen]), 8 * outLen);
    AbsorbInput(a, source, inLen);
    SqueezeOutput(a, out, outLen);
    return ZxOk;
  }
}
