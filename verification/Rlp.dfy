/** The RLP decoder: a cursor over a slice of the memory, moved item by item. */
module Rlp {
  import opened Words
  import opened Uint128
  import opened Uint256
  import opened ParserCommon
  import opened RlpFormat
  import opened RlpStream
  import BigEndian
  import LoadBytes

  // ---------- The decoder ----------

  /** parser_context_t: a cursor over memory[buffer .. buffer + bufferLen]. */
  class Context {
    const memory: seq<u8>
    var buffer: int
    var bufferLen: u16
    var offset: u16

    constructor (memory: seq<u8>, buffer: int, bufferLen: u16)
      requires bufferLen > 0 ==> 0 <= buffer && buffer + bufferLen <= |memory|
      ensures Valid() && this.memory == memory
      ensures this.buffer == buffer && this.bufferLen == bufferLen && offset == 0
    {
      this.memory := memory;
      this.buffer := buffer;
      this.bufferLen := bufferLen;
      this.offset := 0;
    }

    ghost predicate Valid()
      reads this
    {
      && offset <= bufferLen
      && (bufferLen > 0 ==> 0 <= buffer && buffer + bufferLen <= |memory|)
    }

    /** The bytes not read yet. */
    ghost function Rest(): (s: seq<u8>)
      requires Valid()
      reads this
      ensures |s| == bufferLen - offset
    {
      if bufferLen == 0 then [] else memory[buffer + offset..buffer + bufferLen]
    }

    /** Position of the next byte. */
    ghost function Position(): int
      reads this
    {
      buffer + offset
    }
  }

  method ReadBytes(ctx: Context, buffLen: u64) returns (err: ParserError, buff: int)
    requires ctx.Valid()
    modifies ctx`offset
    ensures ctx.Valid()
    ensures err == if buffLen <= |old(ctx.Rest())| then Ok else UnexpectedBufferEnd
    ensures err == Ok ==> buff == old(ctx.Position()) && ctx.offset == old(ctx.offset) + buffLen
    ensures err == Ok ==> ctx.Rest() == old(ctx.Rest())[buffLen..]
    ensures err == Ok && buffLen > 0 ==> 0 <= buff && buff + buffLen <= |ctx.memory|
                                         && ctx.memory[buff..buff + buffLen] == old(ctx.Rest())[..buffLen]
    ensures err != Ok ==> buff == NULL && ctx.offset == old(ctx.offset)
  {
    ghost var s := ctx.Rest();
    if ctx.bufferLen - ctx.offset < buffLen {
      return UnexpectedBufferEnd, NULL;
    }
    buff := ctx.buffer + ctx.offset;
    ctx.offset := (ctx.offset + buffLen) % 0x1_0000;
    return Ok, buff;
  }

  /** The big-endian length loop; with at most eight bytes it never wraps. */
  method AccumulateLength(memory: seq<u8>, at: nat, bytesLen: u8) returns (len: u64)
    requires 1 <= bytesLen <= 8 && at + bytesLen <= |memory|
    ensures len == BigEndian.Value(memory[at..at + bytesLen])
  {
    len := 0;
    var i := 0;
    assert memory[at..at + 0] == [];
    while i < bytesLen
      invariant 0 <= i <= bytesLen
      invariant len == BigEndian.Value(memory[at..at + i])
    {
      var b := memory[at + i];
      assert memory[at..at + i + 1] == memory[at..at + i] + [b];
      BigEndian.Snoc(memory[at..at + i], b);
      LengthFits(memory[at..at + i], b);
      len := Shl64(len, 8);
      len := Wrap64(len + b);
      i := i + 1;
    }
  }

  lemma EightBytesFit(s: seq<u8>)
    requires |s| <= 8
    ensures BigEndian.Value(s) < W64
  {
    hide BigEndian.Value;
    BigEndian.Bound(s);
    Pow2Grows(8 * |s|, 64);
    Pow2Words();
  }

  lemma LengthFits(s: seq<u8>, b: u8)
    requires |s| < 8
    ensures BigEndian.Value(s) < W64 && BigEndian.Value(s + [b]) < W64
    ensures Shl64(BigEndian.Value(s), 8) == BigEndian.Value(s) * 0x100
    ensures Wrap64(BigEndian.Value(s) * 0x100 + b) == BigEndian.Value(s + [b])
  {
    var v := BigEndian.Value(s);
    BigEndian.Snoc(s, b);
    EightBytesFit(s);
    EightBytesFit(s + [b]);
    assert Pow2(8) == 0x100;
    hide Pow2, Shl64, BigEndian.Value;
    ShlExact(v, 8);
    ModSmall(v * 0x100 + b, W64);
  }

  /** The state after an item has been read from a slice whose first byte is at `base`. */
  ghost predicate ReadsItem(r: Result<Header>, s: seq<u8>, base: int, start: nat,
                            err: ParserError, item: Item, offset: nat, rest: seq<u8>)
  {
    && err == r.Code()
    && (err == Ok ==>
          && r.Success?
          && item == ItemAt(r.value, base)
          && offset == start + r.value.size
          && r.value.size <= |s| && rest == s[r.value.size..])
  }

  lemma ReadsNothing(s: seq<u8>, base: int, start: nat, item: Item, offset: nat, rest: seq<u8>)
    requires s == []
    ensures ReadsItem(ReadHeader(s), s, base, start, UnexpectedBufferEnd, item, offset, rest)
  {
  }

  lemma ReadsByte(s: seq<u8>, base: int, start: nat)
    requires s != [] && s[0] <= 0x7F
    ensures ReadsItem(ReadHeader(s), s, base, start, Ok, Item(Byte, base, 0), start + 1, s[1..])
  {
  }

  lemma ReadsAfterPrefix(kind: Kind, s: seq<u8>, base: int, start: nat, lenBytes: nat, len: nat,
                         ptr: int, offset: nat, rest: seq<u8>)
    requires 1 + lenBytes + len <= |s|
    requires ptr == base + 1 + lenBytes && offset == start + 1 + lenBytes + len
    requires rest == s[1..][lenBytes..][len..]
    ensures ReadsItem(AfterPrefix(kind, s[1..], lenBytes, len), s, base, start,
                      Ok, Item(kind, ptr, len), offset, rest)
  {
  }

  /** The rest of a long form, behind its prefix: the length, then the content. */
  method ReadLong(ctx: Context, rlp: array<Item>, slot: nat, bytesLen: u8, ghost s: seq<u8>)
    returns (err: ParserError)
    requires ctx.Valid() && slot < rlp.Length && 1 <= bytesLen <= 8
    requires s != [] && ctx.Rest() == s[1..] && ctx.offset >= 1
    modifies ctx`offset, rlp
    ensures ctx.Valid()
    ensures forall i :: 0 <= i < rlp.Length && i != slot ==> rlp[i] == old(rlp[i])
    ensures ReadsItem(LongForm(old(rlp[slot].kind), s[1..], bytesLen), s,
                      old(ctx.Position()) - 1, old(ctx.offset) - 1, err, rlp[slot], ctx.offset, ctx.Rest())
  {
    hide BigEndian.Value, Context.Rest;
    var rlpLenPtr, ptr;
    err, rlpLenPtr := ReadBytes(ctx, bytesLen);
    if err != Ok {
      return;
    }
    rlp[slot] := rlp[slot].(rlpLen := 0);
    var len := AccumulateLength(ctx.memory, rlpLenPtr, bytesLen);
    rlp[slot] := rlp[slot].(rlpLen := len);
    err, ptr := ReadBytes(ctx, len);
    if err != Ok {
      return;
    }
    rlp[slot] := rlp[slot].(ptr := ptr);
    ReadsAfterPrefix(rlp[slot].kind, s, old(ctx.Position()) - 1, old(ctx.offset) - 1, bytesLen, len,
                     ptr, ctx.offset, ctx.Rest());
  }

  /** The content of a short form; its length is already in the slot. */
  method ReadShort(ctx: Context, rlp: array<Item>, slot: nat, ghost s: seq<u8>) returns (err: ParserError)
    requires ctx.Valid() && slot < rlp.Length && rlp[slot].rlpLen < 0x100
    requires s != [] && ctx.Rest() == s[1..] && ctx.offset >= 1
    modifies ctx`offset, rlp
    ensures ctx.Valid()
    ensures forall i :: 0 <= i < rlp.Length && i != slot ==> rlp[i] == old(rlp[i])
    ensures ReadsItem(AfterPrefix(old(rlp[slot].kind), s[1..], 0, old(rlp[slot].rlpLen)), s,
                      old(ctx.Position()) - 1, old(ctx.offset) - 1, err, rlp[slot], ctx.offset, ctx.Rest())
  {
    hide Context.Rest;
    var ptr;
    var len := rlp[slot].rlpLen;
    err, ptr := ReadBytes(ctx, len);
    if err != Ok {
      return;
    }
    rlp[slot] := rlp[slot].(ptr := ptr);
    assert s[1..][0..] == s[1..];
    ReadsAfterPrefix(rlp[slot].kind, s, old(ctx.Position()) - 1, old(ctx.offset) - 1, 0, len,
                     ptr, ctx.offset, ctx.Rest());
  }

  /** The forms behind a prefix byte above 0x7F. */
  method ReadForm(ctx: Context, rlp: array<Item>, slot: nat, prefix: u8, ghost s: seq<u8>) returns (err: ParserError)
    requires ctx.Valid() && slot < rlp.Length && prefix > 0x7F
    requires s != [] && s[0] == prefix && ctx.Rest() == s[1..] && ctx.offset >= 1
    modifies ctx`offset, rlp
    ensures ctx.Valid()
    ensures forall i :: 0 <= i < rlp.Length && i != slot ==> rlp[i] == old(rlp[i])
    ensures ReadsItem(ReadHeader(s), s, old(ctx.Position()) - 1, old(ctx.offset) - 1,
                      err, rlp[slot], ctx.offset, ctx.Rest())
  {
    hide *;
    if prefix <= 0xB7 {
      ShortForms(s);
      rlp[slot] := rlp[slot].(kind := String, rlpLen := prefix - 0x80);
      err := ReadShort(ctx, rlp, slot, s);
    } else if prefix <= 0xBF {
      LongForms(s);
      rlp[slot] := rlp[slot].(kind := String);
      err := ReadLong(ctx, rlp, slot, prefix - 0xB7, s);
    } else if prefix <= 0xF7 {
      ShortForms(s);
      rlp[slot] := rlp[slot].(kind := List, rlpLen := prefix - 0xC0);
      err := ReadShort(ctx, rlp, slot, s);
    } else {
      LongForms(s);
      rlp[slot] := rlp[slot].(kind := List);
      err := ReadLong(ctx, rlp, slot, prefix - 0xF7, s);
    }
  }

  /** rlp_read: one item into a slot. On an error the slot may be left half written. */
  method RlpRead(ctx: Context, rlp: array<Item>, slot: nat) returns (err: ParserError)
    requires ctx.Valid() && slot < rlp.Length
    modifies ctx`offset, rlp
    ensures ctx.Valid()
    ensures forall i :: 0 <= i < rlp.Length && i != slot ==> rlp[i] == old(rlp[i])
    ensures ReadsItem(ReadHeader(old(ctx.Rest())), old(ctx.Rest()), old(ctx.Position()), old(ctx.offset),
                      err, rlp[slot], ctx.offset, ctx.Rest())
  {
    hide *;
    ghost var s, base, start := ctx.Rest(), ctx.Position(), ctx.offset;
    PositionMeans(ctx);
    var prefixPtr;
    err, prefixPtr := ReadBytes(ctx, 1);
    if err != Ok {
      ReadsNothing(s, base, start, rlp[slot], ctx.offset, ctx.Rest());
      return;
    }
    PositionMeans(ctx);
    var prefix := ctx.memory[prefixPtr];
    assert prefix == s[0] by {
      assert ctx.memory[prefixPtr..prefixPtr + 1][0] == prefix;
    }
    if prefix <= 0x7F {
      ReadsByte(s, base, start);
      rlp[slot] := Item(Byte, prefixPtr, 0);
    } else {
      err := ReadForm(ctx, rlp, slot, prefix, s);
    }
  }

  /** One iteration of the loop of rlp_parseStream. */
  method ParseNext(ctx: Context, rlp: array<Item>, fields: nat, ghost s: seq<u8>, ghost base: int, ghost max: nat,
                   ghost start: nat, ghost before: seq<Item>, ghost done: seq<Item>) returns (err: ParserError)
    requires ctx.Valid() && ctx.offset < ctx.bufferLen && fields < rlp.Length
    requires start <= ctx.offset && ctx.Position() == base + (ctx.offset - start) && |done| == fields < max
    requires StreamSoFar(s, base, max, done, ctx.offset - start, ctx.Rest())
    requires rlp[..] == Overwrite(before, done) && |before| == rlp.Length
    modifies ctx`offset, rlp
    ensures ctx.Valid() && rlp[..] == Overwrite(before, done + [rlp[fields]])
    ensures err == Ok ==>
              && start <= ctx.offset && ctx.Position() == base + (ctx.offset - start)
              && StreamSoFar(s, base, max, done + [rlp[fields]], ctx.offset - start, ctx.Rest())
    ensures err != Ok ==> err == UnexpectedBufferEnd && ParseItems(s, base, max).Failure?
  {
    hide *;
    ghost var rest, at, slots := ctx.Rest(), ctx.offset - start, rlp[..];
    PositionMeans(ctx);
    err := RlpRead(ctx, rlp, fields);
    PositionMeans(ctx);
    assert rlp[..] == slots[fields := rlp[fields]];
    OverwriteNext(before, done, rlp[fields]);
    StreamStep(s, base, max, done, at, rest, start, err, rlp[fields], ctx.offset, ctx.Rest());
  }

  /** rlp_parseStream: items into consecutive slots until the slice or the slots run out. */
  method RlpParseStream(ctx: Context, rlp: array<Item>, maxFields: u16) returns (err: ParserError, fields: u16)
    requires ctx.Valid() && maxFields <= rlp.Length
    modifies ctx`offset, rlp
    ensures ctx.Valid() && fields <= maxFields
    ensures ReadsStream(old(ctx.Rest()), old(ctx.Position()), maxFields, old(ctx.offset), old(rlp[..]),
                        err, fields, ctx.offset, rlp[..])
  {
    hide *;
    fields := 0;
    ghost var before, start := rlp[..], ctx.offset;
    ghost var s, base := ctx.Rest(), ctx.Position();
    ghost var done: seq<Item> := [];
    StreamBegin(s, base, maxFields);
    ValidMeans(ctx);
    Overwritten(before, [], rlp[..]);
    while ctx.offset < ctx.bufferLen && fields < maxFields
      invariant ctx.Valid() && fields <= maxFields && |done| == fields
      invariant start <= ctx.offset && ctx.Position() == base + (ctx.offset - start)
      invariant StreamSoFar(s, base, maxFields, done, ctx.offset - start, ctx.Rest())
      invariant rlp[..] == Overwrite(before, done)
      decreases maxFields - fields
    {
      err := ParseNext(ctx, rlp, fields, s, base, maxFields, start, before, done);
      if err != Ok {
        StreamFails(s, base, maxFields, start, before, fields, ctx.offset, rlp[..]);
        return;
      }
      done := done + [rlp[fields]];
      fields := fields + 1;
    }
    StreamEnd(s, base, maxFields, done, start, before, ctx.offset, ctx.Rest());
    err := Ok;
  }

  /** Slots whose leading ones have been overwritten. */
  ghost function Overwrite(before: seq<Item>, done: seq<Item>): (after: seq<Item>)
  {
    if |done| <= |before| then done + before[|done|..] else before
  }

  lemma Overwritten(before: seq<Item>, done: seq<Item>, slots: seq<Item>)
    requires slots == before && done == []
    ensures slots == Overwrite(before, done)
  {
  }

  lemma OverwriteNext(before: seq<Item>, done: seq<Item>, x: Item)
    requires |done| < |before|
    ensures |Overwrite(before, done)| == |before|
    ensures Overwrite(before, done)[|done| := x] == Overwrite(before, done + [x])
  {
  }

  lemma ValidMeans(ctx: Context)
    ensures ctx.Valid() ==> ctx.offset <= ctx.bufferLen
  {
  }

  lemma PositionMeans(ctx: Context)
    ensures ctx.Position() == ctx.buffer + ctx.offset
  {
  }

  /** The items read so far, completed by what the rest of the slice says, are what the
      whole slice says. */
  ghost predicate StreamSoFar(s: seq<u8>, base: int, max: nat, done: seq<Item>, consumed: nat, rest: seq<u8>)
  {
    && consumed <= |s| && |done| <= max
    && rest == s[consumed..]
    && ParseItems(s, base, max) == Join(done, consumed, ParseItems(rest, base + consumed, max - |done|))
  }

  lemma StreamStep(s: seq<u8>, base: int, max: nat, done: seq<Item>, consumed: nat, rest: seq<u8>,
                   start: nat, err: ParserError, item: Item, offset: nat, next: seq<u8>)
    requires StreamSoFar(s, base, max, done, consumed, rest) && rest != [] && |done| < max
    requires ReadsItem(ReadHeader(rest), rest, base + consumed, start + consumed, err, item, offset, next)
    ensures err == Ok ==>
              && offset >= start + consumed
              && StreamSoFar(s, base, max, done + [item], offset - start, next)
    ensures err != Ok ==> err == UnexpectedBufferEnd && ParseItems(s, base, max).Failure?
  {
    hide ReadHeader, ParseItems, Join;
    ParseItemsUnfold(rest, base + consumed, max - |done|);
    JoinFailure(done, consumed, ParseItems(rest, base + consumed, max - |done|));
    if err == Ok {
      var h := ReadHeader(rest).value;
      assert rest[h.size..] == s[consumed + h.size..];
      JoinJoin(done, consumed, [item], h.size, ParseItems(next, base + consumed + h.size, max - |done| - 1));
    }
  }

  lemma StreamFails(s: seq<u8>, base: int, max: nat, start: nat, before: seq<Item>,
                    fields: nat, offset: nat, slots: seq<Item>)
    requires ParseItems(s, base, max).Failure?
    ensures ReadsStream(s, base, max, start, before, UnexpectedBufferEnd, fields, offset, slots)
  {
  }

  lemma StreamEnd(s: seq<u8>, base: int, max: nat, done: seq<Item>,
                  start: nat, before: seq<Item>, offset: nat, rest: seq<u8>)
    requires start <= offset && StreamSoFar(s, base, max, done, offset - start, rest)
    requires rest == [] || |done| == max
    requires |done| <= |before|
    ensures ReadsStream(s, base, max, start, before, Ok, |done|, offset, Overwrite(before, done))
  {
  }

  lemma StreamBegin(s: seq<u8>, base: int, max: nat)
    ensures StreamSoFar(s, base, max, [], 0, s)
  {
    assert s[0..] == s;
    JoinNothing([], 0, ParseItems(s, base, max));
  }

  /** What rlp_parseStream leaves behind: the error of the slice, or its items in the first
      slots with the other slots untouched and the cursor behind the last item. */
  ghost predicate ReadsStream(s: seq<u8>, base: int, max: nat, start: nat, before: seq<Item>,
                              err: ParserError, fields: nat, offset: nat, slots: seq<Item>)
  {
    var r := ParseItems(s, base, max);
    && err == r.Code()
    && (err == Ok ==>
          && fields == |r.value.items|
          && offset == start + r.value.consumed
          && slots == Overwrite(before, r.value.items))
  }

  // ---------- Lists and numbers ----------

  lemma ReadsList(memory: seq<u8>, list: Item, max: nat, before: seq<Item>, err: ParserError, fields: nat,
                  offset: nat, slots: seq<Item>)
    requires list.kind == List && Inside(list, |memory|)
    requires ReadsStream(memory[list.ptr..list.ptr + list.rlpLen % 0x1_0000], list.ptr, max, 0, before,
                         err, fields, offset, slots)
    ensures err == ListItems(memory, list, max).Code()
    ensures err == Ok ==> fields == |ListItems(memory, list, max).value|
                          && slots == Overwrite(before, ListItems(memory, list, max).value)
  {
  }

  method RlpReadList(memory: seq<u8>, list: Item, fields: array<Item>, maxFields: u16)
    returns (err: ParserError, listFields: u16)
    requires list.kind == List ==> Inside(list, |memory|)
    requires maxFields <= fields.Length
    modifies fields
    ensures err == ListItems(memory, list, maxFields).Code()
    ensures err == Ok ==>
              && listFields == |ListItems(memory, list, maxFields).value|
              && fields[..] == Overwrite(old(fields[..]), ListItems(memory, list, maxFields).value)
  {
    hide ParseItems, ReadsStream, Overwrite, Context.Rest;
    if list.kind != List {
      return UnexpectedError, 0;
    }
    var ctx := new Context(memory, list.ptr, list.rlpLen % 0x1_0000);
    assert ctx.Rest() == memory[list.ptr..list.ptr + list.rlpLen % 0x1_0000] by {
      FreshRest(ctx);
    }
    err, listFields := RlpParseStream(ctx, fields, maxFields);
    ReadsList(memory, list, maxFields, old(fields[..]), err, listFields, ctx.offset, fields[..]);
  }

  lemma FreshRest(ctx: Context)
    requires ctx.Valid() && ctx.offset == 0 && 0 <= ctx.buffer && ctx.buffer + ctx.bufferLen <= |ctx.memory|
    ensures ctx.Rest() == ctx.memory[ctx.buffer..ctx.buffer + ctx.bufferLen]
  {
  }

  /** copyBytes: into buff[at .. at + buffLen]. */
  method CopyBytes(ctx: Context, buff: array<u8>, at: nat, buffLen: u64) returns (err: ParserError)
    requires ctx.Valid() && at + buffLen <= buff.Length
    modifies ctx`offset, buff
    ensures ctx.Valid()
    ensures err == if buffLen <= |old(ctx.Rest())| then Ok else UnexpectedBufferEnd
    ensures err == Ok ==>
              && ctx.offset == old(ctx.offset) + buffLen
              && buff[..] == old(buff[..at]) + old(ctx.Rest())[..buffLen] + old(buff[at + buffLen..])
    ensures err != Ok ==> ctx.offset == old(ctx.offset) && buff[..] == old(buff[..])
  {
    if ctx.bufferLen - ctx.offset < buffLen {
      return UnexpectedBufferEnd;
    }
    forall i | 0 <= i < buffLen {
      buff[at + i] := ctx.memory[ctx.buffer + ctx.offset + i];
    }
    ctx.offset := (ctx.offset + buffLen) % 0x1_0000;
    return Ok;
  }

  lemma PaddedValue(zeros: seq<u8>, s: seq<u8>)
    requires forall i :: 0 <= i < |zeros| ==> zeros[i] == 0
    ensures BigEndian.Value(zeros + s) == BigEndian.Value(s)
  {
    BigEndian.Concat(zeros, s);
    BigEndian.AllZeros(zeros);
  }

  lemma SingleByte(s: seq<u8>, b: u8)
    requires s == [b]
    ensures BigEndian.Value(s) == b
  {
  }

  method RlpReadUInt256(memory: seq<u8>, rlp: Item, value: U256) returns (err: ParserError)
    requires Inside(rlp, |memory|) && value.upper != value.lower
    modifies value.upper, value.lower
    ensures err == UInt256Of(memory, rlp).Code()
    ensures err == Ok ==> value.Value() == UInt256Of(memory, rlp).value
  {
    hide BigEndian.Value, U256.Value, Context.Rest;
    var tmpBuffer := new u8[32](i => 0);
    var ctx := new Context(memory, rlp.ptr, rlp.rlpLen % 0x1_0000);
    match rlp.kind {
      case String =>
        if rlp.rlpLen > 32 {
          return ValueOutOfRange;
        }
        FreshRest(ctx);
        err := CopyBytes(ctx, tmpBuffer, 32 - rlp.rlpLen, rlp.rlpLen);
        ghost var zeros := tmpBuffer[..32 - rlp.rlpLen];
        assert tmpBuffer[..32] == zeros + Content(memory, rlp);
        PaddedValue(zeros, Content(memory, rlp));
      case Byte =>
        tmpBuffer[31] := memory[rlp.ptr];
        assert tmpBuffer[..32] == tmpBuffer[..31] + [memory[rlp.ptr]];
        PaddedValue(tmpBuffer[..31], [memory[rlp.ptr]]);
        SingleByte([memory[rlp.ptr]], memory[rlp.ptr]);
      case List =>
        return UnexpectedType;
    }
    LoadBytes.Readu256BE(tmpBuffer, value);
    err := Ok;
  }
}
