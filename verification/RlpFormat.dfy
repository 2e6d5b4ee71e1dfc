/** The RLP format as the decoder reads it: what a header, a stream, a list and a number say.
    Items are (kind, position, length) over one immutable memory. */
module RlpFormat {
  import opened Words
  import opened ParserCommon
  import BigEndian

  datatype Kind = Byte | String | List

  const NULL: int := -1

  /** rlp_t. An item of kind Byte is its own content and records length 0. */
  datatype Item = Item(kind: Kind, ptr: int, rlpLen: nat)

  /** A zero-initialised rlp_t. */
  const NO_ITEM := Item(Byte, NULL, 0)

  /** The bytes an item occupies after its header. */
  function ContentLength(item: Item): nat
  {
    if item.kind == Byte then 1 else item.rlpLen
  }

  /** The content lies inside a memory of the given size. */
  predicate Inside(item: Item, size: nat)
  {
    && 0 <= item.ptr && item.ptr + ContentLength(item) <= size
    && (item.kind == Byte ==> item.rlpLen == 0)
  }

  function Content(memory: seq<u8>, item: Item): seq<u8>
    requires Inside(item, |memory|)
  {
    memory[item.ptr..item.ptr + ContentLength(item)]
  }

  // ---------- What one header says ----------

  /** An item found at the head of a byte string: its content starts at `start` and ends, with
      the item, at `size`. */
  datatype Header = Header(kind: Kind, start: nat, rlpLen: nat, size: nat)

  predicate WellFormed(h: Header, available: nat)
  {
    && h.rlpLen < h.size <= available
    && h.start + (if h.kind == Byte then 1 else h.rlpLen) == h.size
    && (h.kind == Byte ==> h.rlpLen == 0)
  }

  function ShortHeader(kind: Kind, len: nat, available: nat): (r: Result<Header>)
    requires kind != Byte
    ensures r.Success? <==> 1 + len <= available
    ensures r.Success? ==> WellFormed(r.value, available)
  {
    if 1 + len > available then Failure(UnexpectedBufferEnd)
    else Success(Header(kind, 1, len, 1 + len))
  }

  /** A header whose length is itself written in `lenBytes` bytes. */
  function LongHeader(kind: Kind, s: seq<u8>, lenBytes: nat): (r: Result<Header>)
    requires |s| > 0 && kind != Byte
    ensures r.Success? ==> WellFormed(r.value, |s|)
  {
    if 1 + lenBytes > |s| then Failure(UnexpectedBufferEnd) else
      var len := BigEndian.Value(s[1..1 + lenBytes]);
      if 1 + lenBytes + len > |s| then Failure(UnexpectedBufferEnd)
      else Success(Header(kind, 1 + lenBytes, len, 1 + lenBytes + len))
  }

  function ReadHeader(s: seq<u8>): (r: Result<Header>)
    ensures r.Success? ==> WellFormed(r.value, |s|)
    ensures r.Failure? ==> r.error == UnexpectedBufferEnd
  {
    if s == [] then Failure(UnexpectedBufferEnd)
    else if s[0] <= 0x7F then Success(Header(Byte, 0, 0, 1))
    else if s[0] <= 0xB7 then ShortHeader(String, s[0] - 0x80, |s|)
    else if s[0] <= 0xBF then LongHeader(String, s, s[0] - 0xB7)
    else if s[0] <= 0xF7 then ShortHeader(List, s[0] - 0xC0, |s|)
    else LongHeader(List, s, s[0] - 0xF7)
  }

  // ---------- What a stream of items says ----------

  datatype Items = Items(items: seq<Item>, consumed: nat)

  function ItemAt(h: Header, base: int): Item
  {
    Item(h.kind, base + h.start, h.rlpLen)
  }

  /** Items in front of the outcome of reading the rest. */
  function Join(front: seq<Item>, consumed: nat, rest: Result<Items>): Result<Items>
  {
    if rest.Failure? then rest
    else Success(Items(front + rest.value.items, consumed + rest.value.consumed))
  }

  /** The first items of s, at most `max`, as positions counted from `base`. */
  function ParseItems(s: seq<u8>, base: int, max: nat): (r: Result<Items>)
    ensures r.Failure? ==> r.error == UnexpectedBufferEnd
    ensures r.Success? ==> |r.value.items| <= max && r.value.consumed <= |s|
    decreases max
  {
    if s == [] || max == 0 then Success(Items([], 0)) else
      var h :- ReadHeader(s);
      Join([ItemAt(h, base)], h.size, ParseItems(s[h.size..], base + h.size, max - 1))
  }

  lemma ParseItemsUnfold(s: seq<u8>, base: int, max: nat)
    requires s != [] && max > 0
    ensures ParseItems(s, base, max) ==
            if ReadHeader(s).Failure? then Failure(UnexpectedBufferEnd) else
              var h := ReadHeader(s).value;
              Join([ItemAt(h, base)], h.size, ParseItems(s[h.size..], base + h.size, max - 1))
  {
  }

  lemma JoinFailure(front: seq<Item>, m: nat, rest: Result<Items>)
    ensures Join(front, m, rest).Failure? == rest.Failure?
  {
  }

  lemma JoinJoin(front: seq<Item>, m: nat, more: seq<Item>, n: nat, rest: Result<Items>)
    ensures Join(front, m, Join(more, n, rest)) == Join(front + more, m + n, rest)
  {
    if rest.Success? {
      assert front + (more + rest.value.items) == (front + more) + rest.value.items;
    }
  }

  lemma JoinNothing(front: seq<Item>, m: nat, rest: Result<Items>)
    ensures Join([], 0, rest) == rest
    ensures Join(front, m, Success(Items([], 0))) == Success(Items(front, m))
  {
    assert front + [] == front;
    if rest.Success? {
      assert [] + rest.value.items == rest.value.items;
    }
  }

  /** A header in terms of what follows its prefix byte. */
  function AfterPrefix(kind: Kind, tail: seq<u8>, lenBytes: nat, len: nat): Result<Header>
  {
    if |tail| < lenBytes + len then Failure(UnexpectedBufferEnd)
    else Success(Header(kind, 1 + lenBytes, len, 1 + lenBytes + len))
  }

  function LongForm(kind: Kind, tail: seq<u8>, lenBytes: nat): Result<Header>
  {
    if |tail| < lenBytes then Failure(UnexpectedBufferEnd)
    else AfterPrefix(kind, tail, lenBytes, BigEndian.Value(tail[..lenBytes]))
  }

  lemma ShortForms(s: seq<u8>)
    requires s != []
    ensures 0x80 <= s[0] <= 0xB7 ==> ReadHeader(s) == AfterPrefix(String, s[1..], 0, s[0] - 0x80)
    ensures 0xC0 <= s[0] <= 0xF7 ==> ReadHeader(s) == AfterPrefix(List, s[1..], 0, s[0] - 0xC0)
  {
  }

  lemma LongForms(s: seq<u8>)
    requires s != []
    ensures 0xB8 <= s[0] <= 0xBF ==> ReadHeader(s) == LongForm(String, s[1..], s[0] - 0xB7)
    ensures 0xF8 <= s[0] ==> ReadHeader(s) == LongForm(List, s[1..], s[0] - 0xF7)
  {
    var prefix: int := s[0];
    LongHeaderForm(String, s, prefix - 0xB7);
    LongHeaderForm(List, s, prefix - 0xF7);
  }

  lemma LongHeaderForm(kind: Kind, s: seq<u8>, lenBytes: int)
    requires s != [] && kind != Byte
    ensures lenBytes >= 0 ==> LongHeader(kind, s, lenBytes) == LongForm(kind, s[1..], lenBytes)
  {
    if 0 <= lenBytes <= |s| - 1 {
      assert s[1..][..lenBytes] == s[1..1 + lenBytes];
    }
  }

  // ---------- Numbers ----------

  /** The number an item denotes: the big-endian value of a string of at most 32 bytes, or of
      a single byte. */
  function UInt256Of(memory: seq<u8>, item: Item): (r: Result<nat>)
    requires Inside(item, |memory|)
    ensures r.Success? ==> r.value < W256
  {
    match item.kind
    case String =>
      if item.rlpLen > 32 then Failure(ValueOutOfRange) else
        NumberFits(Content(memory, item));
        Success(BigEndian.Value(Content(memory, item)))
    case Byte => Success(memory[item.ptr])
    case List => Failure(UnexpectedType)
  }

  lemma NumberFits(s: seq<u8>)
    requires |s| <= 32
    ensures BigEndian.Value(s) < W256
  {
    hide BigEndian.Value;
    BigEndian.Bound(s);
    Pow2Grows(8 * |s|, 256);
    Pow2Words();
  }
}
