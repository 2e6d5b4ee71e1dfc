/** The decoder accepts more than the encoder writes. Re-encoding what was decoded gives the
    same bytes exactly when the bytes use the shortest header everywhere. */
module RlpCanonical {
  import opened Words
  import opened ParserCommon
  import opened RlpFormat
  import opened RlpStream
  import opened RlpTree
  import BigEndian

  /** A long form whose length has no leading zero and does not fit in a short form. */
  predicate LongIsNeeded(s: seq<u8>, lenBytes: nat)
  {
    lenBytes >= 1 && 1 + lenBytes <= |s| && s[1] != 0 && BigEndian.Value(s[1..1 + lenBytes]) >= 56
  }

  /** The header at the head of s is the shortest one for its content: a single byte below
      0x80 stands for itself, and long forms are used only where needed. */
  predicate MinimalHeader(s: seq<u8>)
    requires s != []
  {
    if s[0] <= 0x7F then true
    else if s[0] <= 0xB7 then s[0] == 0x81 ==> |s| > 1 && s[1] >= 0x80
    else if s[0] <= 0xBF then LongIsNeeded(s, s[0] - 0xB7)
    else if s[0] <= 0xF7 then true
    else LongIsNeeded(s, s[0] - 0xF7)
  }

  /** Exactly one item, with shortest headers throughout. */
  predicate Canonical(e: seq<u8>)
    decreases |e|, 0
  {
    var r := ReadHeader(e);
    && r.Success? && r.value.size == |e|
    && MinimalHeader(e)
    && (r.value.kind == List ==> CanonicalAll(e[r.value.start..]))
  }

  predicate CanonicalAll(p: seq<u8>)
    decreases |p|, 1
  {
    p != [] ==>
      && ReadHeader(p).Success?
      && Canonical(p[..ReadHeader(p).value.size])
      && CanonicalAll(p[ReadHeader(p).value.size..])
  }

  /** e is one item with header h. */
  ghost predicate OneItem(e: seq<u8>, h: Header)
  {
    ReadHeader(e) == Success(h) && h.size == |e| && e != []
  }

  /** The item with header h at a position of the memory denotes t. */
  ghost predicate Means(memory: seq<u8>, at: nat, h: Header, t: Tree)
  {
    Inside(ItemAt(h, at), |memory|) && TreeOf(memory, ItemAt(h, at)) == Some(t)
  }

  // ---------- Encodings are canonical ----------

  lemma LongHeaderNeeded(short: nat, len: nat, header: seq<u8>, payload: seq<u8>)
    requires (short == 0x80 || short == 0xC0) && len >= 56 && EncodeHeader(short, len) == Some(header)
    ensures LongIsNeeded(header + payload, |header| - 1)
  {
    MinimalBytesValue(len);
    assert (header + payload)[1..|header|] == MinimalBytes(len);
  }

  lemma EncodedHeaderMinimal(kind: Kind, header: seq<u8>, payload: seq<u8>)
    requires kind != Byte && EncodeHeader(Short(kind), |payload|) == Some(header)
    requires kind == String && |payload| == 1 ==> payload[0] >= 0x80
    ensures MinimalHeader(header + payload)
  {
    hide MinimalBytes, LongIsNeeded;
    if |payload| >= 56 {
      LongHeaderNeeded(Short(kind), |payload|, header, payload);
    }
  }

  lemma CanonicalLeaf(e: seq<u8>)
    requires e != [] && ReadHeader(e).Success? && ReadHeader(e).value.size == |e| && MinimalHeader(e)
    requires ReadHeader(e).value.kind != List
    ensures Canonical(e)
  {
  }

  lemma CanonicalList(header: seq<u8>, p: seq<u8>)
    requires header != [] && ReadHeader(header + p) == Success(Header(List, |header|, |p|, |header| + |p|))
    requires MinimalHeader(header + p) && CanonicalAll(p)
    ensures Canonical(header + p)
  {
  }

  lemma {:induction false} EncodedIsCanonical(t: Tree, e: seq<u8>)
    requires Encode(t) == Some(e)
    ensures Canonical(e)
    decreases t, 0
  {
    hide ReadHeader, EncodeHeader, MinimalHeader, Canonical, CanonicalAll;
    match t
    case Str(bytes) =>
      if |bytes| == 1 && bytes[0] < 0x80 {
        SingleByteHeader(bytes);
        CanonicalLeaf(bytes);
      } else {
        var header := EncodeHeader(0x80, |bytes|).value;
        HeaderRoundTrip(String, header, bytes);
        EncodedHeaderMinimal(String, header, bytes);
        CanonicalLeaf(e);
      }
    case Lst(items) =>
      var payload := EncodeAll(items).value;
      var header := EncodeHeader(0xC0, |payload|).value;
      HeaderRoundTrip(List, header, payload);
      EncodedHeaderMinimal(List, header, payload);
      EncodedAllCanonical(items, payload);
      CanonicalList(header, payload);
  }

  lemma SingleByteHeader(s: seq<u8>)
    requires |s| == 1 && s[0] < 0x80
    ensures ReadHeader(s) == Success(Header(Byte, 0, 0, 1)) && MinimalHeader(s)
  {
  }

  lemma CanonicalCons(first: seq<u8>, rest: seq<u8>)
    requires Canonical(first) && CanonicalAll(rest)
    ensures CanonicalAll(first + rest)
  {
    hide ReadHeader, MinimalHeader;
    HeaderExtends(first, rest);
    assert (first + rest)[..|first|] == first;
    assert (first + rest)[|first|..] == rest;
  }

  lemma {:induction false} EncodedAllCanonical(ts: seq<Tree>, p: seq<u8>)
    requires EncodeAll(ts) == Some(p)
    ensures CanonicalAll(p)
    decreases ts, 1
  {
    if ts != [] {
      hide Canonical, CanonicalAll;
      EncodedIsCanonical(ts[0], Encode(ts[0]).value);
      EncodedAllCanonical(ts[1..], EncodeAll(ts[1..]).value);
      CanonicalCons(Encode(ts[0]).value, EncodeAll(ts[1..]).value);
    }
  }

  // ---------- Canonical bytes are encodings ----------

  lemma LongHeaderEncodes(short: nat, s: seq<u8>, lenBytes: nat)
    requires (short == 0x80 || short == 0xC0) && LongIsNeeded(s, lenBytes) && lenBytes <= 8
    requires s[0] as int == short + 55 + lenBytes
    ensures EncodeHeader(short, BigEndian.Value(s[1..1 + lenBytes])) == Some(s[..1 + lenBytes])
  {
    var bytes := s[1..1 + lenBytes];
    MinimalBytesUnique(bytes);
    assert s[..1 + lenBytes] == [s[0]] + bytes;
  }

  lemma MinimalHeaderEncodes(s: seq<u8>)
    requires s != [] && ReadHeader(s).Success? && MinimalHeader(s) && ReadHeader(s).value.kind != Byte
    ensures var h := ReadHeader(s).value;
            EncodeHeader(Short(h.kind), h.rlpLen) == Some(s[..h.start])
  {
    hide LongIsNeeded;
    var prefix: int := s[0];
    if 0xB7 < prefix <= 0xBF {
      LongHeaderEncodes(0x80, s, prefix - 0xB7);
    } else if prefix > 0xF7 {
      LongHeaderEncodes(0xC0, s, prefix - 0xF7);
    } else {
      assert s[..1] == [s[0]];
    }
  }

  lemma HeaderAndContent(e: seq<u8>, h: Header) returns (header: seq<u8>, content: seq<u8>)
    requires OneItem(e, h)
    ensures e == header + content && |header| == h.start
    ensures |content| == if h.kind == Byte then 1 else h.rlpLen
    ensures h.kind == Byte ==> header == []
  {
    header, content := e[..h.start], e[h.start..];
  }

  lemma ContentTree(header: seq<u8>, content: seq<u8>, h: Header, memory: seq<u8>, at: nat)
    requires OneItem(header + content, h) && |header| == h.start && At(memory, at, header + content)
    requires h.kind != List
    ensures Means(memory, at, h, Str(content))
  {
    hide ReadHeader;
    AtSplit(memory, at, header, content);
  }

  lemma CanonicalParts(header: seq<u8>, content: seq<u8>, h: Header)
    requires OneItem(header + content, h) && Canonical(header + content) && |header| == h.start
    ensures h.kind == Byte ==> |content| == 1 && content[0] < 0x80 && header == []
    ensures h.kind != Byte ==> EncodeHeader(Short(h.kind), |content|) == Some(header)
    ensures h.kind == String && |content| == 1 ==> content[0] >= 0x80
    ensures h.kind == List ==> CanonicalAll(content)
  {
    var e := header + content;
    assert e[..h.start] == header && e[h.start..] == content;
    if h.kind != Byte {
      MinimalHeaderEncodes(e);
    }
  }

  lemma StringEncodes(header: seq<u8>, content: seq<u8>, h: Header)
    requires h.kind == Byte ==> |content| == 1 && content[0] < 0x80 && header == []
    requires h.kind != Byte ==> EncodeHeader(Short(h.kind), |content|) == Some(header)
    requires h.kind == String && |content| == 1 ==> content[0] >= 0x80
    requires h.kind != List
    ensures Encode(Str(content)) == Some(header + content)
  {
    if h.kind == Byte {
      assert header + content == content;
    }
  }

  /** With a slot for every byte a stream is read to its end. */
  lemma {:induction false} EnoughSlots(p: seq<u8>, base: int, max: nat)
    requires ParseItems(p, base, max).Success? && max >= |p|
    ensures ParseItems(p, base, max).value.consumed == |p|
    decreases max
  {
    if p != [] {
      hide ReadHeader;
      ParseItemsUnfold(p, base, max);
      var h := ReadHeader(p).value;
      EnoughSlots(p[h.size..], base + h.size, max - 1);
      JoinParts([ItemAt(h, base)], h.size, ParseItems(p[h.size..], base + h.size, max - 1));
    }
  }

  /** A list that denotes a tree denotes the trees of its payload. */
  lemma ListDenotes(memory: seq<u8>, item: Item, p: seq<u8>, t: Tree)
    requires item.kind == List && Inside(item, |memory|) && item.rlpLen == |p| < 0x1_0000 && At(memory, item.ptr, p)
    requires TreeOf(memory, item) == Some(t)
    ensures t.Lst? && Denotes(memory, p, item.ptr, |p|, |p|, t.items)
  {
    hide ParseItems, TreesOf, AllInside, ListItems, At;
    ListParsed(memory, item, p);
  }

  lemma ListParsed(memory: seq<u8>, item: Item, p: seq<u8>)
    requires item.kind == List && Inside(item, |memory|) && item.rlpLen == |p| < 0x1_0000 && At(memory, item.ptr, p)
    requires ListItems(memory, item, |p|).Success?
    ensures var parsed := ParseItems(p, item.ptr, |p|);
            && parsed.Success? && parsed.value.consumed == |p|
            && parsed.value.items == ListItems(memory, item, |p|).value
  {
    hide ParseItems;
    assert memory[item.ptr..item.ptr + item.rlpLen % 0x1_0000] == p;
    EnoughSlots(p, item.ptr, |p|);
  }

  lemma TreesOfParts(memory: seq<u8>, x: Item, items: seq<Item>, bound: nat, ts: seq<Tree>)
    requires AllInside([x] + items, |memory|, bound)
    requires TreesOf(memory, [x] + items, bound) == Some(ts)
    ensures AllInside(items, |memory|, bound) && Inside(x, |memory|) && x.rlpLen < bound
    ensures ts != [] && TreeOf(memory, x) == Some(ts[0]) && TreesOf(memory, items, bound) == Some(ts[1..])
  {
  }

  /** A header does not change when what follows the item is cut off. */
  lemma HeaderOfItem(p: seq<u8>) returns (first: seq<u8>, rest: seq<u8>, h: Header)
    requires ReadHeader(p).Success?
    ensures p == first + rest && ReadHeader(p) == Success(h)
    ensures OneItem(first, h)
    ensures first == p[..h.size] && rest == p[h.size..]
  {
    h := ReadHeader(p).value;
    first, rest := p[..h.size], p[h.size..];
    var prefix: int := p[0];
    assert first[0] == p[0];
    if 0xB7 < prefix <= 0xBF {
      SameLength(p, h.size, prefix - 0xB7);
    } else if prefix > 0xF7 {
      SameLength(p, h.size, prefix - 0xF7);
    }
  }

  lemma SameLength(p: seq<u8>, n: nat, k: nat)
    requires n <= |p|
    ensures 1 + k <= n ==> p[..n][1..1 + k] == p[1..1 + k]
  {
  }

  lemma ParsedParts(first: seq<u8>, rest: seq<u8>, h: Header, at: nat, max: nat)
    requires OneItem(first, h)
    requires ParseItems(first + rest, at, max).Success?
    requires ParseItems(first + rest, at, max).value.consumed == |first + rest|
    ensures max > 0
    ensures var tail := ParseItems(rest, at + |first|, max - 1);
            && tail.Success? && tail.value.consumed == |rest|
            && ParseItems(first + rest, at, max).value.items == [ItemAt(h, at)] + tail.value.items
  {
    hide ReadHeader, ParseItems;
    var p := first + rest;
    HeaderExtends(first, rest);
    StreamOfNothing(p, at, max);
    var g, tail := StreamCons(p, at, max);
    assert p[h.size..] == rest;
  }

  lemma DenotesParts(memory: seq<u8>, first: seq<u8>, rest: seq<u8>, h: Header, at: nat, max: nat, bound: nat,
                     ts: seq<Tree>)
    requires OneItem(first, h) && Denotes(memory, first + rest, at, max, bound, ts)
    ensures max > 0 && ts != [] && Means(memory, at, h, ts[0])
    ensures Denotes(memory, rest, at + |first|, max - 1, bound, ts[1..])
  {
    hide OneItem, TreeOf, TreesOf, ParseItems, AllInside;
    ParsedParts(first, rest, h, at, max);
    TreesOfParts(memory, ItemAt(h, at), ParseItems(rest, at + |first|, max - 1).value.items, bound, ts);
  }

  lemma DenotesNothing(memory: seq<u8>, at: nat, max: nat, bound: nat, ts: seq<Tree>)
    requires Denotes(memory, [], at, max, bound, ts)
    ensures ts == []
  {
  }

  /** Canonical bytes are the encoding of what they denote. */
  lemma {:induction false} CanonicalEncodes(e: seq<u8>, h: Header, memory: seq<u8>, at: nat, t: Tree)
    requires Canonical(e) && OneItem(e, h) && |e| < 0x1_0000 && At(memory, at, e) && Means(memory, at, h, t)
    ensures Encode(t) == Some(e)
    decreases |e|, 0
  {
    hide *;
    var header, content := HeaderAndContent(e, h);
    CanonicalParts(header, content, h);
    if h.kind != List {
      ContentTree(header, content, h, memory, at);
      MeansOne(memory, at, h, t, Str(content));
      StringEncodes(header, content, h);
    } else {
      HeaderNotEmpty(header, content, h);
      AtSplit(memory, at, header, content);
      MeansList(memory, at, h, t, content);
      PayloadEncodes(content, memory, at + |header|, |content|, |content|, t.items);
      ListEncodes(header, content, t);
    }
  }

  lemma MeansOne(memory: seq<u8>, at: nat, h: Header, t: Tree, u: Tree)
    requires Means(memory, at, h, t) && Means(memory, at, h, u)
    ensures t == u
  {
  }

  lemma HeaderNotEmpty(header: seq<u8>, content: seq<u8>, h: Header)
    requires OneItem(header + content, h) && |header| == h.start && h.kind == List
    ensures header != [] && Short(h.kind) == 0xC0
  {
  }

  lemma MeansList(memory: seq<u8>, at: nat, h: Header, t: Tree, p: seq<u8>)
    requires h.kind == List && h.rlpLen == |p| < 0x1_0000 && Means(memory, at, h, t) && At(memory, at + h.start, p)
    ensures t.Lst? && Denotes(memory, p, at + h.start, |p|, |p|, t.items)
  {
    hide TreeOf, Denotes, At;
    ListDenotes(memory, ItemAt(h, at), p, t);
  }

  lemma ListEncodes(header: seq<u8>, p: seq<u8>, t: Tree)
    requires t.Lst? && EncodeAll(t.items) == Some(p) && EncodeHeader(0xC0, |p|) == Some(header)
    ensures Encode(t) == Some(header + p)
  {
  }

  lemma EncodeAllCons(ts: seq<Tree>, first: seq<u8>, rest: seq<u8>)
    requires ts != [] && Encode(ts[0]) == Some(first) && EncodeAll(ts[1..]) == Some(rest)
    ensures EncodeAll(ts) == Some(first + rest)
  {
  }

  lemma EncodeNothing()
    ensures EncodeAll([]) == Some([])
  {
  }

  lemma CanonicalAllParts(p: seq<u8>) returns (first: seq<u8>, rest: seq<u8>, h: Header)
    requires CanonicalAll(p) && p != []
    ensures p == first + rest && OneItem(first, h) && Canonical(first) && CanonicalAll(rest)
  {
    hide ReadHeader, Canonical;
    first, rest, h := HeaderOfItem(p);
  }

  lemma OneItemNotEmpty(e: seq<u8>, h: Header)
    requires OneItem(e, h)
    ensures e != []
  {
  }

  lemma {:induction false} PayloadEncodes(p: seq<u8>, memory: seq<u8>, at: nat, max: nat, bound: nat, ts: seq<Tree>)
    requires CanonicalAll(p) && |p| < 0x1_0000 && At(memory, at, p)
    requires Denotes(memory, p, at, max, bound, ts)
    ensures EncodeAll(ts) == Some(p)
    decreases |p|, 1
  {
    hide *;
    if p == [] {
      DenotesNothing(memory, at, max, bound, ts);
      EncodeNothing();
    } else {
      var first, rest, h := CanonicalAllParts(p);
      OneItemNotEmpty(first, h);
      DenotesParts(memory, first, rest, h, at, max, bound, ts);
      AtSplit(memory, at, first, rest);
      CanonicalOrder(p, first, rest);
      CanonicalEncodes(first, h, memory, at, ts[0]);
      PayloadEncodes(rest, memory, at + |first|, max - 1, bound, ts[1..]);
      EncodeAllCons(ts, first, rest);
    }
  }

  lemma CanonicalOrder(p: seq<u8>, first: seq<u8>, rest: seq<u8>)
    requires p == first + rest && first != []
    ensures |first| <= |p| && |rest| < |p|
  {
  }

  /** Re-encoding the tree an item denotes gives its bytes back exactly when they are
      canonical. */
  lemma ReencodesExactlyWhen(e: seq<u8>, h: Header, memory: seq<u8>, at: nat, t: Tree)
    requires OneItem(e, h) && |e| < 0x1_0000 && At(memory, at, e) && Means(memory, at, h, t)
    ensures Encode(t) == Some(e) <==> Canonical(e)
  {
    hide *;
    if Encode(t) == Some(e) {
      EncodedIsCanonical(t, e);
    }
    if Canonical(e) {
      CanonicalEncodes(e, h, memory, at, t);
    }
  }

  /** 0x81 0x05 is accepted and denotes the single byte 5, whose encoding is 0x05. */
  lemma NonCanonicalAccepted()
    ensures var e: seq<u8> := [0x81, 0x05];
            && ReadHeader(e) == Success(Header(String, 1, 1, 2))
            && Encode(Str(e[1..])) == Some([0x05])
            && !Canonical(e)
  {
  }
}
