/** What a parsed stream looks like: its items tile the bytes it consumes. */
module RlpStream {
  import opened Words
  import opened ParserCommon
  import opened RlpFormat

  /** One past the last byte of an item. */
  function End(item: Item): int
  {
    item.ptr + ContentLength(item)
  }

  /** Where item i begins: where its predecessor ends. */
  function Begin(items: seq<Item>, i: nat, base: int): int
    requires i <= |items|
  {
    if i == 0 then base else End(items[i - 1])
  }

  /** The items partition `length` bytes from `base`, in order: each begins, with its header,
      where the previous one ends, advances, and has its content inside. */
  ghost predicate Tiles(items: seq<Item>, base: int, length: nat)
  {
    && Begin(items, |items|, base) == base + length
    && forall i :: 0 <= i < |items| ==> TileAt(items, i, base, length)
  }

  ghost predicate TileAt(items: seq<Item>, i: nat, base: int, length: nat)
    requires i < |items|
  {
    && Begin(items, i, base) <= items[i].ptr
    && Begin(items, i, base) < End(items[i]) <= base + length
    && items[i].rlpLen < length
    && (items[i].kind == Byte ==> items[i].rlpLen == 0)
  }

  lemma TilesNothing(base: int)
    ensures Tiles([], base, 0)
  {
  }

  lemma TilesCons(x: Item, rest: seq<Item>, base: int, size: nat, length: nat)
    requires Tiles(rest, base + size, length)
    requires base <= x.ptr && End(x) == base + size && size > 0 && x.rlpLen < size
    requires x.kind == Byte ==> x.rlpLen == 0
    ensures Tiles([x] + rest, base, size + length)
  {
    var items := [x] + rest;
    forall i | 0 < i <= |items|
      ensures Begin(items, i, base) == Begin(rest, i - 1, base + size)
    {
    }
    var total := size + length;
    forall i | 0 <= i < |items|
      ensures TileAt(items, i, base, total)
    {
      if i > 0 {
        assert items[i] == rest[i - 1];
        assert TileAt(rest, i - 1, base + size, length);
      }
    }
  }

  /** On success the items tile what is consumed, and the stream stops only at the end of the
      bytes or when the slots are used up. */
  lemma {:induction false} ParsedItemsTile(s: seq<u8>, base: int, max: nat)
    requires ParseItems(s, base, max).Success?
    ensures var parsed := ParseItems(s, base, max).value;
            && parsed.consumed <= |s|
            && Tiles(parsed.items, base, parsed.consumed)
            && (parsed.consumed == |s| || |parsed.items| == max)
    decreases max
  {
    hide ReadHeader, Tiles;
    if s == [] || max == 0 {
      TilesNothing(base);
    } else {
      ParseItemsUnfold(s, base, max);
      var h := ReadHeader(s).value;
      var rest := ParseItems(s[h.size..], base + h.size, max - 1);
      ParsedItemsTile(s[h.size..], base + h.size, max - 1);
      TilesCons(ItemAt(h, base), rest.value.items, base, h.size, rest.value.consumed);
    }
  }

  /** Every item lies in the slice of `len` bytes from `base`. */
  ghost predicate AllPlaced(items: seq<Item>, base: int, len: nat)
  {
    forall x :: x in items ==> Placed(x, base, len)
  }

  predicate Placed(x: Item, base: int, len: nat)
  {
    && base <= x.ptr && End(x) <= base + len
    && x.rlpLen < len
    && (x.kind == Byte ==> x.rlpLen == 0)
  }

  /** Every item of a stream is inside the slice it was read from. */
  lemma ParsedItemsPlaced(s: seq<u8>, base: int, max: nat)
    requires ParseItems(s, base, max).Success?
    ensures AllPlaced(ParseItems(s, base, max).value.items, base, |s|)
  {
    ParsedItemsTile(s, base, max);
    var parsed := ParseItems(s, base, max).value;
    hide ParseItems;
    forall x | x in parsed.items
      ensures Placed(x, base, |s|)
    {
      var i :| 0 <= i < |parsed.items| && parsed.items[i] == x;
      BeginGrows(parsed.items, i, base, parsed.consumed);
      assert TileAt(parsed.items, i, base, parsed.consumed);
    }
  }

  /** Every item lies inside the memory and is shorter than the bound. */
  predicate AllInside(items: seq<Item>, size: nat, bound: nat)
  {
    forall x :: x in items ==> Inside(x, size) && x.rlpLen < bound
  }

  lemma PlacedInside(items: seq<Item>, base: nat, len: nat, size: nat, bound: nat)
    requires AllPlaced(items, base, len) && base + len <= size && len <= bound
    ensures AllInside(items, size, bound)
  {
  }

  lemma {:induction false} BeginGrows(items: seq<Item>, i: nat, base: int, length: nat)
    requires Tiles(items, base, length) && i <= |items|
    ensures base <= Begin(items, i, base)
  {
    if i > 0 {
      BeginGrows(items, i - 1, base, length);
      assert TileAt(items, i - 1, base, length);
    }
  }

  /** A header does not depend on what follows the item. */
  lemma HeaderExtends(s: seq<u8>, t: seq<u8>)
    requires ReadHeader(s).Success?
    ensures ReadHeader(s + t) == ReadHeader(s)
  {
    var st := s + t;
    assert st[0] == s[0];
    if 0xB7 < s[0] <= 0xBF {
      assert st[1..1 + (s[0] - 0xB7)] == s[1..1 + (s[0] - 0xB7)];
    } else if s[0] > 0xF7 {
      assert st[1..1 + (s[0] - 0xF7)] == s[1..1 + (s[0] - 0xF7)];
    }
  }

  lemma StreamOfNothing(s: seq<u8>, base: int, max: nat)
    ensures s == [] || max == 0 ==> ParseItems(s, base, max) == Success(Items([], 0))
  {
  }

  lemma JoinParts(front: seq<Item>, m: nat, rest: Result<Items>)
    ensures Join(front, m, rest).Success? == rest.Success?
    ensures rest.Success? ==> Join(front, m, rest).value == Items(front + rest.value.items, m + rest.value.consumed)
  {
  }

  /** A stream with a slot left: its first item, then the stream of what follows. */
  lemma StreamCons(s: seq<u8>, base: int, max: nat) returns (h: Header, rest: Result<Items>)
    requires s != [] && max > 0 && ReadHeader(s).Success?
    ensures ReadHeader(s) == Success(h) && h.size <= |s|
    ensures rest == ParseItems(s[h.size..], base + h.size, max - 1)
    ensures ParseItems(s, base, max).Success? == rest.Success?
    ensures rest.Success? ==>
              ParseItems(s, base, max)
              == Success(Items([ItemAt(h, base)] + rest.value.items, h.size + rest.value.consumed))
  {
    hide ReadHeader;
    h := ReadHeader(s).value;
    rest := ParseItems(s[h.size..], base + h.size, max - 1);
  }

  lemma StreamFailsAtHeader(s: seq<u8>, base: int, max: nat)
    requires s != [] && max > 0 && ReadHeader(s).Failure?
    ensures ParseItems(s, base, max).Failure?
  {
  }

  /** Parsing A followed by B gives the items of A, then those of B. */
  lemma {:induction false} ParseConcatenation(a: seq<u8>, b: seq<u8>, base: int, max: nat)
    requires ParseItems(a, base, max).Success? && ParseItems(a, base, max).value.consumed == |a|
    ensures var front := ParseItems(a, base, max).value.items;
            ParseItems(a + b, base, max) == Join(front, |a|, ParseItems(b, base + |a|, max - |front|))
    decreases max
  {
    hide ReadHeader, ParseItems, Join;
    StreamOfNothing(a, base, max);
    if a == [] {
      assert a + b == b;
      JoinNothing([], 0, ParseItems(b, base, max));
    } else if max > 0 {
      ParseItemsUnfold(a, base, max);
      ParseItemsUnfold(a + b, base, max);
      var h := ReadHeader(a).value;
      HeaderExtends(a, b);
      JoinParts([ItemAt(h, base)], h.size, ParseItems(a[h.size..], base + h.size, max - 1));
      assert (a + b)[h.size..] == a[h.size..] + b;
      ParseConcatenation(a[h.size..], b, base + h.size, max - 1);
      var rest := ParseItems(a[h.size..], base + h.size, max - 1).value.items;
      JoinJoin([ItemAt(h, base)], h.size, rest, |a| - h.size,
               ParseItems(b, base + |a|, max - 1 - |rest|));
    }
  }

  /** Slots beyond the items of a stream change nothing. */
  lemma {:induction false} SpareSlots(s: seq<u8>, base: int, max: nat, more: nat)
    requires max <= more && ParseItems(s, base, max).Success? && ParseItems(s, base, max).value.consumed == |s|
    ensures ParseItems(s, base, more) == ParseItems(s, base, max)
    decreases max
  {
    hide ReadHeader, ParseItems, Join;
    StreamOfNothing(s, base, max);
    StreamOfNothing(s, base, more);
    if s != [] && max > 0 {
      if ReadHeader(s).Failure? {
        StreamFailsAtHeader(s, base, max);
      }
      var h, rest := StreamCons(s, base, max);
      var h', rest' := StreamCons(s, base, more);
      SpareSlots(s[h.size..], base + h.size, max - 1, more - 1);
    }
  }

  /** Once the slots are filled, nothing that follows matters. */
  lemma SurplusIgnored(a: seq<u8>, b: seq<u8>, base: int, max: nat)
    requires ParseItems(a, base, max).Success?
    requires ParseItems(a, base, max).value.consumed == |a| && |ParseItems(a, base, max).value.items| == max
    ensures ParseItems(a + b, base, max) == ParseItems(a, base, max)
  {
    hide ReadHeader;
    ParseConcatenation(a, b, base, max);
    StreamOfNothing(b, base + |a|, 0);
    JoinNothing(ParseItems(a, base, max).value.items, |a|, Success(Items([], 0)));
  }

  // ---------- Lists ----------

  /** The items of a list, at most `max`. The cursor over a list has a 16-bit length. */
  function ListItems(memory: seq<u8>, list: Item, max: nat): (r: Result<seq<Item>>)
    requires list.kind == List ==> Inside(list, |memory|)
    ensures r.Success? ==> |r.value| <= max && AllInside(r.value, |memory|, list.rlpLen)
  {
    if list.kind != List then Failure(UnexpectedError) else
      var payload := memory[list.ptr..list.ptr + list.rlpLen % 0x1_0000];
      var parsed :- ParseItems(payload, list.ptr, max);
      ParsedItemsPlaced(payload, list.ptr, max);
      PlacedInside(parsed.items, list.ptr, |payload|, |memory|, list.rlpLen);
      Success(parsed.items)
  }

  lemma ListItemsPlaced(memory: seq<u8>, list: Item, max: nat)
    requires list.kind == List && Inside(list, |memory|) && ListItems(memory, list, max).Success?
    ensures AllPlaced(ListItems(memory, list, max).value, list.ptr, list.rlpLen)
  {
    hide AllPlaced, ParseItems;
    var payload := memory[list.ptr..list.ptr + list.rlpLen % 0x1_0000];
    ParsedItemsPlaced(payload, list.ptr, max);
    PlacedWider(ListItems(memory, list, max).value, list.ptr, |payload|, list.rlpLen);
  }

  lemma PlacedWider(items: seq<Item>, base: int, len: nat, wider: nat)
    requires AllPlaced(items, base, len) && len <= wider
    ensures AllPlaced(items, base, wider)
  {
  }
}
