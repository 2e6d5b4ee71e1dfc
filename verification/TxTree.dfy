/** Which messages are transactions: the reader on the encoding of a tree. */
module TxTree {
  import opened Words
  import opened ParserCommon
  import opened RlpFormat
  import opened RlpStream
  import opened RlpTree
  import opened Tx
  import BigEndian

  // ---------- Where encodings stand ----------

  /** The encoding of t stands at position `at`, and item is what the decoder makes of it. */
  ghost predicate WrittenAt(memory: seq<u8>, at: nat, item: Item, t: Tree)
  {
    && Encode(t).Some? && |Encode(t).value| < 0x1_0000 && At(memory, at, Encode(t).value)
    && ReadHeader(Encode(t).value).Success?
    && item == ItemAt(ReadHeader(Encode(t).value).value, at)
  }

  ghost predicate Written(memory: seq<u8>, item: Item, t: Tree)
  {
    exists at: nat :: WrittenAt(memory, at, item, t)
  }

  ghost predicate AllWritten(memory: seq<u8>, items: seq<Item>, ts: seq<Tree>)
  {
    |items| == |ts| && forall i :: 0 <= i < |ts| ==> Written(memory, items[i], ts[i])
  }

  lemma WrittenHere(t: Tree, e: seq<u8>, memory: seq<u8>, at: nat)
    requires Encode(t) == Some(e) && |e| < 0x1_0000 && At(memory, at, e)
    ensures ReadHeader(e).Success? && ReadHeader(e).value.size == |e|
    ensures Written(memory, ItemAt(ReadHeader(e).value, at), t)
  {
    hide ReadHeader, At, Encode, TreeOf;
    RoundTrip(t, e, memory, at);
    assert WrittenAt(memory, at, ItemAt(ReadHeader(e).value, at), t);
  }

  /** A written item denotes its tree. */
  lemma WrittenDenotes(memory: seq<u8>, item: Item, t: Tree)
    requires Written(memory, item, t)
    ensures Inside(item, |memory|) && TreeOf(memory, item) == Some(t)
  {
    hide ReadHeader, At, Encode, TreeOf, Inside;
    var at: nat :| WrittenAt(memory, at, item, t);
    RoundTrip(t, Encode(t).value, memory, at);
  }

  predicate SingleByte(t: Tree)
  {
    t.Str? && |t.bytes| == 1 && t.bytes[0] < 0x80
  }

  /** Only a single byte below 0x80 is written without a header. */
  lemma WrittenString(memory: seq<u8>, item: Item, bytes: seq<u8>)
    requires Written(memory, item, Str(bytes))
    ensures Inside(item, |memory|) && item.kind != List && Content(memory, item) == bytes
    ensures item.kind == Byte <==> SingleByte(Str(bytes))
  {
    WrittenDenotes(memory, item, Str(bytes));
    var at: nat :| WrittenAt(memory, at, item, Str(bytes));
    hide ReadHeader, At, TreeOf, EncodeHeader;
    if SingleByte(Str(bytes)) {
      assert bytes == [bytes[0]];
      ByteThere(memory, at, bytes[0]);
    } else {
      var header := EncodeHeader(0x80, |bytes|).value;
      HeaderRoundTrip(String, header, bytes);
    }
    StringContent(memory, item);
  }

  lemma StringContent(memory: seq<u8>, item: Item)
    requires Inside(item, |memory|)
    ensures item.kind != List <==> TreeOf(memory, item).Some? && TreeOf(memory, item).value.Str?
    ensures item.kind != List ==> TreeOf(memory, item) == Some(Str(Content(memory, item)))
  {
  }

  lemma EncodedList(ts: seq<Tree>) returns (header: seq<u8>, payload: seq<u8>)
    requires Encode(Lst(ts)).Some?
    ensures EncodeAll(ts) == Some(payload) && EncodeHeader(Short(List), |payload|) == Some(header)
    ensures Encode(Lst(ts)) == Some(header + payload)
  {
    hide EncodeHeader, EncodeAll;
    payload := EncodeAll(ts).value;
    header := EncodeHeader(0xC0, |payload|).value;
  }

  lemma ListPosition(memory: seq<u8>, item: Item, header: seq<u8>, payload: seq<u8>, at: nat)
    requires item == ItemAt(Header(List, |header|, |payload|, |header| + |payload|), at)
    requires At(memory, at, header + payload)
    ensures item.kind == List && item.ptr == at + |header| && item.rlpLen == |payload|
    ensures At(memory, at + |header|, payload)
  {
    AtSplit(memory, at, header, payload);
  }

  lemma WrittenList(memory: seq<u8>, item: Item, ts: seq<Tree>)
    requires Written(memory, item, Lst(ts))
    ensures Inside(item, |memory|) && item.kind == List && item.ptr >= 0
    ensures EncodeAll(ts).Some? && item.rlpLen == |EncodeAll(ts).value| < 0x1_0000
    ensures At(memory, item.ptr, EncodeAll(ts).value)
  {
    hide ReadHeader, At, TreeOf, Encode, EncodeHeader, EncodeAll, ItemAt, Inside, Short;
    WrittenDenotes(memory, item, Lst(ts));
    var at: nat :| WrittenAt(memory, at, item, Lst(ts));
    var header, payload := EncodedList(ts);
    HeaderRoundTrip(List, header, payload);
    ListPosition(memory, item, header, payload, at);
  }

  // ---------- Reading some of the items of a list ----------

  function First<T>(s: seq<T>, n: nat): seq<T>
  {
    if |s| <= n then s else s[..n]
  }

  lemma FirstCons(t: Tree, ts: seq<Tree>, n: nat)
    requires n > 0
    ensures First([t] + ts, n) == [t] + First(ts, n - 1)
  {
  }

  lemma AllWrittenCons(memory: seq<u8>, x: Item, t: Tree, items: seq<Item>, ts: seq<Tree>)
    requires Written(memory, x, t) && AllWritten(memory, items, ts)
    ensures AllWritten(memory, [x] + items, [t] + ts)
  {
    hide Written;
  }

  /** The decoder with some number of slots finds that many of the written items. */
  lemma {:induction false} ItemsWritten(ts: seq<Tree>, p: seq<u8>, memory: seq<u8>, at: nat, max: nat)
    requires EncodeAll(ts) == Some(p) && |p| < 0x1_0000 && At(memory, at, p)
    ensures ParseItems(p, at, max).Success?
    ensures AllWritten(memory, ParseItems(p, at, max).value.items, First(ts, max))
    decreases ts
  {
    hide ReadHeader, At, Encode, EncodeAll, Written, ParseItems, AllWritten;
    if ts == [] || max == 0 {
      NothingEncoded();
      StreamOfNothing(p, at, max);
      NothingWritten(memory);
      assert First(ts, max) == [];
    } else {
      EncodeAllParts(ts);
      var first, rest := Encode(ts[0]).value, EncodeAll(ts[1..]).value;
      AtSplit(memory, at, first, rest);
      WrittenHere(ts[0], first, memory, at);
      HeaderExtends(first, rest);
      var h, tail := StreamCons(p, at, max);
      assert p[h.size..] == rest;
      ItemsWritten(ts[1..], rest, memory, at + |first|, max - 1);
      AllWrittenCons(memory, ItemAt(h, at), ts[0], tail.value.items, First(ts[1..], max - 1));
      assert [ts[0]] + ts[1..] == ts;
      FirstCons(ts[0], ts[1..], max);
    }
  }

  lemma NothingEncoded()
    ensures EncodeAll([]) == Some([])
  {
  }

  lemma NothingWritten(memory: seq<u8>)
    ensures AllWritten(memory, [], [])
  {
  }

  lemma PayloadItems(memory: seq<u8>, item: Item, p: seq<u8>, max: nat)
    requires item.kind == List && Inside(item, |memory|)
    requires item.rlpLen == |p| < 0x1_0000 && At(memory, item.ptr, p)
    ensures ListItems(memory, item, max).Success? == ParseItems(p, item.ptr, max).Success?
    ensures ListItems(memory, item, max).Success? ==>
              ListItems(memory, item, max).value == ParseItems(p, item.ptr, max).value.items
  {
    StandsThere(memory, item.ptr, p);
    ModSmall(item.rlpLen, 0x1_0000);
    hide *;
    ItemsOfPayload(memory, item, p, max);
  }

  lemma ItemsOfPayload(memory: seq<u8>, item: Item, p: seq<u8>, max: nat)
    requires item.kind == List && Inside(item, |memory|)
    requires memory[item.ptr..item.ptr + item.rlpLen % 0x1_0000] == p
    ensures ListItems(memory, item, max).Success? == ParseItems(p, item.ptr, max).Success?
    ensures ListItems(memory, item, max).Success? ==>
              ListItems(memory, item, max).value == ParseItems(p, item.ptr, max).value.items
  {
    hide ParseItems, AllInside;
  }

  lemma ListItemsWritten(memory: seq<u8>, item: Item, ts: seq<Tree>, max: nat)
    requires Written(memory, item, Lst(ts))
    ensures item.kind == List && Inside(item, |memory|) && ListItems(memory, item, max).Success?
    ensures AllWritten(memory, ListItems(memory, item, max).value, First(ts, max))
  {
    hide *;
    WrittenList(memory, item, ts);
    PayloadItems(memory, item, EncodeAll(ts).value, max);
    ItemsWritten(ts, EncodeAll(ts).value, memory, item.ptr, max);
  }

  // ---------- The shape of a transaction, on trees ----------

  predicate HasItems(t: Tree, n: nat)
  {
    t.Lst? && |t.items| >= n
  }

  /** A number of at most 32 bytes. */
  predicate IsNumber(t: Tree)
  {
    t.Str? && |t.bytes| <= 32
  }

  predicate IsType(t: Tree)
  {
    IsNumber(t) && BigEndian.Value(t.bytes) % 0x100 <= 122
  }

  /** The recipients: the first ten members of a list, none of a string. */
  function Recipients(t: Tree): seq<Tree>
  {
    if t.Lst? then First(t.items, 10) else []
  }

  predicate AreRecipients(ts: seq<Tree>)
  {
    forall i :: 0 <= i < |ts| ==> HasItems(ts[i], 3)
  }

  predicate IsExtra(t: Tree)
  {
    HasItems(t, 3) && IsType(t.items[0]) && AreRecipients(Recipients(t.items[2]))
  }

  /** A list of at least 13 items, the 13th a list whose first item has at least three: the
      type, any item, and the recipients, each a list of at least three items. */
  predicate IsTransaction(t: Tree)
  {
    && HasItems(t, 13)
    && HasItems(t.items[12], 1)
    && IsExtra(ExtraOf(t))
  }

  function ExtraOf(t: Tree): Tree
    requires HasItems(t, 13) && HasItems(t.items[12], 1)
  {
    t.items[12].items[0]
  }

  // ---------- Which error a tree that is no transaction gets ----------

  /** The first member that is no list of three items decides. */
  function RecipientsCode(ts: seq<Tree>): ParserError
  {
    if ts == [] then Ok
    else if ts[0].Str? then UnexpectedError
    else if |ts[0].items| < 3 then UnexpectedValue
    else RecipientsCode(ts[1..])
  }

  function TypeCodeOf(t: Tree): ParserError
  {
    if t.Lst? then UnexpectedType
    else if |t.bytes| > 32 || BigEndian.Value(t.bytes) % 0x100 > 122 then ValueOutOfRange
    else Ok
  }

  function ExtraCode(t: Tree): ParserError
  {
    if t.Str? || t.items == [] || t.items[0].Str? then UnexpectedError
    else if |t.items[0].items| < 3 then UnexpectedNumberItems
    else if TypeCodeOf(t.items[0].items[0]) != Ok then TypeCodeOf(t.items[0].items[0])
    else RecipientsCode(Recipients(t.items[0].items[2]))
  }

  function MessageCode(t: Tree): ParserError
  {
    if t.Str? then UnexpectedType
    else if |t.items| < 13 then UnexpectedNumberItems
    else ExtraCode(t.items[12])
  }

  lemma {:induction false} RecipientsCodeOk(ts: seq<Tree>)
    ensures RecipientsCode(ts) == Ok <==> AreRecipients(ts)
  {
    if ts != [] {
      RecipientsCodeOk(ts[1..]);
      assert ts == [ts[0]] + ts[1..];
    }
  }

  /** There is no error exactly for the transactions. */
  lemma MessageCodeOk(t: Tree)
    ensures MessageCode(t) == Ok <==> IsTransaction(t)
  {
    hide RecipientsCode, AreRecipients, Recipients, BigEndian.Value;
    if HasItems(t, 13) && HasItems(t.items[12], 1) && HasItems(ExtraOf(t), 3) {
      RecipientsCodeOk(Recipients(ExtraOf(t).items[2]));
    }
  }

  /** The stored items are those of the tree. */
  ghost predicate Stores(memory: seq<u8>, tx: TxView, t: Tree)
    requires IsTransaction(t)
  {
    && Written(memory, tx.root, t)
    && AllWritten(memory, tx.fields, t.items[..13])
    && AllWritten(memory, tx.extraFields, ExtraOf(t).items[..3])
    && AllWritten(memory, tx.recipients, Recipients(ExtraOf(t).items[2]))
    && tx.extraTxType as int == BigEndian.Value(ExtraOf(t).items[0].bytes) % 0x100
  }

  // ---------- The reader on trees ----------

  lemma WrittenKind(memory: seq<u8>, item: Item, t: Tree)
    requires Written(memory, item, t)
    ensures Inside(item, |memory|) && (item.kind == List <==> t.Lst?)
  {
    hide *;
    WrittenDenotes(memory, item, t);
    StringContent(memory, item);
  }

  lemma NotAList(memory: seq<u8>, item: Item, max: nat)
    requires item.kind != List
    ensures ListItems(memory, item, max) == Failure(UnexpectedError)
  {
  }

  lemma FirstWritten(memory: seq<u8>, items: seq<Item>, ts: seq<Tree>, n: nat)
    requires AllWritten(memory, items, First(ts, n))
    ensures |items| == n <==> |ts| >= n
    ensures |ts| >= n ==> AllWritten(memory, items, ts[..n])
  {
    hide Written;
    if |ts| == n {
      assert ts[..n] == ts;
    }
  }

  lemma ExactlyWritten(memory: seq<u8>, item: Item, t: Tree, n: nat)
    requires Written(memory, item, t)
    ensures Inside(item, |memory|)
    ensures ReadExactly(memory, item, n).Success? <==> HasItems(t, n)
    ensures HasItems(t, n) ==> AllWritten(memory, ReadExactly(memory, item, n).value, t.items[..n])
    ensures !HasItems(t, n) ==>
              ReadExactly(memory, item, n) == Failure(if t.Lst? then UnexpectedNumberItems else UnexpectedError)
  {
    hide Written, AllWritten, ListItems, Inside, First;
    WrittenKind(memory, item, t);
    if t.Lst? {
      ListItemsWritten(memory, item, t.items, n);
      FirstWritten(memory, ListItems(memory, item, n).value, t.items, n);
    } else {
      NotAList(memory, item, n);
    }
  }

  lemma InnerWritten(memory: seq<u8>, item: Item, t: Tree)
    requires Written(memory, item, t)
    ensures Inside(item, |memory|)
    ensures ReadInner(memory, item).Success? <==> t.Lst?
    ensures HasItems(t, 1) ==> Written(memory, ReadInner(memory, item).value, t.items[0])
    ensures t.Lst? && t.items == [] ==> ReadInner(memory, item) == Success(NO_ITEM)
    ensures t.Str? ==> ReadInner(memory, item) == Failure(UnexpectedError)
  {
    hide Written, ListItems, Inside;
    WrittenKind(memory, item, t);
    if t.Lst? {
      ListItemsWritten(memory, item, t.items, 1);
    } else {
      NotAList(memory, item, 1);
    }
  }

  lemma NumberWritten(memory: seq<u8>, item: Item, t: Tree)
    requires Written(memory, item, t)
    ensures Inside(item, |memory|)
    ensures UInt256Of(memory, item).Success? <==> IsNumber(t)
    ensures IsNumber(t) ==> UInt256Of(memory, item).value == BigEndian.Value(t.bytes)
  {
    hide Written, BigEndian.Value, Content;
    WrittenKind(memory, item, t);
    if t.Str? {
      WrittenString(memory, item, t.bytes);
      NumberOfContent(memory, item);
    }
  }

  lemma NumberOfContent(memory: seq<u8>, item: Item)
    requires Inside(item, |memory|) && item.kind != List
    ensures UInt256Of(memory, item).Success? <==> |Content(memory, item)| <= 32
    ensures UInt256Of(memory, item).Success? ==>
              UInt256Of(memory, item).value == BigEndian.Value(Content(memory, item))
  {
  }

  lemma NumberError(memory: seq<u8>, item: Item, t: Tree)
    requires Written(memory, item, t)
    ensures Inside(item, |memory|)
    ensures UInt256Of(memory, item) ==
              match t
              case Lst(_) => Failure(UnexpectedType)
              case Str(bytes) =>
                if |bytes| > 32 then Failure(ValueOutOfRange) else Success(BigEndian.Value(bytes))
  {
    hide Written, BigEndian.Value, Content;
    WrittenKind(memory, item, t);
    NumberWritten(memory, item, t);
  }

  lemma TypeWritten(memory: seq<u8>, item: Item, t: Tree)
    requires Written(memory, item, t)
    ensures Inside(item, |memory|)
    ensures ReadType(memory, item).Success? <==> IsType(t)
    ensures IsType(t) ==> ReadType(memory, item).value as int == BigEndian.Value(t.bytes) % 0x100
    ensures !IsType(t) ==> ReadType(memory, item) == Failure(if t.Lst? then UnexpectedType else ValueOutOfRange)
  {
    hide Written, BigEndian.Value, UInt256Of, Inside;
    NumberError(memory, item, t);
  }

  lemma AllWrittenHeld(memory: seq<u8>, items: seq<Item>, ts: seq<Tree>)
    requires AllWritten(memory, items, ts)
    ensures Held(items, |memory|)
  {
    hide Written, Inside;
    forall i | 0 <= i < |items| ensures Inside(items[i], |memory|) {
      WrittenKind(memory, items[i], ts[i]);
    }
  }

  lemma RecipientWritten(memory: seq<u8>, item: Item, t: Tree)
    requires Written(memory, item, t)
    ensures IsRecipient(memory, item) <==> HasItems(t, EXTRA_TO_FIELDS)
  {
    hide Written, ReadExactly, Inside;
    WrittenKind(memory, item, t);
    ExactlyWritten(memory, item, t, EXTRA_TO_FIELDS);
  }

  lemma CheckWritten(memory: seq<u8>, items: seq<Item>, ts: seq<Tree>)
    requires AllWritten(memory, items, ts)
    ensures Held(items, |memory|)
    ensures CheckRecipients(memory, items) == Ok <==> AreRecipients(ts)
  {
    hide Written, CheckRecipients, IsRecipient, HasItems, Held;
    AllWrittenHeld(memory, items, ts);
    CheckedRecipients(memory, items);
    forall i | 0 <= i < |items|
      ensures IsRecipient(memory, items[i]) <==> HasItems(ts[i], EXTRA_TO_FIELDS)
    {
      RecipientWritten(memory, items[i], ts[i]);
    }
    if AreRecipients(ts) {
      forall x | x in items ensures IsRecipient(memory, x) {
      }
    }
  }

  lemma RecipientCodeWritten(memory: seq<u8>, item: Item, t: Tree)
    requires Written(memory, item, t)
    ensures Inside(item, |memory|)
    ensures RecipientCode(memory, item)
            == if t.Str? then UnexpectedError else if |t.items| < 3 then UnexpectedValue else Ok
  {
    hide Written, AllWritten, ListItems, Inside, First;
    WrittenKind(memory, item, t);
    if t.Lst? {
      ListItemsWritten(memory, item, t.items, 3);
      FirstWritten(memory, ListItems(memory, item, 3).value, t.items, 3);
    } else {
      NotAList(memory, item, 3);
    }
  }

  lemma AllWrittenRest(memory: seq<u8>, items: seq<Item>, ts: seq<Tree>)
    requires AllWritten(memory, items, ts) && ts != []
    ensures items != [] && Written(memory, items[0], ts[0]) && AllWritten(memory, items[1..], ts[1..])
  {
    hide Written;
  }

  lemma {:induction false} CheckCode(memory: seq<u8>, items: seq<Item>, ts: seq<Tree>)
    requires AllWritten(memory, items, ts)
    ensures Held(items, |memory|) && CheckRecipients(memory, items) == RecipientsCode(ts)
  {
    AllWrittenHeld(memory, items, ts);
    if ts == [] {
      NothingToCheck(memory);
    } else {
      hide Written, AllWritten, CheckRecipients, RecipientCode, Held;
      AllWrittenRest(memory, items, ts);
      CheckUnfold(memory, items);
      RecipientCodeWritten(memory, items[0], ts[0]);
      CheckCode(memory, items[1..], ts[1..]);
    }
  }

  lemma RecipientsWritten(memory: seq<u8>, item: Item, t: Tree)
    requires Written(memory, item, t)
    ensures Inside(item, |memory|)
    ensures ReadRecipients(memory, item).Success? <==> AreRecipients(Recipients(t))
    ensures ReadRecipients(memory, item).Success? ==>
              AllWritten(memory, ReadRecipients(memory, item).value, Recipients(t))
    ensures ReadRecipients(memory, item).Code() == RecipientsCode(Recipients(t))
  {
    NoRecipientsCode();
    hide Written, AllWritten, ListItems, CheckRecipients, AreRecipients, First, Inside, RecipientsCode;
    WrittenKind(memory, item, t);
    if t.Lst? {
      ListItemsWritten(memory, item, t.items, EXTRA_TO_MAX);
      var items := ListItems(memory, item, EXTRA_TO_MAX).value;
      CheckWritten(memory, items, First(t.items, EXTRA_TO_MAX));
      CheckCode(memory, items, First(t.items, EXTRA_TO_MAX));
      if item.rlpLen == 0 {
        EmptyListHasNone(memory, item, EXTRA_TO_MAX);
        NothingToCheck(memory);
      }
    } else {
      NothingWritten(memory);
      NothingToCheck(memory);
    }
  }

  lemma NoRecipientsCode()
    ensures RecipientsCode([]) == Ok
  {
  }

  lemma EmptyListHasNone(memory: seq<u8>, item: Item, max: nat)
    requires item.kind == List && item.rlpLen == 0 && Inside(item, |memory|)
    ensures ListItems(memory, item, max) == Success([])
  {
  }

  lemma NothingToCheck(memory: seq<u8>)
    ensures AreRecipients([]) && CheckRecipients(memory, []) == Ok
  {
  }

  lemma ExtraWritten(memory: seq<u8>, root: Item, fields: seq<Item>, t: Tree)
    requires HasItems(t, ROOT_FIELDS) && Written(memory, root, t)
    requires AllWritten(memory, fields, t.items[..ROOT_FIELDS])
    ensures |fields| == ROOT_FIELDS && Held(fields, |memory|)
    ensures ReadExtra(memory, root, fields).Success? <==> IsTransaction(t)
    ensures IsTransaction(t) ==> Stores(memory, ReadExtra(memory, root, fields).value, t)
    ensures ReadExtra(memory, root, fields).Code() == ExtraCode(t.items[12])
  {
    AllWrittenHeld(memory, fields, t.items[..ROOT_FIELDS]);
    var last := fields[ROOT_FIELDS - 1];
    assert Written(memory, last, t.items[ROOT_FIELDS - 1]);
    hide Written, ReadInner, ReadExactly, ReadType, ReadRecipients, IsType, AreRecipients, Recipients, Held, Inside,
         BigEndian.Value, RecipientsCode, TypeCodeOf;
    InnerWritten(memory, last, t.items[ROOT_FIELDS - 1]);
    if HasItems(t.items[ROOT_FIELDS - 1], 1) {
      var inner := ReadInner(memory, last).value;
      ExactlyWritten(memory, inner, ExtraOf(t), EXTRA_FIELDS);
      if HasItems(ExtraOf(t), EXTRA_FIELDS) {
        var extra := ReadExactly(memory, inner, EXTRA_FIELDS).value;
        TypeWritten(memory, extra[0], ExtraOf(t).items[0]);
        TypeCodeMeans(ExtraOf(t).items[0]);
        RecipientsWritten(memory, extra[EXTRA_FIELDS - 1], ExtraOf(t).items[EXTRA_FIELDS - 1]);
      }
    } else {
      NoItemsInNothing(memory);
    }
  }

  lemma TypeCodeMeans(t: Tree)
    ensures TypeCodeOf(t) == if IsType(t) then Ok else if t.Lst? then UnexpectedType else ValueOutOfRange
  {
  }

  lemma NoItemsInNothing(memory: seq<u8>)
    ensures ReadExactly(memory, NO_ITEM, EXTRA_FIELDS) == Failure(UnexpectedError)
  {
  }

  lemma BodyWritten(memory: seq<u8>, root: Item, t: Tree)
    requires Written(memory, root, t)
    ensures Inside(root, |memory|)
    ensures ReadBody(memory, root).Success? <==> IsTransaction(t)
    ensures IsTransaction(t) ==> Stores(memory, ReadBody(memory, root).value, t)
    ensures t.Lst? ==> ReadBody(memory, root).Code() == MessageCode(t)
  {
    hide Written, AllWritten, ReadExactly, ReadExtra, Stores, Inside, Held, ExtraCode;
    ExactlyWritten(memory, root, t, ROOT_FIELDS);
    if HasItems(t, ROOT_FIELDS) {
      ExtraWritten(memory, root, ReadExactly(memory, root, ROOT_FIELDS).value, t);
    }
  }

  lemma RootRead(s: seq<u8>, base: nat)
    requires ReadHeader(s).Success? && ReadHeader(s).value.size == |s|
    ensures var root := ItemAt(ReadHeader(s).value, base);
            ReadRoot(s, base) == if root.kind == List then Success(root) else Failure(UnexpectedType)
  {
    assert s != [];
    hide ReadHeader, ParseItems;
    var h, rest := StreamCons(s, base, 1);
    assert s[h.size..] == [];
    StreamOfNothing([], base + h.size, 0);
  }

  /** No proper prefix of an encoding has a readable header. */
  lemma HeaderCutShort(e: seq<u8>, n: nat)
    requires ReadHeader(e).Success? && ReadHeader(e).value.size == |e| && n < |e|
    ensures ReadHeader(e[..n]) == Failure(UnexpectedBufferEnd)
  {
    assert e[..n] + e[n..] == e;
    if ReadHeader(e[..n]).Success? {
      HeaderExtends(e[..n], e[n..]);
    }
    hide ReadHeader;
  }

  lemma RootCutShort(e: seq<u8>, n: nat, base: int)
    requires ReadHeader(e).Success? && ReadHeader(e).value.size == |e| && 0 < n < |e|
    ensures ReadRoot(e[..n], base) == Failure(UnexpectedBufferEnd)
  {
    HeaderCutShort(e, n);
    assert e[..n] != [];
    hide ReadHeader;
  }

  lemma RootTooLong(e: seq<u8>, more: seq<u8>, base: int)
    requires e != [] && more != [] && ReadHeader(e).Success? && ReadHeader(e).value.size == |e|
    ensures ReadRoot(e + more, base) == Failure(UnexpectedUnparsedBytes)
  {
    HeaderExtends(e, more);
    hide ReadHeader, ParseItems;
    var h, rest := StreamCons(e + more, base, 1);
    StreamOfNothing((e + more)[h.size..], base + h.size, 0);
  }

  lemma StandsThere(memory: seq<u8>, at: nat, s: seq<u8>)
    requires At(memory, at, s)
    ensures at + |s| <= |memory| && memory[at..at + |s|] == s
  {
  }

  lemma TxIsBody(memory: seq<u8>, base: nat, s: seq<u8>)
    requires At(memory, base, s)
    ensures base + |s| <= |memory|
    ensures var root := ReadRoot(s, base);
            && (root.Failure? ==> ReadTx(memory, base, |s|) == Failure(root.error))
            && (root.Success? ==>
                  Inside(root.value, |memory|) && ReadTx(memory, base, |s|) == ReadBody(memory, root.value))
  {
    StandsThere(memory, base, s);
    hide ReadRoot, ReadBody, Inside, At;
    if ReadRoot(s, base).Success? {
      RootInside(memory, base, |s|);
    }
  }

  lemma BodyNeedsList(t: Tree)
    ensures IsTransaction(t) ==> t.Lst?
    ensures t.Str? ==> MessageCode(t) == UnexpectedType
  {
  }

  /** The encoding of a tree, anywhere in a memory, is read as a transaction exactly when the
      tree has the shape of one; the stored items are then those of the tree. Any other tree gets
      the error of its first defect. */
  lemma ReadExactlyTransactions(t: Tree, e: seq<u8>, memory: seq<u8>, base: nat)
    requires Encode(t) == Some(e) && |e| < 0x1_0000 && At(memory, base, e)
    ensures base + |e| <= |memory|
    ensures ReadTx(memory, base, |e|).Success? <==> IsTransaction(t)
    ensures IsTransaction(t) ==> Stores(memory, ReadTx(memory, base, |e|).value, t)
    ensures ReadTx(memory, base, |e|).Code() == MessageCode(t)
  {
    hide ReadHeader, ReadRoot, ReadBody, ReadTx, Encode, At, Written, Stores, IsTransaction, MessageCode, Inside;
    WrittenHere(t, e, memory, base);
    var root := ItemAt(ReadHeader(e).value, base);
    RootRead(e, base);
    WrittenKind(memory, root, t);
    BodyWritten(memory, root, t);
    TxIsBody(memory, base, e);
    BodyNeedsList(t);
  }

  // ---------- The stored items, one by one ----------

  /** Each item denotes the tree at the same place. */
  ghost predicate Denote(memory: seq<u8>, items: seq<Item>, ts: seq<Tree>)
  {
    |items| <= |ts| && forall i :: 0 <= i < |items| ==>
      Inside(items[i], |memory|) && TreeOf(memory, items[i]) == Some(ts[i])
  }

  lemma WrittenDenote(memory: seq<u8>, items: seq<Item>, ts: seq<Tree>, all: seq<Tree>)
    requires AllWritten(memory, items, ts) && ts <= all
    ensures |items| == |ts| && Denote(memory, items, all)
  {
    hide Written, Inside, TreeOf;
    forall i | 0 <= i < |items| ensures Inside(items[i], |memory|) && TreeOf(memory, items[i]) == Some(all[i]) {
      WrittenDenotes(memory, items[i], ts[i]);
    }
  }

  /** What a transaction is made of: 13 items, 3 extra fields, and the first ten members of the
      recipient list, or none if a string stands in its place. */
  lemma StoredItems(t: Tree, e: seq<u8>, memory: seq<u8>, base: nat)
    requires Encode(t) == Some(e) && |e| < 0x1_0000 && At(memory, base, e)
    ensures base + |e| <= |memory|
    ensures IsTransaction(t) ==>
              && ReadTx(memory, base, |e|).Success?
              && var tx := ReadTx(memory, base, |e|).value;
              && |tx.fields| == 13 && Denote(memory, tx.fields, t.items)
              && |tx.extraFields| == 3 && Denote(memory, tx.extraFields, ExtraOf(t).items)
              && tx.extraTxType as int == BigEndian.Value(ExtraOf(t).items[0].bytes) % 0x100 <= 122
              && var rs := if ExtraOf(t).items[2].Lst? then ExtraOf(t).items[2].items else [];
              && |tx.recipients| == (if |rs| <= 10 then |rs| else 10)
              && Denote(memory, tx.recipients, rs)
  {
    ReadExactlyTransactions(t, e, memory, base);
    if IsTransaction(t) {
      var tx := ReadTx(memory, base, |e|).value;
      hide Written, AllWritten, ReadTx, Denote, Encode, At, BigEndian.Value;
      WrittenDenote(memory, tx.fields, t.items[..13], t.items);
      WrittenDenote(memory, tx.extraFields, ExtraOf(t).items[..3], ExtraOf(t).items);
      var to := ExtraOf(t).items[2];
      WrittenDenote(memory, tx.recipients, Recipients(to), if to.Lst? then to.items else []);
    }
  }
}
