/** The transaction shape: nested lists read into the slots of the transaction object. */
module Tx {
  import opened Words
  import opened Uint256
  import opened ParserCommon
  import opened RlpFormat
  import opened RlpStream
  import opened Rlp
  import BigEndian

  const ROOT_FIELDS: int := 13
  const EXTRA_FIELDS: int := 3
  const EXTRA_TO_MAX: int := 10
  const EXTRA_TO_FIELDS: int := 3

  // tx_type_e
  const TXTYPE_NORMAL: u8 := 0
  const TXTYPE_SCHEDULED: u8 := 3
  const TXTYPE_REVERT: u8 := 4
  const TXTYPE_AUTHORIZED: u8 := 5
  const TXTYPE_CANCEL_AUTH: u8 := 6
  const TXTYPE_CREATE_CURR: u8 := 9
  const TXTYPE_SUPERBLOCK: u8 := 122

  // ---------- The shape as a function of the bytes ----------

  /** The contents of parser_tx_t after a successful read. */
  datatype TxView = TxView(root: Item, fields: seq<Item>, extraFields: seq<Item>, recipients: seq<Item>,
                           extraTxType: u8)

  /** Every item lies inside a memory of the given size. */
  predicate Held(items: seq<Item>, size: nat)
  {
    forall x :: x in items ==> Inside(x, size)
  }

  /** A single list that spans the whole slice. */
  function ReadRoot(s: seq<u8>, base: int): (r: Result<Item>)
  {
    var parsed :- ParseItems(s, base, 1);
    if parsed.consumed < |s| then Failure(UnexpectedUnparsedBytes)
    else
      var root := if |parsed.items| == 1 then parsed.items[0] else NO_ITEM;
      if root.kind != List then Failure(UnexpectedType) else Success(root)
  }

  /** The items of a list of exactly n items, further ones being ignored. */
  function ReadExactly(memory: seq<u8>, list: Item, n: nat): (r: Result<seq<Item>>)
    requires list.kind == List ==> Inside(list, |memory|)
    ensures r.Success? ==> list.kind == List && |r.value| == n && Held(r.value, |memory|)
  {
    var items :- ListItems(memory, list, n);
    if |items| != n then Failure(UnexpectedNumberItems) else Success(items)
  }

  /** The first item of a list, or the zeroed item if there is none. */
  function ReadInner(memory: seq<u8>, list: Item): (r: Result<Item>)
    requires list.kind == List ==> Inside(list, |memory|)
    ensures r.Success? && r.value.kind == List ==> Inside(r.value, |memory|)
  {
    var items :- ListItems(memory, list, 1);
    Success(if |items| == 1 then items[0] else NO_ITEM)
  }

  function TypeCode(value: u8): ParserError
  {
    if value > TXTYPE_SUPERBLOCK then ValueOutOfRange else Ok
  }

  /** The type: the low byte of the number in the first extra field. */
  function ReadType(memory: seq<u8>, item: Item): (r: Result<u8>)
    requires Inside(item, |memory|)
  {
    var value :- UInt256Of(memory, item);
    var low: u8 := value % 0x100;
    if TypeCode(low) != Ok then Failure(TypeCode(low)) else Success(low)
  }

  /** Every recipient is a list with three items. */
  function CheckRecipients(memory: seq<u8>, recipients: seq<Item>): ParserError
    requires Held(recipients, |memory|)
  {
    if recipients == [] then Ok else
      match ListItems(memory, recipients[0], EXTRA_TO_FIELDS)
      case Failure(error) => error
      case Success(items) =>
        if |items| != EXTRA_TO_FIELDS then UnexpectedValue else CheckRecipients(memory, recipients[1..])
  }

  /** The recipients listed in the last extra field; none if it is no list or an empty one. */
  function ReadRecipients(memory: seq<u8>, item: Item): (r: Result<seq<Item>>)
    requires Inside(item, |memory|)
    ensures r.Success? ==> |r.value| <= EXTRA_TO_MAX && Held(r.value, |memory|)
  {
    if item.kind != List || item.rlpLen == 0 then Success([]) else
      var recipients :- ListItems(memory, item, EXTRA_TO_MAX);
      var code := CheckRecipients(memory, recipients);
      if code != Ok then Failure(code) else Success(recipients)
  }

  function ReadExtra(memory: seq<u8>, root: Item, fields: seq<Item>): (r: Result<TxView>)
    requires |fields| == ROOT_FIELDS && Held(fields, |memory|)
  {
    var inner :- ReadInner(memory, fields[ROOT_FIELDS - 1]);
    var extra :- ReadExactly(memory, inner, EXTRA_FIELDS);
    var txType :- ReadType(memory, extra[0]);
    var recipients :- ReadRecipients(memory, extra[EXTRA_FIELDS - 1]);
    Success(TxView(root, fields, extra, recipients, txType))
  }

  /** Everything inside the root list. */
  function ReadBody(memory: seq<u8>, root: Item): Result<TxView>
    requires root.kind == List ==> Inside(root, |memory|)
  {
    var fields :- ReadExactly(memory, root, ROOT_FIELDS);
    ReadExtra(memory, root, fields)
  }

  /** _read as a function of the slice memory[base .. base + len]. */
  function ReadTx(memory: seq<u8>, base: nat, len: nat): Result<TxView>
    requires base + len <= |memory|
  {
    var root :- ReadRoot(memory[base..base + len], base);
    RootInside(memory, base, len);
    ReadBody(memory, root)
  }

  lemma RootInside(memory: seq<u8>, base: nat, len: nat)
    requires base + len <= |memory| && ReadRoot(memory[base..base + len], base).Success?
    ensures var root := ReadRoot(memory[base..base + len], base).value;
            Inside(root, |memory|) && root.kind == List && base <= root.ptr && End(root) == base + len && root.rlpLen < len
  {
  }

  // ---------- Nesting ----------

  predicate Within(item: Item, parent: Item)
  {
    && parent.kind == List
    && parent.ptr <= item.ptr && End(item) <= End(parent)
    && item.rlpLen < parent.rlpLen
  }

  lemma ListItemsWithin(memory: seq<u8>, list: Item, max: nat)
    requires list.kind == List && Inside(list, |memory|) && ListItems(memory, list, max).Success?
    ensures forall x :: x in ListItems(memory, list, max).value ==> Within(x, list)
  {
    ListItemsPlaced(memory, list, max);
    hide ListItems;
  }

  /** Recipients: lists of at least three items, a fourth and later ones being ignored. */
  predicate IsRecipient(memory: seq<u8>, item: Item)
  {
    item.kind == List && Inside(item, |memory|) && ReadExactly(memory, item, EXTRA_TO_FIELDS).Success?
  }

  lemma {:induction false} CheckedRecipients(memory: seq<u8>, recipients: seq<Item>)
    requires Held(recipients, |memory|)
    ensures CheckRecipients(memory, recipients) == Ok <==> forall x :: x in recipients ==> IsRecipient(memory, x)
  {
    hide CheckRecipients, IsRecipient;
    if recipients == [] {
      CheckNothing(memory);
    } else {
      assert recipients == [recipients[0]] + recipients[1..];
      CheckStep(memory, recipients);
      CheckedRecipients(memory, recipients[1..]);
    }
  }

  lemma CheckNothing(memory: seq<u8>)
    ensures CheckRecipients(memory, []) == Ok
  {
  }

  lemma CheckStep(memory: seq<u8>, recipients: seq<Item>)
    requires recipients != [] && Held(recipients, |memory|)
    ensures CheckRecipients(memory, recipients) == Ok
            <==> IsRecipient(memory, recipients[0]) && CheckRecipients(memory, recipients[1..]) == Ok
  {
  }

  /** What a successful read establishes: the root spans the input, every stored item lies in
      the payload of its parent, the counts are fixed, and the type is in range. */
  ghost predicate Nested(memory: seq<u8>, base: nat, len: nat, tx: TxView)
  {
    && tx.root.kind == List && base <= tx.root.ptr && End(tx.root) == base + len
    && |tx.fields| == ROOT_FIELDS
    && (forall x :: x in tx.fields ==> Inside(x, |memory|) && Within(x, tx.root))
    && |tx.extraFields| == EXTRA_FIELDS
    && ReadInner(memory, tx.fields[ROOT_FIELDS - 1]).Success?
    && (var inner := ReadInner(memory, tx.fields[ROOT_FIELDS - 1]).value;
        && Within(inner, tx.fields[ROOT_FIELDS - 1])
        && forall x :: x in tx.extraFields ==> Inside(x, |memory|) && Within(x, inner))
    && |tx.recipients| <= EXTRA_TO_MAX
    && (forall x :: x in tx.recipients ==>
          Within(x, tx.extraFields[EXTRA_FIELDS - 1]) && IsRecipient(memory, x))
    && UInt256Of(memory, tx.extraFields[0]).Success?
    && tx.extraTxType == UInt256Of(memory, tx.extraFields[0]).value % 0x100
    && tx.extraTxType <= TXTYPE_SUPERBLOCK
  }

  lemma ReadRecipientsNested(memory: seq<u8>, item: Item)
    requires Inside(item, |memory|)
    ensures ReadRecipients(memory, item).Success? ==>
              forall x :: x in ReadRecipients(memory, item).value ==> Within(x, item) && IsRecipient(memory, x)
  {
    hide ListItems, CheckRecipients, IsRecipient;
    if ReadRecipients(memory, item).Success? && item.kind == List && item.rlpLen > 0 {
      ListItemsWithin(memory, item, EXTRA_TO_MAX);
      CheckedRecipients(memory, ListItems(memory, item, EXTRA_TO_MAX).value);
    }
  }

  lemma ReadExtraNested(memory: seq<u8>, base: nat, len: nat, root: Item, fields: seq<Item>)
    requires |fields| == ROOT_FIELDS && forall x :: x in fields ==> Inside(x, |memory|) && Within(x, root)
    requires root.kind == List && base <= root.ptr && End(root) == base + len
    ensures ReadExtra(memory, root, fields).Success? ==>
              Nested(memory, base, len, ReadExtra(memory, root, fields).value)
  {
    hide ListItems, CheckRecipients, IsRecipient, UInt256Of, ReadRecipients, Within;
    if ReadExtra(memory, root, fields).Success? {
      var last := fields[ROOT_FIELDS - 1];
      var inner := ReadInner(memory, last).value;
      InnerWithin(memory, last);
      var extra := ReadExactly(memory, inner, EXTRA_FIELDS).value;
      ListItemsWithin(memory, inner, EXTRA_FIELDS);
      ReadRecipientsNested(memory, extra[EXTRA_FIELDS - 1]);
      assert Within(inner, last);
    }
  }

  lemma InnerWithin(memory: seq<u8>, list: Item)
    requires Inside(list, |memory|) && ReadInner(memory, list).Success? && ReadInner(memory, list).value.kind == List
    ensures Within(ReadInner(memory, list).value, list)
  {
  }

  /** The nesting invariant of _read. */
  lemma ReadIsNested(memory: seq<u8>, base: nat, len: nat)
    requires base + len <= |memory|
    ensures ReadTx(memory, base, len).Success? ==> Nested(memory, base, len, ReadTx(memory, base, len).value)
  {
    hide ListItems, ReadRoot, ReadExtra, Nested, Within;
    if ReadTx(memory, base, len).Success? {
      RootInside(memory, base, len);
      var root := ReadRoot(memory[base..base + len], base).value;
      var fields := ReadExactly(memory, root, ROOT_FIELDS).value;
      ListItemsWithin(memory, root, ROOT_FIELDS);
      ReadExtraNested(memory, base, len, root, fields);
    }
  }

  // ---------- Bytes behind the slice ----------

  lemma CutSlice(memory: seq<u8>, n: nat, from: nat, to: nat)
    requires from <= to <= n <= |memory|
    ensures memory[..n][from..to] == memory[from..to]
  {
  }

  lemma ListItemsCut(memory: seq<u8>, n: nat, list: Item, max: nat)
    requires n <= |memory| && (list.kind == List ==> Inside(list, n))
    ensures ListItems(memory, list, max) == ListItems(memory[..n], list, max)
  {
    if list.kind == List {
      CutSlice(memory, n, list.ptr, list.ptr + list.rlpLen % 0x1_0000);
    }
    hide ParseItems;
  }

  lemma ReadExactlyCut(memory: seq<u8>, n: nat, list: Item, count: nat)
    requires n <= |memory| && (list.kind == List ==> Inside(list, n))
    ensures ReadExactly(memory, list, count) == ReadExactly(memory[..n], list, count)
  {
    hide ListItems;
    ListItemsCut(memory, n, list, count);
  }

  lemma ReadInnerCut(memory: seq<u8>, n: nat, list: Item)
    requires n <= |memory| && (list.kind == List ==> Inside(list, n))
    ensures ReadInner(memory, list) == ReadInner(memory[..n], list)
  {
    hide ListItems;
    ListItemsCut(memory, n, list, 1);
  }

  lemma UInt256OfCut(memory: seq<u8>, n: nat, item: Item)
    requires n <= |memory| && Inside(item, n)
    ensures UInt256Of(memory, item) == UInt256Of(memory[..n], item)
  {
    CutSlice(memory, n, item.ptr, item.ptr + ContentLength(item));
    hide BigEndian.Value;
  }

  lemma ReadTypeCut(memory: seq<u8>, n: nat, item: Item)
    requires n <= |memory| && Inside(item, n)
    ensures ReadType(memory, item) == ReadType(memory[..n], item)
  {
    hide UInt256Of;
    UInt256OfCut(memory, n, item);
  }

  lemma {:induction false} CheckRecipientsCut(memory: seq<u8>, n: nat, recipients: seq<Item>)
    requires n <= |memory| && Held(recipients, n)
    ensures Held(recipients, |memory|)
    ensures CheckRecipients(memory, recipients) == CheckRecipients(memory[..n], recipients)
  {
    hide ListItems;
    if recipients != [] {
      ListItemsCut(memory, n, recipients[0], EXTRA_TO_FIELDS);
      CheckRecipientsCut(memory, n, recipients[1..]);
    }
  }

  lemma ReadRecipientsCut(memory: seq<u8>, n: nat, item: Item)
    requires n <= |memory| && Inside(item, n)
    ensures ReadRecipients(memory, item) == ReadRecipients(memory[..n], item)
  {
    hide ListItems, CheckRecipients;
    ListItemsCut(memory, n, item, EXTRA_TO_MAX);
    if item.kind == List && ListItems(memory[..n], item, EXTRA_TO_MAX).Success? {
      CheckRecipientsCut(memory, n, ListItems(memory[..n], item, EXTRA_TO_MAX).value);
    }
  }

  lemma ReadExtraCut(memory: seq<u8>, n: nat, root: Item, fields: seq<Item>)
    requires n <= |memory| && |fields| == ROOT_FIELDS && Held(fields, n)
    ensures Held(fields, |memory|)
    ensures ReadExtra(memory, root, fields) == ReadExtra(memory[..n], root, fields)
  {
    var cut := memory[..n];
    assert |cut| == n;
    ReadInnerCut(memory, n, fields[ROOT_FIELDS - 1]);
    hide ReadInner, ReadExactly, ReadType, ReadRecipients, Inside;
    var inner := ReadInner(cut, fields[ROOT_FIELDS - 1]);
    if inner.Success? {
      ReadExactlyCut(memory, n, inner.value, EXTRA_FIELDS);
      var extra := ReadExactly(cut, inner.value, EXTRA_FIELDS);
      if extra.Success? {
        ReadTypeCut(memory, n, extra.value[0]);
        ReadRecipientsCut(memory, n, extra.value[EXTRA_FIELDS - 1]);
      }
    }
  }

  /** Bytes behind the slice do not change what is read. */
  lemma ReadTxCut(memory: seq<u8>, n: nat)
    requires n <= |memory|
    ensures ReadTx(memory, 0, n) == ReadTx(memory[..n], 0, n)
  {
    var cut := memory[..n];
    assert cut[0..0 + n] == memory[0..0 + n];
    hide ReadRoot, ReadBody, Inside;
    ReadTxSteps(memory, 0, n);
    ReadTxSteps(cut, 0, n);
    var root := ReadRoot(cut[0..0 + n], 0);
    if root.Success? {
      ReadBodyCut(memory, n, root.value);
    }
  }

  lemma ReadBodyCut(memory: seq<u8>, n: nat, root: Item)
    requires n <= |memory| && Inside(root, n)
    ensures Inside(root, |memory|)
    ensures ReadBody(memory, root) == ReadBody(memory[..n], root)
  {
    assert |memory[..n]| == n;
    ReadExactlyCut(memory, n, root, ROOT_FIELDS);
    hide ReadExactly, ReadExtra;
    if ReadExactly(memory[..n], root, ROOT_FIELDS).Success? {
      ReadExtraCut(memory, n, root, ReadExactly(memory[..n], root, ROOT_FIELDS).value);
    }
  }

  // ---------- validateTxType ----------

  /** Bisection between the smallest and the largest enumerator: as every value in between is
      a possible midpoint, all of 0..122 is accepted, not only the fourteen enumerators. */
  method ValidateTxType(value: u8) returns (err: ParserError)
    ensures err == TypeCode(value)
  {
    if value > TXTYPE_SUPERBLOCK {
      return ValueOutOfRange;
    }
    var left: u8, right: u8 := TXTYPE_NORMAL, TXTYPE_SUPERBLOCK;
    while left <= right
      invariant left <= value <= right <= TXTYPE_SUPERBLOCK
      decreases right - left
    {
      var mid: u8 := (left + right) / 2;
      if mid == value {
        return Ok;
      } else if mid < value {
        left := mid + 1;
      } else {
        right := mid - 1;
      }
    }
    return UnexpectedValue;
  }

  // ---------- The transaction object and _read ----------

  /** parser_tx_t. The root is a single slot. */
  class Transaction {
    const root: array<Item>
    const fields: array<Item>
    const extraFields: array<Item>
    const extraToListFields: array<Item>
    var rootFieldsItems: u16
    var extraFieldsItems: u16
    var extraToFieldsItems: u16
    var extraTxType: u8

    constructor ()
      ensures Layout()
      ensures fresh(root) && fresh(fields) && fresh(extraFields) && fresh(extraToListFields)
    {
      root := new Item[1](i => NO_ITEM);
      fields := new Item[ROOT_FIELDS](i => NO_ITEM);
      extraFields := new Item[EXTRA_FIELDS](i => NO_ITEM);
      extraToListFields := new Item[EXTRA_TO_MAX](i => NO_ITEM);
      rootFieldsItems, extraFieldsItems, extraToFieldsItems, extraTxType := 0, 0, 0, 0;
    }

    /** The arrays of the struct do not overlap. */
    ghost predicate Layout()
    {
      && root.Length == 1 && fields.Length == ROOT_FIELDS
      && extraFields.Length == EXTRA_FIELDS && extraToListFields.Length == EXTRA_TO_MAX
      && root != fields && root != extraFields && root != extraToListFields
      && fields != extraFields && fields != extraToListFields && extraFields != extraToListFields
    }

    ghost predicate Zeroed()
      requires Layout()
      reads this, root
    {
      root[0] == NO_ITEM && extraToFieldsItems == 0
    }

    /** Everything stored, as a value. */
    ghost function View(): TxView
      requires Layout() && extraToFieldsItems <= EXTRA_TO_MAX
      reads this, root, fields, extraFields, extraToListFields
    {
      TxView(root[0], fields[..], extraFields[..], extraToListFields[..extraToFieldsItems], extraTxType)
    }

    /** MEMZERO of the whole object. */
    method Clear()
      requires Layout()
      modifies this, root, fields, extraFields, extraToListFields
      ensures Zeroed()
    {
      root[0] := NO_ITEM;
      forall i | 0 <= i < fields.Length {
        fields[i] := NO_ITEM;
      }
      forall i | 0 <= i < extraFields.Length {
        extraFields[i] := NO_ITEM;
      }
      forall i | 0 <= i < extraToListFields.Length {
        extraToListFields[i] := NO_ITEM;
      }
      rootFieldsItems, extraFieldsItems, extraToFieldsItems, extraTxType := 0, 0, 0, 0;
    }
  }

  lemma OverwriteAll(before: seq<Item>, done: seq<Item>)
    requires |done| == |before|
    ensures Overwrite(before, done) == done
  {
  }

  lemma OverwriteSome(before: seq<Item>, done: seq<Item>)
    requires |done| <= |before|
    ensures |Overwrite(before, done)| == |before| && Overwrite(before, done)[..|done|] == done
  {
  }

  /** The single root list. */
  method ReadRootList(ctx: Context, v: Transaction) returns (err: ParserError)
    requires ctx.Valid() && ctx.bufferLen > 0
    requires v.Layout() && v.root[0] == NO_ITEM
    modifies ctx`offset, v.root
    ensures ctx.Valid()
    ensures err == ReadRoot(old(ctx.Rest()), old(ctx.Position())).Code()
    ensures err == Ok ==> v.root[0] == ReadRoot(old(ctx.Rest()), old(ctx.Position())).value
  {
    ghost var s, base, start := ctx.Rest(), ctx.Position(), ctx.offset;
    hide ParseItems, Context.Rest;
    var rootList;
    err, rootList := RlpParseStream(ctx, v.root, 1);
    if err != Ok {
      return;
    }
    if ctx.offset < ctx.bufferLen {
      return UnexpectedUnparsedBytes;
    }
    if v.root[0].kind != List {
      return UnexpectedType;
    }
  }

  /** A list read into slots that must all be filled. */
  method ReadFull(memory: seq<u8>, list: Item, slots: array<Item>, count: u16) returns (err: ParserError, items: u16)
    requires list.kind == List ==> Inside(list, |memory|)
    requires slots.Length == count
    modifies slots
    ensures err == ReadExactly(memory, list, count).Code()
    ensures err == Ok ==> items == count && slots[..] == ReadExactly(memory, list, count).value
  {
    hide ListItems, Overwrite;
    err, items := RlpReadList(memory, list, slots, count);
    if err != Ok {
      return;
    }
    if items != count {
      err := UnexpectedNumberItems;
      return;
    }
    OverwriteAll(old(slots[..]), ListItems(memory, list, count).value);
  }

  /** The first item of the extra list. */
  method ReadInnerList(memory: seq<u8>, list: Item) returns (err: ParserError, inner: Item)
    requires list.kind == List ==> Inside(list, |memory|)
    ensures err == ReadInner(memory, list).Code()
    ensures err == Ok ==> inner == ReadInner(memory, list).value
  {
    hide ListItems, Overwrite;
    var extraFieldsInnerElements := new Item[1](i => NO_ITEM);
    var items;
    assert extraFieldsInnerElements[..] == [NO_ITEM];
    err, items := RlpReadList(memory, list, extraFieldsInnerElements, 1);
    inner := extraFieldsInnerElements[0];
    if err == Ok {
      OverwriteFirst([NO_ITEM], ListItems(memory, list, 1).value);
    }
  }

  lemma OverwriteFirst(before: seq<Item>, done: seq<Item>)
    requires |before| == 1 && |done| <= 1
    ensures |Overwrite(before, done)| == 1
    ensures Overwrite(before, done)[0] == if |done| == 1 then done[0] else before[0]
  {
  }

  lemma LowByte(n: U256)
    ensures n.lower.lower % 0x100 == n.Value() % 0x100
  {
    var high := n.upper.Value() * (W128 / 0x100) + n.lower.upper * (W64 / 0x100);
    assert n.Value() == n.lower.lower + high * 0x100;
    ModAddMultiple(n.lower.lower, high, 0x100);
  }

  method ReadTxType(memory: seq<u8>, item: Item) returns (err: ParserError, txType: u8)
    requires Inside(item, |memory|)
    ensures err == ReadType(memory, item).Code()
    ensures err == Ok ==> txType == ReadType(memory, item).value
  {
    hide UInt256Of, U256.Value;
    var tmp := new U256();
    err := RlpReadUInt256(memory, item, tmp);
    txType := 0;
    if err != Ok {
      return;
    }
    LowByte(tmp);
    txType := tmp.lower.lower % 0x100;
    err := ValidateTxType(txType);
  }

  /** The loop over the recipients. */
  method CheckRecipientLists(memory: seq<u8>, lists: array<Item>, count: u16) returns (err: ParserError)
    requires count <= lists.Length
    requires Held(lists[..count], |memory|)
    ensures err == CheckRecipients(memory, lists[..count])
  {
    hide CheckRecipients, Inside;
    var i := 0;
    assert lists[..count][0..] == lists[..count];
    while i < count
      invariant 0 <= i <= count
      invariant CheckRecipients(memory, lists[..count]) == CheckRecipients(memory, lists[..count][i..])
      decreases count - i
    {
      ghost var rest := lists[..count][i..];
      assert rest[0] == lists[i] && rest[1..] == lists[..count][i + 1..];
      CheckUnfold(memory, rest);
      err := CheckRecipient(memory, lists[i]);
      if err != Ok {
        return;
      }
      i := i + 1;
    }
    CheckNothing(memory);
    err := Ok;
  }

  /** The outcome for one recipient. */
  function RecipientCode(memory: seq<u8>, item: Item): ParserError
    requires Inside(item, |memory|)
  {
    match ListItems(memory, item, EXTRA_TO_FIELDS)
    case Failure(error) => error
    case Success(items) => if |items| != EXTRA_TO_FIELDS then UnexpectedValue else Ok
  }

  lemma CheckUnfold(memory: seq<u8>, recipients: seq<Item>)
    requires recipients != [] && Held(recipients, |memory|)
    ensures CheckRecipients(memory, recipients)
            == if RecipientCode(memory, recipients[0]) != Ok then RecipientCode(memory, recipients[0])
               else CheckRecipients(memory, recipients[1..])
  {
  }

  method CheckRecipient(memory: seq<u8>, list: Item) returns (err: ParserError)
    requires Inside(list, |memory|)
    ensures err == RecipientCode(memory, list)
  {
    hide ListItems, Overwrite;
    var tmpList := new Item[EXTRA_TO_FIELDS](i => NO_ITEM);
    var tmpItems;
    err, tmpItems := RlpReadList(memory, list, tmpList, EXTRA_TO_FIELDS);
    if err != Ok {
      return;
    }
    if tmpItems != EXTRA_TO_FIELDS {
      return UnexpectedValue;
    }
  }

  /** The recipients, when the last extra field is a list that is not empty. */
  method ReadRecipientLists(memory: seq<u8>, extraToList: Item, slots: array<Item>)
    returns (err: ParserError, count: u16)
    requires Inside(extraToList, |memory|) && slots.Length == EXTRA_TO_MAX
    modifies slots
    ensures err == ReadRecipients(memory, extraToList).Code()
    ensures err == Ok ==> count <= EXTRA_TO_MAX && slots[..count] == ReadRecipients(memory, extraToList).value
  {
    hide ListItems, Overwrite, CheckRecipients;
    count := 0;
    if extraToList.kind == List && extraToList.rlpLen > 0 {
      err, count := RlpReadList(memory, extraToList, slots, EXTRA_TO_MAX);
      if err != Ok {
        return;
      }
      OverwriteSome(old(slots[..]), ListItems(memory, extraToList, EXTRA_TO_MAX).value);
      assert slots[..count] == slots[..][..count];
      err := CheckRecipientLists(memory, slots, count);
    } else {
      err := Ok;
    }
  }

  /** Everything behind the root fields. */
  method ReadExtraFields(memory: seq<u8>, v: Transaction) returns (err: ParserError)
    requires v.Layout() && v.extraToFieldsItems == 0
    requires Held(v.fields[..], |memory|)
    modifies v, v.extraFields, v.extraToListFields
    ensures err == ReadExtra(memory, v.root[0], v.fields[..]).Code()
    ensures err == Ok ==>
              && v.extraToFieldsItems <= EXTRA_TO_MAX && v.extraFieldsItems == EXTRA_FIELDS
              && v.View() == ReadExtra(memory, v.root[0], v.fields[..]).value
    ensures v.rootFieldsItems == old(v.rootFieldsItems)
  {
    hide Inside, ReadInner, ReadExactly, ReadType, ReadRecipients;
    var inner, items;
    err, inner := ReadInnerList(memory, v.fields[ROOT_FIELDS - 1]);
    if err != Ok {
      return;
    }
    err, items := ReadFull(memory, inner, v.extraFields, EXTRA_FIELDS);
    v.extraFieldsItems := items;
    if err != Ok {
      return;
    }
    var txType;
    err, txType := ReadTxType(memory, v.extraFields[0]);
    v.extraTxType := txType;
    if err != Ok {
      return;
    }
    var count;
    err, count := ReadRecipientLists(memory, v.extraFields[EXTRA_FIELDS - 1], v.extraToListFields);
    v.extraToFieldsItems := count;
  }

  /** Everything behind the root list. */
  method ReadFields(memory: seq<u8>, v: Transaction) returns (err: ParserError)
    requires v.Layout() && v.extraToFieldsItems == 0
    requires Inside(v.root[0], |memory|)
    modifies v, v.fields, v.extraFields, v.extraToListFields
    ensures err == ReadBody(memory, v.root[0]).Code()
    ensures err == Ok ==>
              && v.extraToFieldsItems <= EXTRA_TO_MAX
              && v.rootFieldsItems == ROOT_FIELDS && v.extraFieldsItems == EXTRA_FIELDS
              && v.View() == ReadBody(memory, v.root[0]).value
  {
    hide ReadExactly, ReadExtra, Inside, Held, Transaction.View;
    var items;
    err, items := ReadFull(memory, v.root[0], v.fields, ROOT_FIELDS);
    v.rootFieldsItems := items;
    if err != Ok {
      return;
    }
    err := ReadExtraFields(memory, v);
  }

  /** _read: fills the zeroed transaction object from the context, or returns the first error. */
  method Read(ctx: Context, v: Transaction) returns (err: ParserError)
    requires ctx.Valid() && ctx.bufferLen > 0
    requires v.Layout() && v.Zeroed()
    modifies ctx`offset, v, v.root, v.fields, v.extraFields, v.extraToListFields
    ensures ctx.Valid()
    ensures err == ReadTx(ctx.memory, old(ctx.Position()), |old(ctx.Rest())|).Code()
    ensures err == Ok ==>
              && v.extraToFieldsItems <= EXTRA_TO_MAX
              && v.rootFieldsItems == ROOT_FIELDS && v.extraFieldsItems == EXTRA_FIELDS
              && v.View() == ReadTx(ctx.memory, old(ctx.Position()), |old(ctx.Rest())|).value
  {
    ghost var base, len := ctx.Position(), |ctx.Rest()|;
    RestIsSlice(ctx);
    ReadTxSteps(ctx.memory, base, len);
    assert v.root[0] == NO_ITEM && v.extraToFieldsItems == 0;
    hide ReadRoot, ReadBody, ReadTx, Inside, Context.Rest, Context.Position, Context.Valid,
         Transaction.View, Transaction.Layout, Transaction.Zeroed, NO_ITEM;
    err := ReadRootList(ctx, v);
    if err != Ok {
      return;
    }
    err := ReadFields(ctx.memory, v);
  }

  lemma RestIsSlice(ctx: Context)
    requires ctx.Valid() && ctx.bufferLen > 0
    ensures 0 <= ctx.Position() && ctx.Position() + |ctx.Rest()| <= |ctx.memory|
    ensures ctx.Rest() == ctx.memory[ctx.Position()..ctx.Position() + |ctx.Rest()|]
  {
  }

  lemma ReadTxSteps(memory: seq<u8>, base: nat, len: nat)
    requires base + len <= |memory|
    ensures var root := ReadRoot(memory[base..base + len], base);
            if root.Failure? then ReadTx(memory, base, len) == Failure(root.error)
            else Inside(root.value, |memory|) && ReadTx(memory, base, len) == ReadBody(memory, root.value)
  {
    hide ReadRoot, ReadBody;
    if ReadRoot(memory[base..base + len], base).Success? {
      RootInside(memory, base, len);
    }
  }
}
