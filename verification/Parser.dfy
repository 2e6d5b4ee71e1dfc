/** parser.c: parsing, validation and display calls over the static transaction object, with
    the caller's key and value buffers written in place. */
module Parser {
  import opened Words
  import opened Uint256
  import opened ParserCommon
  import opened RlpFormat
  import opened Rlp
  import opened Tx
  import opened Display
  import opened DisplayProofs
  import Radix

  // ---------- Text buffers ----------

  /** The buffer starts with a text and its terminator. */
  ghost predicate Holds(buffer: seq<char>, text: string)
  {
    |text| < |buffer| && buffer[..|text|] == text && buffer[|text|] == '\0'
  }

  /** snprintf with a finished text: what fits, and a terminator if there is any room. */
  method Snprintf(out: array<char>, outLen: u16, text: string)
    requires outLen <= out.Length
    modifies out
    ensures outLen > 0 ==> Holds(out[..], Truncated(text, outLen))
    ensures out[outLen..] == old(out[outLen..])
  {
    if outLen == 0 {
      return;
    }
    var shown := Truncated(text, outLen);
    forall i | 0 <= i < |shown| {
      out[i] := shown[i];
    }
    out[|shown|] := '\0';
  }

  method Memzero(out: array<char>, outLen: u16)
    requires outLen <= out.Length
    modifies out
    ensures forall i :: 0 <= i < outLen ==> out[i] == '\0'
    ensures out[outLen..] == old(out[outLen..])
  {
    forall i | 0 <= i < outLen {
      out[i] := '\0';
    }
  }

  method CleanOutput(outKey: array<char>, outKeyLen: u16, outVal: array<char>, outValLen: u16)
    requires outKey != outVal && outKeyLen <= outKey.Length && outValLen <= outVal.Length
    modifies outKey, outVal
    ensures outKey[outKeyLen..] == old(outKey[outKeyLen..]) && outVal[outValLen..] == old(outVal[outValLen..])
  {
    Memzero(outKey, outKeyLen);
    Memzero(outVal, outValLen);
    Snprintf(outKey, outKeyLen, "?");
    Snprintf(outVal, outValLen, " ");
  }

  /** The value buffer after a display call that returned this row, for a length other than 0. */
  ghost predicate Shows(r: Result<(string, u8)>, err: ParserError, outLen: u16, buffer: seq<char>, pageCount: u8)
  {
    err == r.Code() && (err == Ok ==> pageCount == r.value.1 && (outLen > 0 ==> Holds(buffer, r.value.0)))
  }

  /** A value buffer. A number row writes behind one of 0 or 1 characters, up to 256 digits. */
  predicate RoomFor(outVal: array<char>, outValLen: u16)
  {
    outValLen <= outVal.Length && (outValLen < 2 ==> outVal.Length > 256)
  }

  /** Nothing behind the value buffer has changed, unless its length is 0 or 1. */
  twostate predicate TailKept(outVal: array<char>, outValLen: u16)
    reads outVal
  {
    2 <= outValLen <= outVal.Length ==> outVal[outValLen..] == old(outVal[outValLen..])
  }

  // ---------- Rows ----------

  method ShowText(page: Page, outVal: array<char>, outValLen: u16) returns (pageCount: u8)
    requires outValLen <= outVal.Length
    modifies outVal
    ensures Shows(Success(ShowPage(page, outValLen)), Ok, outValLen, outVal[..], pageCount)
    ensures outVal[outValLen..] == old(outVal[outValLen..])
  {
    Snprintf(outVal, outValLen, page.text);
    pageCount := page.pageCount;
  }

  /** A number in decimal, as far as the buffer reaches. */
  method PrintNumber(value: U256, outVal: array<char>, outValLen: u16) returns (ok: bool)
    requires value.upper != value.lower && RoomFor(outVal, outValLen)
    modifies outVal
    ensures ok <==> outValLen < 2 || |Radix.Numeral(value.Value(), 10)| <= outValLen - 1
    ensures ok ==> Holds(outVal[..], Radix.Numeral(value.Value(), 10))
    ensures TailKept(outVal, outValLen)
  {
    hide Radix.Numeral, U256.Value;
    PrintingRoom(value, outVal, outValLen);
    ok := Radix.Tostring256(value, 10, outVal, outValLen);
    if ok {
      TextHeld(outVal[..], Radix.Numeral(value.Value(), 10));
    }
  }

  method ShowDecimal(memory: seq<u8>, item: Item, outVal: array<char>, outValLen: u16) returns (err: ParserError)
    requires Inside(item, |memory|) && RoomFor(outVal, outValLen)
    modifies outVal
    ensures Shows(Single(Decimal(memory, item, outValLen)), err, outValLen, outVal[..], 1)
    ensures TailKept(outVal, outValLen)
  {
    hide UInt256Of, Radix.Numeral, U256.Value, Decimal, Single, Shows, RoomFor, Inside, Holds;
    var value := new U256();
    err := RlpReadUInt256(memory, item, value);
    if err != Ok {
      NoDecimal(memory, item, err, outValLen, outVal[..]);
      return;
    }
    var ok := PrintNumber(value, outVal, outValLen);
    err := if ok then Ok else UnexpectedError;
    DecimalPrinted(memory, item, value.Value(), ok, outValLen, outVal[..]);
  }

  lemma TextHeld(buffer: seq<char>, text: string)
    requires |text| < |buffer| && buffer[..|text|] == text && buffer[|text|] == '\0'
    ensures Holds(buffer, text)
  {
  }

  lemma NoDecimal(memory: seq<u8>, item: Item, err: ParserError, outLen: u16, buffer: seq<char>)
    requires Inside(item, |memory|) && err == UInt256Of(memory, item).Code() != Ok
    ensures Shows(Single(Decimal(memory, item, outLen)), err, outLen, buffer, 1)
  {
    hide UInt256Of;
  }

  lemma PrintingRoom(value: U256, outVal: array<char>, outValLen: u16)
    requires RoomFor(outVal, outValLen)
    ensures outValLen <= outVal.Length
    ensures outValLen < 2 ==> |Radix.Numeral(value.Value(), 10)| < outVal.Length
  {
    Radix.AtMost256Digits(value.Value(), 10);
    hide Radix.Numeral, U256.Value;
  }

  lemma DecimalPrinted(memory: seq<u8>, item: Item, n: nat, ok: bool, outLen: u16, buffer: seq<char>)
    requires Inside(item, |memory|) && UInt256Of(memory, item) == Success(n)
    requires ok <==> outLen < 2 || |Radix.Numeral(n, 10)| <= outLen - 1
    requires ok ==> Holds(buffer, Radix.Numeral(n, 10))
    ensures Shows(Single(Decimal(memory, item, outLen)), if ok then Ok else UnexpectedError, outLen, buffer, 1)
  {
    hide UInt256Of, Radix.Numeral, Holds;
  }

  /** printDataField. */
  method PrintDataField(platform: Platform, memory: seq<u8>, item: Item, txType: u8,
                        outVal: array<char>, outValLen: u16, pageIdx: u8)
    returns (err: ParserError, pageCount: u8)
    requires Inside(item, |memory|) && outValLen <= outVal.Length
    modifies outVal
    ensures Shows(DataRow(platform, memory, item, txType, outValLen, pageIdx), err, outValLen, outVal[..], pageCount)
    ensures outVal[outValLen..] == old(outVal[outValLen..])
  {
    hide Holds, TextBytes;
    pageCount := 1;
    if txType == TXTYPE_AUTHORIZED || txType == TXTYPE_CREATE_CURR || txType == TXTYPE_CANCEL_AUTH {
      pageCount := ShowText(platform.pageText(TextBytes(memory, item), outValLen, pageIdx), outVal, outValLen);
    } else if txType == TXTYPE_NORMAL || txType == TXTYPE_SCHEDULED || txType == TXTYPE_REVERT {
      pageCount := ShowText(platform.pageHex(TextBytes(memory, item), outValLen, pageIdx), outVal, outValLen);
    } else {
      err := UnexpectedType;
      return;
    }
    if item.rlpLen == 0 {
      pageCount := 1;
      Snprintf(outVal, outValLen, "Empty");
    }
    err := Ok;
  }

  method PrintChain(memory: seq<u8>, item: Item, outVal: array<char>, outValLen: u16) returns (err: ParserError)
    requires Inside(item, |memory|) && outValLen <= outVal.Length
    modifies outVal
    ensures Shows(Single(ChainRow(memory, item, outValLen)), err, outValLen, outVal[..], 1)
    ensures outVal[outValLen..] == old(outVal[outValLen..])
  {
    hide Holds, Radix.Numeral;
    if item.kind != Byte || item.rlpLen != 0 {
      return UnexpectedValue;
    }
    Snprintf(outVal, outValLen, Radix.Numeral(memory[item.ptr], 10));
    err := Ok;
  }

  /** printCommitTime: the three upper words must be zero. */
  method PrintCommitTime(platform: Platform, memory: seq<u8>, item: Item, outVal: array<char>, outValLen: u16)
    returns (err: ParserError)
    requires Inside(item, |memory|) && outValLen <= outVal.Length
    modifies outVal
    ensures Shows(Single(TimeRow(platform, memory, item, outValLen)), err, outValLen, outVal[..], 1)
    ensures outVal[outValLen..] == old(outVal[outValLen..])
  {
    hide UInt256Of, U256.Value, Holds;
    var value := new U256();
    err := RlpReadUInt256(memory, item, value);
    if err != Ok {
      return;
    }
    SmallExactlyWhen(value);
    if value.upper.upper != 0 || value.upper.lower != 0 || value.lower.upper != 0 {
      return UnexpectedError;
    }
    var time := value.lower.lower;
    var text := platform.printTime(time, outValLen);
    if text.None? {
      return UnexpectedError;
    }
    Snprintf(outVal, outValLen, text.value);
    err := Ok;
  }

  lemma SmallExactlyWhen(n: U256)
    ensures n.Value() < W64 <==> n.upper.upper == 0 && n.upper.lower == 0 && n.lower.upper == 0
    ensures n.Value() < W64 ==> n.lower.lower == n.Value()
  {
  }

  method PrintTxType(txType: u8, outVal: array<char>, outValLen: u16) returns (err: ParserError)
    requires outValLen <= outVal.Length
    modifies outVal
    ensures var r := TypeName(txType);
            && err == r.Code()
            && (err == Ok && outValLen > 0 ==> Holds(outVal[..], Truncated(r.value, outValLen)))
    ensures outVal[outValLen..] == old(outVal[outValLen..])
  {
    hide Holds, Truncated;
    if txType == TXTYPE_NORMAL {
      Snprintf(outVal, outValLen, "Normal");
    } else if txType == TXTYPE_SCHEDULED {
      Snprintf(outVal, outValLen, "Scheduled");
    } else if txType == TXTYPE_REVERT {
      Snprintf(outVal, outValLen, "Revert");
    } else if txType == TXTYPE_AUTHORIZED {
      Snprintf(outVal, outValLen, "Authorize");
    } else if txType == TXTYPE_CANCEL_AUTH {
      Snprintf(outVal, outValLen, "Cancel Auth");
    } else if txType == TXTYPE_CREATE_CURR {
      Snprintf(outVal, outValLen, "Create curr");
    } else {
      return UnexpectedType;
    }
    err := Ok;
  }

  /** printExtraFields: field 0, 1 or 2 of recipient extraToIdx. */
  method PrintExtraField(platform: Platform, memory: seq<u8>, ghost tx: TxView, recipient: Item,
                         extraToIdx: nat, fieldIdx: nat, outVal: array<char>, outValLen: u16, pageIdx: u8)
    returns (err: ParserError, pageCount: u8)
    requires Displayable(memory, tx) && extraToIdx < |tx.recipients| && fieldIdx < EXTRA_TO_FIELDS
    requires recipient == tx.recipients[extraToIdx]
    requires RoomFor(outVal, outValLen)
    modifies outVal
    ensures Shows(ExtraRow(platform, memory, tx, extraToIdx, fieldIdx, outValLen, pageIdx),
                  err, outValLen, outVal[..], pageCount)
    ensures TailKept(outVal, outValLen)
  {
    ghost var items := RecipientItems(memory, tx, extraToIdx);
    RecipientList(memory, tx, extraToIdx);
    hide Displayable, RecipientItems, ReadExactly, Inside, Held, Holds, Decimal, TextBytes, Truncated;
    pageCount := 1;
    var tmpList := new Item[EXTRA_TO_FIELDS](i => NO_ITEM);
    var readErr, tmpItems := ReadFull(memory, recipient, tmpList, EXTRA_TO_FIELDS);
    assert tmpList[..] == items;
    var item := tmpList[fieldIdx];
    HeldItem(items, fieldIdx, |memory|);
    if fieldIdx == 1 {
      err := ShowDecimal(memory, item, outVal, outValLen);
      if err != Ok {
        return;
      }
    } else {
      pageCount := ShowText(platform.pageText(TextBytes(memory, item), outValLen, pageIdx), outVal, outValLen);
      err := Ok;
    }
    if item.rlpLen == 0 {
      pageCount := 1;
      Snprintf(outVal, outValLen, "Empty");
    }
  }

  lemma HeldItem(items: seq<Item>, i: nat, size: nat)
    requires i < |items| && Held(items, size)
    ensures Inside(items[i], size)
  {
  }

  lemma RecipientList(memory: seq<u8>, tx: TxView, k: nat)
    requires Displayable(memory, tx) && k < |tx.recipients|
    ensures var item := tx.recipients[k];
            && item.kind == List && Inside(item, |memory|)
            && ReadExactly(memory, item, EXTRA_TO_FIELDS) == Success(RecipientItems(memory, tx, k))
  {
    assert tx.recipients[k] in tx.recipients;
  }

  /** The rows behind the names of parser_getItem: 0 to 11. */
  method ShowFixedRow(platform: Platform, memory: seq<u8>, v: Transaction, idx: u8,
                      outVal: array<char>, outValLen: u16, pageIdx: u8)
    returns (err: ParserError, pageCount: u8)
    requires v.Layout() && v.extraToFieldsItems <= EXTRA_TO_MAX && Displayable(memory, v.View())
    requires idx < DISPLAY_COUNT && RoomFor(outVal, outValLen)
    modifies outVal
    ensures Shows(FixedRow(platform, memory, old(v.View()), idx, outValLen, pageIdx),
                  err, outValLen, outVal[..], pageCount)
    ensures TailKept(outVal, outValLen)
  {
    ItemsInside(memory, v.View());
    hide Displayable, Inside, Holds, Decimal, TextBytes, Truncated, DataRow, ChainRow, TimeRow, TypeName;
    pageCount := 1;
    match idx {
      case 0 | 1 | 2 | 4 | 7 =>
        err := ShowDecimal(memory, v.fields[idx], outVal, outValLen);
      case 3 =>
        pageCount := ShowText(platform.pageText(TextBytes(memory, v.fields[3]), outValLen, pageIdx), outVal, outValLen);
        err := Ok;
      case 5 =>
        err, pageCount := PrintDataField(platform, memory, v.fields[5], v.extraTxType, outVal, outValLen, pageIdx);
      case 6 =>
        err := PrintChain(memory, v.fields[6], outVal, outValLen);
      case 8 =>
        err := ShowDecimal(memory, v.fields[idx + 2], outVal, outValLen);
      case 9 =>
        err := PrintCommitTime(platform, memory, v.fields[idx + 2], outVal, outValLen);
      case 10 =>
        err := PrintTxType(v.extraTxType, outVal, outValLen);
      case _ =>
        err := ShowDecimal(memory, v.extraFields[1], outVal, outValLen);
    }
  }

  /** parser_getNumItems. */
  method GetNumItems(v: Transaction) returns (numItems: u8)
    requires v.extraToFieldsItems <= EXTRA_TO_MAX
    ensures numItems as int == DISPLAY_COUNT + 3 * v.extraToFieldsItems
  {
    numItems := (DISPLAY_COUNT + v.extraToFieldsItems * 3) % 0x100;
  }

  /** parser_getItem: one page of one row. */
  method GetItem(platform: Platform, memory: seq<u8>, v: Transaction, displayIdx: u8,
                 outKey: array<char>, outKeyLen: u16, outVal: array<char>, outValLen: u16, pageIdx: u8)
    returns (err: ParserError, pageCount: u8)
    requires v.Layout() && v.extraToFieldsItems <= EXTRA_TO_MAX && Displayable(memory, v.View())
    requires outKey != outVal && outKeyLen <= outKey.Length && RoomFor(outVal, outValLen)
    modifies outKey, outVal
    ensures var r := Row(platform, memory, old(v.View()), displayIdx, outValLen, pageIdx);
            && err == r.Code()
            && (err == Ok ==>
                  && (outKeyLen > 0 ==> Holds(outKey[..], Truncated(r.value.key, outKeyLen)))
                  && (outValLen > 0 ==> Holds(outVal[..], r.value.value))
                  && pageCount == r.value.pageCount)
    ensures outKey[outKeyLen..] == old(outKey[outKeyLen..]) && TailKept(outVal, outValLen)
  {
    hide Displayable, Holds, Truncated, FixedRow, ExtraRow, ExtraKey, KeyOf;
    ghost var tx := v.View();
    pageCount := 1;
    var numItems := GetNumItems(v);
    if displayIdx >= numItems {
      return DisplayIdxOutOfRange, pageCount;
    }
    CleanOutput(outKey, outKeyLen, outVal, outValLen);
    if displayIdx < DISPLAY_COUNT {
      Snprintf(outKey, outKeyLen, KeyOf(displayIdx));
      err, pageCount := ShowFixedRow(platform, memory, v, displayIdx, outVal, outValLen, pageIdx);
    } else {
      var extraToIdx := (displayIdx - DISPLAY_COUNT) / 3;
      var fieldIdx := (displayIdx - DISPLAY_COUNT) % 3;
      Snprintf(outKey, outKeyLen, ExtraKey(extraToIdx, fieldIdx));
      err, pageCount := PrintExtraField(platform, memory, tx, v.extraToListFields[extraToIdx],
                                        extraToIdx, fieldIdx, outVal, outValLen, pageIdx);
    }
  }

  // ---------- Parsing and validation ----------

  /** parser_parse: an empty buffer, as counted by 16 bits, is refused. */
  method Parse(data: seq<u8>, v: Transaction) returns (err: ParserError)
    requires v.Layout()
    modifies v, v.root, v.fields, v.extraFields, v.extraToListFields
    ensures err == ParseOutcome(data).Code()
    ensures err == Ok ==>
              && v.extraToFieldsItems <= EXTRA_TO_MAX
              && v.rootFieldsItems == ROOT_FIELDS && v.extraFieldsItems == EXTRA_FIELDS
              && v.View() == ParseOutcome(data).value
  {
    hide ReadTx, Transaction.View;
    var bufferSize: u16 := |data| % 0x1_0000;
    if bufferSize == 0 {
      return InitContextEmpty;
    }
    v.Clear();
    var ctx := new Context(data, 0, bufferSize);
    assert |ctx.Rest()| == bufferSize;
    err := Read(ctx, v);
  }

  function ParseOutcome(data: seq<u8>): Result<TxView>
  {
    if |data| % 0x1_0000 == 0 then Failure(InitContextEmpty) else ReadTx(data, 0, |data| % 0x1_0000)
  }

  /** parser_validate: shows the first page of every row once, in buffers of 40 characters. */
  method Validate(platform: Platform, memory: seq<u8>, v: Transaction) returns (err: ParserError)
    requires v.Layout() && v.extraToFieldsItems <= EXTRA_TO_MAX && Displayable(memory, v.View())
    ensures err == Ok <==> AllRowsShow(platform, memory, v.View())
    ensures err != Ok ==>
              exists idx: nat :: idx < RowCount(v.View()) && FirstFailure(platform, memory, v.View(), idx, err)
  {
    hide Displayable, Row, Holds, Truncated;
    ghost var tx := v.View();
    var numItems := GetNumItems(v);
    var tmpKey := new char[40];
    var tmpVal := new char[40];
    var idx: u8 := 0;
    while idx < numItems
      invariant idx <= numItems
      invariant v.View() == tx
      invariant forall i :: 0 <= i < idx ==> Row(platform, memory, tx, i, 40, 0).Success?
      decreases numItems - idx
    {
      var pageCount;
      err, pageCount := GetItem(platform, memory, v, idx, tmpKey, 40, tmpVal, 40, 0);
      if err != Ok {
        assert FirstFailure(platform, memory, tx, idx, err);
        return;
      }
      idx := idx + 1;
    }
    err := Ok;
  }

  /** Row idx is the first that cannot be shown, and err says why. */
  ghost predicate FirstFailure(platform: Platform, memory: seq<u8>, tx: TxView, idx: nat, err: ParserError)
    requires Displayable(memory, tx)
  {
    && Row(platform, memory, tx, idx, 40, 0).Code() == err != Ok
    && forall i :: 0 <= i < idx ==> Row(platform, memory, tx, i, 40, 0).Success?
  }

  /** The memory a parsed transaction points into: the part that 16 bits can count. */
  lemma ParsedIsDisplayable(data: seq<u8>)
    ensures ParseOutcome(data).Success? ==> Displayable(data, ParseOutcome(data).value)
  {
    hide ReadTx, Displayable;
    ReadIsDisplayable(data, 0, |data| % 0x1_0000);
  }

  /** After a successful parse and a successful validation, every display call succeeds: every
      row, every page, every value buffer of at least 40 characters. */
  lemma ValidatedRowsShow(platform: Platform, data: seq<u8>, idx: nat, outLen: nat, page: u8)
    requires Stable(platform) && outLen >= 40
    ensures ParseOutcome(data).Success? ==> Displayable(data, ParseOutcome(data).value)
    ensures ParseOutcome(data).Success? && AllRowsShow(platform, data, ParseOutcome(data).value)
            && idx < RowCount(ParseOutcome(data).value) ==>
              Row(platform, data, ParseOutcome(data).value, idx, outLen, page).Success?
  {
    hide Displayable, Row, Stable, ParseOutcome;
    ParsedIsDisplayable(data);
    if ParseOutcome(data).Success? && AllRowsShow(platform, data, ParseOutcome(data).value)
       && idx < RowCount(ParseOutcome(data).value) {
      RowStaysShown(platform, data, ParseOutcome(data).value, idx, outLen, page);
    }
  }

  /** The fuzz target: parse, validate, then show every page of every row. The assertion is
      its own. */
  method FuzzOneInput(platform: Platform, data: seq<u8>, v: Transaction) returns (accepted: bool)
    requires Stable(platform) && v.Layout()
    modifies v, v.root, v.fields, v.extraFields, v.extraToListFields
    ensures accepted ==> ParseOutcome(data).Success?
    ensures ParseOutcome(data).Success? ==>
              && Displayable(data, ParseOutcome(data).value)
              && (accepted <==> Acceptable(platform, data, ParseOutcome(data).value))
  {
    hide Displayable, Row, Holds, Truncated, Stable, ParseOutcome, AllRowsShow, Acceptable, Transaction.View;
    var rc := Parse(data, v);
    if rc != Ok {
      return false;
    }
    ghost var tx := v.View();
    ParsedIsDisplayable(data);
    AcceptedExactlyWhen(platform, data, tx);
    rc := Validate(platform, data, v);
    if rc != Ok {
      return false;
    }
    var numItems := GetNumItems(v);
    RowCountIs(tx, v);
    var key := new char[16384];
    var value := new char[16384];
    var i: u8 := 0;
    while i < numItems
      invariant i <= numItems && v.extraToFieldsItems <= EXTRA_TO_MAX && v.View() == tx
      decreases numItems - i
    {
      var pageIdx: u8 := 0;
      var pageCount: u8 := 1;
      while pageIdx < pageCount
        invariant v.extraToFieldsItems <= EXTRA_TO_MAX && v.View() == tx
        decreases 255 - pageIdx
      {
        rc, pageCount := GetItem(platform, data, v, i, key, 16384, value, 16384, pageIdx);
        ValidatedRowsShow(platform, data, i, 16384, pageIdx);
        assert rc == Ok;
        pageIdx := pageIdx + 1;
      }
      i := i + 1;
    }
    return true;
  }

  lemma RowCountIs(tx: TxView, v: Transaction)
    requires v.Layout() && v.extraToFieldsItems <= EXTRA_TO_MAX && tx == v.View()
    ensures RowCount(tx) == DISPLAY_COUNT + 3 * v.extraToFieldsItems
  {
  }
}
