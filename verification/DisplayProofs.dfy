/** What validation promises about the display, and what the displayed texts mean. */
module DisplayProofs {
  import opened Words
  import opened ParserCommon
  import opened RlpFormat
  import opened Tx
  import opened Display
  import BigEndian
  import Radix

  /** Every row can be shown on its first page in a buffer of 40 characters: what
      parser_validate checks. */
  ghost predicate AllRowsShow(platform: Platform, memory: seq<u8>, tx: TxView)
    requires Displayable(memory, tx)
  {
    forall idx :: 0 <= idx < RowCount(tx) ==> Row(platform, memory, tx, idx, 40, 0).Success?
  }

  // ---------- Validation once is enough ----------

  lemma FixedRowStaysShown(platform: Platform, memory: seq<u8>, tx: TxView, idx: nat, outLen: nat, page: u8)
    requires Stable(platform) && Displayable(memory, tx) && idx < DISPLAY_COUNT && outLen >= 40
    requires FixedRow(platform, memory, tx, idx, 40, 0).Success?
    ensures FixedRow(platform, memory, tx, idx, outLen, page).Success?
  {
  }

  lemma ExtraRowStaysShown(platform: Platform, memory: seq<u8>, tx: TxView, k: nat, field: nat, outLen: nat, page: u8)
    requires Displayable(memory, tx) && k < |tx.recipients| && field < EXTRA_TO_FIELDS && outLen >= 40
    requires ExtraRow(platform, memory, tx, k, field, 40, 0).Success?
    ensures ExtraRow(platform, memory, tx, k, field, outLen, page).Success?
  {
  }

  /** A row that validation could show can be shown on every page and in every larger buffer. */
  lemma RowStaysShown(platform: Platform, memory: seq<u8>, tx: TxView, idx: nat, outLen: nat, page: u8)
    requires Stable(platform) && Displayable(memory, tx) && outLen >= 40
    requires Row(platform, memory, tx, idx, 40, 0).Success?
    ensures Row(platform, memory, tx, idx, outLen, page).Success?
  {
    hide Displayable, FixedRow, ExtraRow, Stable;
    if idx < DISPLAY_COUNT {
      FixedRowStaysShown(platform, memory, tx, idx, outLen, page);
    } else {
      ExtraRowStaysShown(platform, memory, tx, (idx - DISPLAY_COUNT) / 3, (idx - DISPLAY_COUNT) % 3, outLen, page);
    }
  }

  // ---------- Exactly which transactions are accepted ----------

  /** The number of an item has at most 39 decimal digits. */
  ghost predicate Printable(memory: seq<u8>, item: Item)
    requires Inside(item, |memory|)
  {
    UInt256Of(memory, item).Success? && UInt256Of(memory, item).value < Radix.Power(10, 39)
  }

  lemma PrintableExactlyWhen(memory: seq<u8>, item: Item)
    requires Inside(item, |memory|)
    ensures Decimal(memory, item, 40).Success? <==> Printable(memory, item)
  {
    if UInt256Of(memory, item).Success? {
      Radix.NumeralLength(UInt256Of(memory, item).value, 10, 39);
    }
  }

  predicate ShownType(txType: u8)
  {
    txType == 0 || txType == 3 || txType == 4 || txType == 5 || txType == 6 || txType == 9
  }

  ghost predicate FixedRowAcceptable(platform: Platform, memory: seq<u8>, tx: TxView, idx: nat)
    requires Displayable(memory, tx) && idx < DISPLAY_COUNT
  {
    ItemsInside(memory, tx);
    if NumberItem(tx, idx).Some? then Printable(memory, NumberItem(tx, idx).value)
    else if idx == 6 then tx.fields[6].kind == Byte
    else if idx == 9 then
      && UInt256Of(memory, tx.fields[11]).Success?
      && UInt256Of(memory, tx.fields[11]).value < W64
      && platform.printTime(UInt256Of(memory, tx.fields[11]).value, 40).Some?
    else idx == 3 || ShownType(tx.extraTxType)
  }

  /** The conditions on the fields: every number has at most 39 digits, the chain identifier
      is a single byte, the commit time fits in 64 bits and can be printed, the type is one of
      six, and every recipient's amount has at most 39 digits. */
  ghost predicate Acceptable(platform: Platform, memory: seq<u8>, tx: TxView)
    requires Displayable(memory, tx)
  {
    ItemsInside(memory, tx);
    && Printable(memory, tx.fields[0]) && Printable(memory, tx.fields[1]) && Printable(memory, tx.fields[2])
    && Printable(memory, tx.fields[4]) && Printable(memory, tx.fields[7]) && Printable(memory, tx.fields[10])
    && Printable(memory, tx.extraFields[1])
    && tx.fields[6].kind == Byte
    && UInt256Of(memory, tx.fields[11]).Success?
    && UInt256Of(memory, tx.fields[11]).value < W64
    && platform.printTime(UInt256Of(memory, tx.fields[11]).value, 40).Some?
    && ShownType(tx.extraTxType)
    && forall k :: 0 <= k < |tx.recipients| ==> AmountPrintable(memory, tx, k)
  }

  ghost predicate AmountPrintable(memory: seq<u8>, tx: TxView, k: nat)
    requires Displayable(memory, tx) && k < |tx.recipients|
  {
    var items := RecipientItems(memory, tx, k);
    assert items[1] in items;
    Printable(memory, items[1])
  }

  lemma FixedRowExactlyWhen(platform: Platform, memory: seq<u8>, tx: TxView, idx: nat)
    requires Displayable(memory, tx) && idx < DISPLAY_COUNT
    ensures FixedRow(platform, memory, tx, idx, 40, 0).Success? <==> FixedRowAcceptable(platform, memory, tx, idx)
  {
    hide UInt256Of, Displayable, Decimal, Printable;
    ItemsInside(memory, tx);
    if NumberItem(tx, idx).Some? {
      PrintableExactlyWhen(memory, NumberItem(tx, idx).value);
    }
  }

  lemma ExtraRowExactlyWhen(platform: Platform, memory: seq<u8>, tx: TxView, k: nat, field: nat)
    requires Displayable(memory, tx) && k < |tx.recipients| && field < EXTRA_TO_FIELDS
    ensures ExtraRow(platform, memory, tx, k, field, 40, 0).Success?
            <==> (field == 1 ==> AmountPrintable(memory, tx, k))
  {
    hide UInt256Of, Displayable, Decimal, Printable, RecipientItems;
    var items := RecipientItems(memory, tx, k);
    assert items[1] in items;
    PrintableExactlyWhen(memory, items[1]);
  }

  lemma RowExactlyWhen(platform: Platform, memory: seq<u8>, tx: TxView, idx: nat)
    requires Displayable(memory, tx) && idx < RowCount(tx)
    ensures idx < DISPLAY_COUNT ==>
              (Row(platform, memory, tx, idx, 40, 0).Success? <==> FixedRowAcceptable(platform, memory, tx, idx))
    ensures idx >= DISPLAY_COUNT ==>
              (Row(platform, memory, tx, idx, 40, 0).Success?
               <==> ((idx - DISPLAY_COUNT) % 3 == 1 ==> AmountPrintable(memory, tx, (idx - DISPLAY_COUNT) / 3)))
  {
    hide Displayable, FixedRow, ExtraRow, FixedRowAcceptable, AmountPrintable;
    if idx < DISPLAY_COUNT {
      FixedRowExactlyWhen(platform, memory, tx, idx);
    } else {
      ExtraRowExactlyWhen(platform, memory, tx, (idx - DISPLAY_COUNT) / 3, (idx - DISPLAY_COUNT) % 3);
    }
  }

  lemma FixedRowsMeanAcceptable(platform: Platform, memory: seq<u8>, tx: TxView)
    requires Displayable(memory, tx)
    ensures (forall idx :: 0 <= idx < DISPLAY_COUNT ==> FixedRowAcceptable(platform, memory, tx, idx))
            && (forall k :: 0 <= k < |tx.recipients| ==> AmountPrintable(memory, tx, k))
            <==> Acceptable(platform, memory, tx)
  {
    hide UInt256Of, Displayable, Printable, AmountPrintable, ShownType;
    ItemsInside(memory, tx);
    if forall idx :: 0 <= idx < DISPLAY_COUNT ==> FixedRowAcceptable(platform, memory, tx, idx) {
      assert FixedRowAcceptable(platform, memory, tx, 0) && FixedRowAcceptable(platform, memory, tx, 1);
      assert FixedRowAcceptable(platform, memory, tx, 2) && FixedRowAcceptable(platform, memory, tx, 4);
      assert FixedRowAcceptable(platform, memory, tx, 6) && FixedRowAcceptable(platform, memory, tx, 7);
      assert FixedRowAcceptable(platform, memory, tx, 8) && FixedRowAcceptable(platform, memory, tx, 9);
      assert FixedRowAcceptable(platform, memory, tx, 10) && FixedRowAcceptable(platform, memory, tx, 11);
    }
  }

  /** Validation succeeds exactly for the acceptable transactions. */
  lemma AcceptedExactlyWhen(platform: Platform, memory: seq<u8>, tx: TxView)
    requires Displayable(memory, tx)
    ensures AllRowsShow(platform, memory, tx) <==> Acceptable(platform, memory, tx)
  {
    hide Displayable, Acceptable, FixedRowAcceptable, AmountPrintable, Row;
    FixedRowsMeanAcceptable(platform, memory, tx);
    forall idx | 0 <= idx < RowCount(tx)
      ensures idx < DISPLAY_COUNT ==>
                (Row(platform, memory, tx, idx, 40, 0).Success? <==> FixedRowAcceptable(platform, memory, tx, idx))
      ensures idx >= DISPLAY_COUNT ==>
                (Row(platform, memory, tx, idx, 40, 0).Success?
                 <==> ((idx - DISPLAY_COUNT) % 3 == 1 ==> AmountPrintable(memory, tx, (idx - DISPLAY_COUNT) / 3)))
    {
      RowExactlyWhen(platform, memory, tx, idx);
    }
    if AllRowsShow(platform, memory, tx) {
      forall k | 0 <= k < |tx.recipients|
        ensures AmountPrintable(memory, tx, k)
      {
        var idx := DISPLAY_COUNT + 3 * k + 1;
        assert Row(platform, memory, tx, idx, 40, 0).Success?;
        assert (idx - DISPLAY_COUNT) / 3 == k && (idx - DISPLAY_COUNT) % 3 == 1;
      }
      forall idx | 0 <= idx < DISPLAY_COUNT
        ensures FixedRowAcceptable(platform, memory, tx, idx)
      {
        assert Row(platform, memory, tx, idx, 40, 0).Success?;
      }
    }
  }

  // ---------- What the texts mean ----------

  /** A number row shows the canonical decimal numeral of the big-endian value of its item. */
  lemma NumberRowText(platform: Platform, memory: seq<u8>, tx: TxView, idx: nat, outLen: nat, page: u8)
    requires Displayable(memory, tx) && idx < DISPLAY_COUNT && NumberItem(tx, idx).Some?
    requires Row(platform, memory, tx, idx, outLen, page).Success?
    ensures Inside(NumberItem(tx, idx).value, |memory|)
    ensures var text := Row(platform, memory, tx, idx, outLen, page).value.value;
            && Radix.Canonical(text, 10)
            && Radix.Read(text, 10) == BigEndian.Value(Content(memory, NumberItem(tx, idx).value))
            && |Content(memory, NumberItem(tx, idx).value)| <= 32
  {
    ItemsInside(memory, tx);
    var item := NumberItem(tx, idx).value;
    NumberIsContent(memory, item);
    hide UInt256Of, Displayable, Radix.Canonical, Radix.Read, Radix.Numeral, Content, BigEndian.Value;
    Radix.NumeralReads(UInt256Of(memory, item).value, 10);
  }

  lemma NumberIsContent(memory: seq<u8>, item: Item)
    requires Inside(item, |memory|)
    ensures UInt256Of(memory, item).Success? ==>
              && UInt256Of(memory, item).value == BigEndian.Value(Content(memory, item))
              && |Content(memory, item)| <= 32
  {
  }

  /** Two number rows, of the same or of different transactions, show the same text exactly
      when their items denote the same number. */
  lemma SameTextSameNumber(platform: Platform,
                           memory: seq<u8>, tx: TxView, idx: nat, outLen: nat, page: u8,
                           memory': seq<u8>, tx': TxView, idx': nat, outLen': nat, page': u8)
    requires Displayable(memory, tx) && idx < DISPLAY_COUNT && NumberItem(tx, idx).Some?
    requires Displayable(memory', tx') && idx' < DISPLAY_COUNT && NumberItem(tx', idx').Some?
    requires Row(platform, memory, tx, idx, outLen, page).Success?
    requires Row(platform, memory', tx', idx', outLen', page').Success?
    ensures Inside(NumberItem(tx, idx).value, |memory|) && Inside(NumberItem(tx', idx').value, |memory'|)
    ensures Row(platform, memory, tx, idx, outLen, page).value.value
            == Row(platform, memory', tx', idx', outLen', page').value.value
            <==> BigEndian.Value(Content(memory, NumberItem(tx, idx).value))
                 == BigEndian.Value(Content(memory', NumberItem(tx', idx').value))
  {
    var text := Row(platform, memory, tx, idx, outLen, page).value.value;
    var text' := Row(platform, memory', tx', idx', outLen', page').value.value;
    NumberRowText(platform, memory, tx, idx, outLen, page);
    NumberRowText(platform, memory', tx', idx', outLen', page');
    hide Row, Displayable, Content, BigEndian.Value, Radix.Canonical, Radix.Read, Radix.Numeral;
    Radix.ReadPrints(text, 10);
    Radix.ReadPrints(text', 10);
  }

  lemma EmptyIsNoNumeral(n: nat)
    ensures Radix.Numeral(n, 10) != "Empty"
  {
    Radix.NumeralReads(n, 10);
    assert !Radix.IsDigit("Empty"[0], 10);
  }

  /** The amount of a recipient is shown as its decimal numeral exactly when its item has a
      length; a single-byte amount, which records none, is shown as "Empty". */
  lemma AmountShownExactlyWhen(platform: Platform, memory: seq<u8>, tx: TxView, k: nat, outLen: nat, page: u8)
    requires Displayable(memory, tx) && k < |tx.recipients| && outLen >= 6
    requires ExtraRow(platform, memory, tx, k, 1, outLen, page).Success?
    ensures var items := RecipientItems(memory, tx, k);
            && Inside(items[1], |memory|) && UInt256Of(memory, items[1]).Success?
            && (ExtraRow(platform, memory, tx, k, 1, outLen, page).value.0
                == Radix.Numeral(UInt256Of(memory, items[1]).value, 10)
                <==> items[1].rlpLen > 0)
  {
    hide UInt256Of, Displayable, RecipientItems;
    var items := RecipientItems(memory, tx, k);
    assert items[1] in items;
    EmptyIsNoNumeral(UInt256Of(memory, items[1]).value);
  }
}
