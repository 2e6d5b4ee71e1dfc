/** Every row of every message, told from the tree the message encodes: its name, its text and
    its pages, or the error the display call returns. */
module MessageRows {
  import opened Words
  import opened ParserCommon
  import opened RlpFormat
  import opened RlpTree
  import opened Tx
  import opened TxTree
  import opened Display
  import opened DisplayProofs
  import opened DisplayTree
  import opened Parser
  import BigEndian
  import Radix

  /** What a display call shows after the encoding of a transaction has been parsed. */
  ghost function RowOf(platform: Platform, t: Tree, e: seq<u8>, idx: nat, outLen: nat, page: u8): Result<Shown>
    requires IsTransaction(t) && Encode(t) == Some(e) && |e| < 0x1_0000
  {
    MessageAcceptedExactlyWhen(platform, t, e);
    Row(platform, e, ParseOutcome(e).value, idx, outLen, page)
  }

  // ---------- Texts of trees ----------

  /** A number in decimal: refused for a list, for more than 32 bytes, and when the numeral and
      its terminator do not fit. */
  ghost function NumberText(t: Tree, outLen: nat): Result<string>
  {
    match t
    case Lst(_) => Failure(UnexpectedType)
    case Str(bytes) =>
      if |bytes| > 32 then Failure(ValueOutOfRange)
      else if 2 <= outLen <= |Radix.Numeral(BigEndian.Value(bytes), 10)| then Failure(UnexpectedError)
      else Success(Radix.Numeral(BigEndian.Value(bytes), 10))
  }

  ghost function NumberShown(key: string, t: Tree, outLen: nat): Result<Shown>
  {
    var text :- NumberText(t, outLen);
    Success(Shown(key, text, 1))
  }

  /** The bytes behind the header of an encoding: none for a single byte below 0x80, which has
      no header; for a list the encodings of its members. */
  ghost function PagedBytes(t: Tree): seq<u8>
  {
    match t
    case Lst(items) => if EncodeAll(items).Some? then EncodeAll(items).value else []
    case Str(bytes) => if |bytes| == 1 && bytes[0] < 0x80 then [] else bytes
  }

  ghost function PageShown(key: string, page: Page, outLen: nat): Shown
  {
    Shown(key, Truncated(page.text, outLen), page.pageCount)
  }

  ghost function EmptyShown(key: string, outLen: nat): Shown
  {
    Shown(key, Truncated("Empty", outLen), 1)
  }

  /** A page of text, or "Empty". */
  ghost function TextShown(platform: Platform, key: string, t: Tree, outLen: nat, page: u8): Shown
  {
    if PagedBytes(t) == [] then EmptyShown(key, outLen)
    else PageShown(key, platform.pageText(PagedBytes(t), outLen, page), outLen)
  }

  // ---------- Items against trees ----------

  lemma DecimalWritten(memory: seq<u8>, item: Item, t: Tree, outLen: nat)
    requires Written(memory, item, t)
    ensures Inside(item, |memory|) && Decimal(memory, item, outLen) == NumberText(t, outLen)
  {
    hide Written, BigEndian.Value, UInt256Of, Inside, Radix.Numeral;
    NumberError(memory, item, t);
  }

  lemma BytesWritten(memory: seq<u8>, item: Item, t: Tree)
    requires Written(memory, item, t)
    ensures Inside(item, |memory|) && TextBytes(memory, item) == PagedBytes(t)
    ensures item.rlpLen == 0 <==> PagedBytes(t) == []
  {
    hide Written, Encode, EncodeAll;
    match t
    case Str(bytes) =>
      WrittenString(memory, item, bytes);
      assert SingleByte(t) ==> PagedBytes(t) == [];
    case Lst(items) =>
      WrittenList(memory, item, items);
      StandsThere(memory, item.ptr, EncodeAll(items).value);
  }

  lemma ByteValue(memory: seq<u8>, item: Item, t: Tree)
    requires Written(memory, item, t)
    ensures Inside(item, |memory|) && (item.kind == Byte <==> SingleByte(t))
    ensures item.kind == Byte ==> item.rlpLen == 0 && memory[item.ptr] == t.bytes[0]
  {
    hide Written;
    WrittenKind(memory, item, t);
    ByteWritten(memory, item, t);
    if t.Str? {
      WrittenString(memory, item, t.bytes);
    }
  }

  // ---------- Numbers ----------

  lemma NumberRowIs(platform: Platform, memory: seq<u8>, tx: TxView, idx: nat, item: Item, t: Tree,
                    outLen: nat, page: u8)
    requires Displayable(memory, tx) && idx < 12
    requires NumberItem(tx, idx) == Some(item) && Written(memory, item, t)
    ensures Row(platform, memory, tx, idx, outLen, page) == NumberShown(KeyOf(idx), t, outLen)
  {
    hide Displayable, Written, Decimal, NumberText, KeyOf;
    ItemsInside(memory, tx);
    DecimalWritten(memory, item, t, outLen);
  }

  /** The number rows: which item of the transaction each of them shows, and under which name. */
  lemma NumberRows(platform: Platform, t: Tree, e: seq<u8>, outLen: nat, page: u8)
    requires IsTransaction(t) && Encode(t) == Some(e) && |e| < 0x1_0000
    ensures RowOf(platform, t, e, 0, outLen, page) == NumberShown("Nonce", t.items[0], outLen)
    ensures RowOf(platform, t, e, 1, outLen, page) == NumberShown("Gas Price", t.items[1], outLen)
    ensures RowOf(platform, t, e, 2, outLen, page) == NumberShown("Gas Limit", t.items[2], outLen)
    ensures RowOf(platform, t, e, 4, outLen, page) == NumberShown("Value", t.items[4], outLen)
    ensures RowOf(platform, t, e, 7, outLen, page) == NumberShown("EnterType", t.items[7], outLen)
    ensures RowOf(platform, t, e, 8, outLen, page) == NumberShown("IsEntrustTx", t.items[10], outLen)
    ensures RowOf(platform, t, e, 11, outLen, page) == NumberShown("Lock Height", t.items[12].items[0].items[1], outLen)
  {
    hide Stores, Displayable, Written, Row, NumberShown, Encode, ParseOutcome, AllRowsShow, IsShowable, IsType,
         AreRecipients, Recipients;
    MessageAcceptedExactlyWhen(platform, t, e);
    var tx := ParseOutcome(e).value;
    ItemsInside(e, tx);
    forall i: nat | i < 13 ensures |t.items| >= 13 && Written(e, tx.fields[i], t.items[i]) {
      StoredField(e, tx, t, i);
    }
    StoredExtra(e, tx, t, 1);
    NumberRowIs(platform, e, tx, 0, tx.fields[0], t.items[0], outLen, page);
    NumberRowIs(platform, e, tx, 1, tx.fields[1], t.items[1], outLen, page);
    NumberRowIs(platform, e, tx, 2, tx.fields[2], t.items[2], outLen, page);
    NumberRowIs(platform, e, tx, 4, tx.fields[4], t.items[4], outLen, page);
    NumberRowIs(platform, e, tx, 7, tx.fields[7], t.items[7], outLen, page);
    NumberRowIs(platform, e, tx, 8, tx.fields[10], t.items[10], outLen, page);
    NumberRowIs(platform, e, tx, 11, tx.extraFields[1], ExtraOf(t).items[1], outLen, page);
  }

  // ---------- The other fixed rows ----------

  /** The recipient of the transaction itself: never "Empty". */
  lemma ToRow(platform: Platform, t: Tree, e: seq<u8>, outLen: nat, page: u8)
    requires IsTransaction(t) && Encode(t) == Some(e) && |e| < 0x1_0000
    ensures RowOf(platform, t, e, 3, outLen, page)
            == Success(PageShown("To", platform.pageText(PagedBytes(t.items[3]), outLen, page), outLen))
  {
    hide Stores, Displayable, Written, Encode, ParseOutcome, AllRowsShow, IsShowable, TextBytes, Truncated, PagedBytes,
         IsType, AreRecipients, Recipients;
    MessageAcceptedExactlyWhen(platform, t, e);
    var tx := ParseOutcome(e).value;
    ItemsInside(e, tx);
    StoredField(e, tx, t, 3);
    BytesWritten(e, tx.fields[3], t.items[3]);
  }

  /** The data: text for the types 5, 6 and 9, hexadecimal digits for 0, 3 and 4. */
  lemma DataRowIs(platform: Platform, t: Tree, e: seq<u8>, outLen: nat, page: u8)
    requires IsTransaction(t) && Encode(t) == Some(e) && |e| < 0x1_0000
    ensures RowOf(platform, t, e, 5, outLen, page) ==
              var txType := BigEndian.Value(t.items[12].items[0].items[0].bytes) % 0x100;
              var bytes := PagedBytes(t.items[5]);
              if txType !in {0, 3, 4, 5, 6, 9} then Failure(UnexpectedType)
              else if bytes == [] then Success(EmptyShown("Data", outLen))
              else if txType in {5, 6, 9} then
                Success(PageShown("Data", platform.pageText(bytes, outLen, page), outLen))
              else
                Success(PageShown("Data", platform.pageHex(bytes, outLen, page), outLen))
  {
    hide Stores, Displayable, Written, Encode, ParseOutcome, AllRowsShow, IsShowable, TextBytes,
         Truncated, PagedBytes, BigEndian.Value, IsNumber, AreRecipients, Recipients;
    MessageAcceptedExactlyWhen(platform, t, e);
    var tx := ParseOutcome(e).value;
    ItemsInside(e, tx);
    StoredField(e, tx, t, 5);
    RecipientCount(e, tx, t);
    BytesWritten(e, tx.fields[5], t.items[5]);
  }

  /** The chain identifier is shown only if it is a single byte below 0x80. */
  lemma ChainIdRow(platform: Platform, t: Tree, e: seq<u8>, outLen: nat, page: u8)
    requires IsTransaction(t) && Encode(t) == Some(e) && |e| < 0x1_0000
    ensures RowOf(platform, t, e, 6, outLen, page) ==
              match t.items[6]
              case Lst(_) => Failure(UnexpectedValue)
              case Str(bytes) =>
                if |bytes| == 1 && bytes[0] < 0x80 then
                  Success(Shown("ChainID", Truncated(Radix.Numeral(bytes[0], 10), outLen), 1))
                else Failure(UnexpectedValue)
  {
    hide Stores, Displayable, Written, Encode, ParseOutcome, AllRowsShow, IsShowable, Truncated, Radix.Numeral,
         IsType, AreRecipients, Recipients;
    MessageAcceptedExactlyWhen(platform, t, e);
    var tx := ParseOutcome(e).value;
    ItemsInside(e, tx);
    StoredField(e, tx, t, 6);
    ByteValue(e, tx.fields[6], t.items[6]);
  }

  /** The commit time is item 11, below 2^64. */
  lemma CommitTimeRow(platform: Platform, t: Tree, e: seq<u8>, outLen: nat, page: u8)
    requires IsTransaction(t) && Encode(t) == Some(e) && |e| < 0x1_0000
    ensures RowOf(platform, t, e, 9, outLen, page) ==
              match t.items[11]
              case Lst(_) => Failure(UnexpectedType)
              case Str(bytes) =>
                if |bytes| > 32 then Failure(ValueOutOfRange)
                else if BigEndian.Value(bytes) >= 0x1_0000_0000_0000_0000 then Failure(UnexpectedError)
                else
                  match platform.printTime(BigEndian.Value(bytes), outLen)
                  case None => Failure(UnexpectedError)
                  case Some(text) => Success(Shown("CommitTime", Truncated(text, outLen), 1))
  {
    hide Stores, Displayable, Written, Encode, ParseOutcome, AllRowsShow, IsShowable, Truncated, BigEndian.Value,
         UInt256Of, IsType, AreRecipients, Recipients;
    MessageAcceptedExactlyWhen(platform, t, e);
    var tx := ParseOutcome(e).value;
    ItemsInside(e, tx);
    StoredField(e, tx, t, 11);
    NumberError(e, tx.fields[11], t.items[11]);
  }

  /** Six types have a name. */
  lemma TxTypeRow(platform: Platform, t: Tree, e: seq<u8>, outLen: nat, page: u8)
    requires IsTransaction(t) && Encode(t) == Some(e) && |e| < 0x1_0000
    ensures var txType := BigEndian.Value(t.items[12].items[0].items[0].bytes) % 0x100;
            var names := map[0 := "Normal", 3 := "Scheduled", 4 := "Revert", 5 := "Authorize",
                             6 := "Cancel Auth", 9 := "Create curr"];
            RowOf(platform, t, e, 10, outLen, page) ==
              if txType in names then Success(Shown("TxType", Truncated(names[txType], outLen), 1))
              else Failure(UnexpectedType)
  {
    hide Stores, Displayable, Written, Encode, ParseOutcome, AllRowsShow, IsShowable, Truncated,
         BigEndian.Value, IsNumber, AreRecipients, Recipients;
    MessageAcceptedExactlyWhen(platform, t, e);
    RecipientCount(e, ParseOutcome(e).value, t);
    ItemsInside(e, ParseOutcome(e).value);
  }

  // ---------- The rows of the recipients ----------

  /** The list the recipients are taken from; of a string, none are. */
  function ListedRecipients(t: Tree): seq<Tree>
    requires IsTransaction(t)
  {
    if t.items[12].items[0].items[2].Lst? then t.items[12].items[0].items[2].items else []
  }

  lemma RecipientAt(t: Tree, k: nat)
    requires IsTransaction(t) && k < 10
    ensures k < |RecipientsOf(t)| <==> k < |ListedRecipients(t)|
    ensures k < |ListedRecipients(t)| ==>
              RecipientsOf(t)[k] == ListedRecipients(t)[k] && HasItems(ListedRecipients(t)[k], 3)
  {
    hide IsType;
  }

  /** How an amount is shown: not at all if it is empty or a single byte below 0x80. */
  ghost function AmountShown(key: string, t: Tree, outLen: nat): Result<Shown>
  {
    var text :- NumberText(t, outLen);
    Success(if PagedBytes(t) == [] then EmptyShown(key, outLen) else Shown(key, text, 1))
  }

  lemma ExtraRowIs(platform: Platform, memory: seq<u8>, tx: TxView, k: nat, field: nat, t: Tree,
                   outLen: nat, page: u8)
    requires Displayable(memory, tx) && k < |tx.recipients| && field < 3
    requires Written(memory, RecipientItems(memory, tx, k)[field], t)
    ensures Row(platform, memory, tx, 12 + 3 * k + field, outLen, page) ==
              if field == 1 then AmountShown(ExtraKey(k, field), t, outLen)
              else Success(TextShown(platform, ExtraKey(k, field), t, outLen, page))
  {
    hide Displayable, Written, Decimal, NumberText, ExtraKey, FixedRow, RecipientItems, TextBytes, PagedBytes,
         Truncated;
    assert (3 * k + field) / 3 == k && (3 * k + field) % 3 == field;
    var item := RecipientItems(memory, tx, k)[field];
    DecimalWritten(memory, item, t, outLen);
    BytesWritten(memory, item, t);
  }

  /** The three rows of each of the first ten members of the recipient list. */
  lemma RecipientRows(platform: Platform, t: Tree, e: seq<u8>, k: nat, outLen: nat, page: u8)
    requires IsTransaction(t) && Encode(t) == Some(e) && |e| < 0x1_0000
    requires k < |ListedRecipients(t)| && k < 10
    ensures HasItems(ListedRecipients(t)[k], 3)
    ensures var r := ListedRecipients(t)[k];
            && RowOf(platform, t, e, 12 + 3 * k, outLen, page)
               == Success(TextShown(platform, "To [" + Radix.Numeral(k, 10) + "]", r.items[0], outLen, page))
            && RowOf(platform, t, e, 13 + 3 * k, outLen, page)
               == AmountShown("Amount [" + Radix.Numeral(k, 10) + "]", r.items[1], outLen)
            && RowOf(platform, t, e, 14 + 3 * k, outLen, page)
               == Success(TextShown(platform, "Payload [" + Radix.Numeral(k, 10) + "]", r.items[2], outLen, page))
  {
    hide IsTransaction, RecipientsOf, ListedRecipients, Stores, Displayable, Written, Row, AmountShown, TextShown,
         Encode, ParseOutcome, AllRowsShow, IsShowable, Radix.Numeral, RecipientItems;
    MessageAcceptedExactlyWhen(platform, t, e);
    var tx := ParseOutcome(e).value;
    RecipientAt(t, k);
    var r := ListedRecipients(t)[k];
    RecipientItemWritten(e, tx, t, k, 0);
    RecipientItemWritten(e, tx, t, k, 1);
    RecipientItemWritten(e, tx, t, k, 2);
    ExtraRowIs(platform, e, tx, k, 0, r.items[0], outLen, page);
    ExtraRowIs(platform, e, tx, k, 1, r.items[1], outLen, page);
    ExtraRowIs(platform, e, tx, k, 2, r.items[2], outLen, page);
  }

  /** There are twelve rows and three for each recipient, at most ten of which count. */
  lemma RowsEnd(platform: Platform, t: Tree, e: seq<u8>, idx: nat, outLen: nat, page: u8)
    requires IsTransaction(t) && Encode(t) == Some(e) && |e| < 0x1_0000
    ensures RowOf(platform, t, e, idx, outLen, page) == Failure(DisplayIdxOutOfRange)
            <==> idx >= 12 + 3 * (if |ListedRecipients(t)| <= 10 then |ListedRecipients(t)| else 10)
  {
    hide IsType, AreRecipients, Stores, Displayable, Written, Encode, ParseOutcome, AllRowsShow, IsShowable,
         FixedRow, ExtraRow;
    MessageAcceptedExactlyWhen(platform, t, e);
    var tx := ParseOutcome(e).value;
    RecipientCount(e, tx, t);
    if idx < 12 {
      FixedRowInRange(platform, e, tx, idx, outLen, page);
    } else if idx < RowCount(tx) {
      ExtraRowInRange(platform, e, tx, (idx - 12) / 3, (idx - 12) % 3, outLen, page);
    }
  }

  lemma FixedRowInRange(platform: Platform, memory: seq<u8>, tx: TxView, idx: nat, outLen: nat, page: u8)
    requires Displayable(memory, tx) && idx < 12
    ensures FixedRow(platform, memory, tx, idx, outLen, page) != Failure(DisplayIdxOutOfRange)
  {
    hide Displayable, Truncated, Radix.Numeral, BigEndian.Value;
    ItemsInside(memory, tx);
  }

  lemma ExtraRowInRange(platform: Platform, memory: seq<u8>, tx: TxView, k: nat, field: nat, outLen: nat, page: u8)
    requires Displayable(memory, tx) && k < |tx.recipients| && field < 3
    ensures ExtraRow(platform, memory, tx, k, field, outLen, page) != Failure(DisplayIdxOutOfRange)
  {
    hide Displayable, Truncated, Radix.Numeral, BigEndian.Value;
  }

  /** Two number rows, of the same or of different messages, show the same text exactly when the
      numbers are the same. */
  lemma SameNumberShown(key: string, t: Tree, outLen: nat, key': string, t': Tree, outLen': nat)
    ensures NumberShown(key, t, outLen).Success? && NumberShown(key', t', outLen').Success? ==>
              && t.Str? && t'.Str?
              && (NumberShown(key, t, outLen).value.value == NumberShown(key', t', outLen').value.value
                  <==> BigEndian.Value(t.bytes) == BigEndian.Value(t'.bytes))
  {
    hide BigEndian.Value, Radix.Numeral;
    if t.Str? && t'.Str? {
      Radix.NumeralInjective(BigEndian.Value(t.bytes), BigEndian.Value(t'.bytes), 10);
    }
  }
}
