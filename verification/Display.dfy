/** The rows shown for a transaction: what each row says, as a function of the stored items,
    the size of the value buffer and the page. */
module Display {
  import opened Words
  import opened ParserCommon
  import opened RlpFormat
  import opened Tx
  import Radix

  const DISPLAY_COUNT: int := 12

  /** One page of a text too long for the buffer, and how many pages there are. */
  datatype Page = Page(text: string, pageCount: u8)

  /** Library routines that are not part of this model: paging of text, paging of hexadecimal
      digits, and the printed form of a time, if there is one for that buffer size. */
  datatype Platform = Platform(
    pageText: (seq<u8>, nat, u8) -> Page,
    pageHex: (seq<u8>, nat, u8) -> Page,
    printTime: (nat, nat) -> Option<string>)

  /** From 40 characters on, the printed form of a time does not depend on the buffer size. */
  ghost predicate Stable(platform: Platform)
  {
    forall t: nat, n: nat :: n >= 40 ==> platform.printTime(t, n) == platform.printTime(t, 40)
  }

  datatype Shown = Shown(key: string, value: string, pageCount: u8)

  /** What fits in a buffer of n characters together with a terminator. */
  function Truncated(text: string, n: nat): (shown: string)
    ensures shown <= text && (if n == 0 then shown == "" else |shown| < n)
    ensures shown != text ==> |shown| + 1 >= n
  {
    if |text| < n then text else if n == 0 then "" else text[..n - 1]
  }

  /** The items a display call looks at are all there. */
  ghost predicate Displayable(memory: seq<u8>, tx: TxView)
  {
    && |tx.fields| == ROOT_FIELDS && Held(tx.fields, |memory|)
    && |tx.extraFields| == EXTRA_FIELDS && Held(tx.extraFields, |memory|)
    && |tx.recipients| <= EXTRA_TO_MAX
    && forall x :: x in tx.recipients ==> IsRecipient(memory, x)
  }

  lemma ReadIsDisplayable(memory: seq<u8>, base: nat, len: nat)
    requires base + len <= |memory|
    ensures ReadTx(memory, base, len).Success? ==> Displayable(memory, ReadTx(memory, base, len).value)
  {
    hide ReadTx, IsRecipient, UInt256Of, ReadInner, Within, Inside;
    ReadIsNested(memory, base, len);
  }

  // ---------- Kinds of rows ----------

  /** The decimal numeral of an item, if it denotes a number whose numeral fits; in a buffer of
      0 or 1 characters nothing is checked. */
  function Decimal(memory: seq<u8>, item: Item, outLen: nat): (r: Result<string>)
    requires Inside(item, |memory|)
  {
    var n :- UInt256Of(memory, item);
    if outLen < 2 || |Radix.Numeral(n, 10)| + 1 <= outLen then Success(Radix.Numeral(n, 10))
    else Failure(UnexpectedError)
  }

  /** The bytes a text row hands to the paging routine: none for a single-byte item. */
  function TextBytes(memory: seq<u8>, item: Item): seq<u8>
    requires Inside(item, |memory|)
  {
    memory[item.ptr..item.ptr + item.rlpLen]
  }

  function ShowPage(page: Page, outLen: nat): (string, u8)
  {
    (Truncated(page.text, outLen), page.pageCount)
  }

  /** A text row of an item of length 0 says "Empty". */
  function OrEmpty(item: Item, outLen: nat, shown: (string, u8)): (string, u8)
  {
    if item.rlpLen == 0 then (Truncated("Empty", outLen), 1) else shown
  }

  function DataRow(platform: Platform, memory: seq<u8>, item: Item, txType: u8, outLen: nat, page: u8)
    : Result<(string, u8)>
    requires Inside(item, |memory|)
  {
    if txType == TXTYPE_AUTHORIZED || txType == TXTYPE_CREATE_CURR || txType == TXTYPE_CANCEL_AUTH then
      Success(OrEmpty(item, outLen, ShowPage(platform.pageText(TextBytes(memory, item), outLen, page), outLen)))
    else if txType == TXTYPE_NORMAL || txType == TXTYPE_SCHEDULED || txType == TXTYPE_REVERT then
      Success(OrEmpty(item, outLen, ShowPage(platform.pageHex(TextBytes(memory, item), outLen, page), outLen)))
    else Failure(UnexpectedType)
  }

  function ChainRow(memory: seq<u8>, item: Item, outLen: nat): Result<string>
    requires Inside(item, |memory|)
  {
    if item.kind != Byte || item.rlpLen != 0 then Failure(UnexpectedValue)
    else Success(Truncated(Radix.Numeral(memory[item.ptr], 10), outLen))
  }

  function TimeRow(platform: Platform, memory: seq<u8>, item: Item, outLen: nat): Result<string>
    requires Inside(item, |memory|)
  {
    var n :- UInt256Of(memory, item);
    if n >= W64 then Failure(UnexpectedError)
    else if platform.printTime(n, outLen).None? then Failure(UnexpectedError)
    else Success(Truncated(platform.printTime(n, outLen).value, outLen))
  }

  function TypeName(txType: u8): Result<string>
  {
    if txType == TXTYPE_NORMAL then Success("Normal")
    else if txType == TXTYPE_SCHEDULED then Success("Scheduled")
    else if txType == TXTYPE_REVERT then Success("Revert")
    else if txType == TXTYPE_AUTHORIZED then Success("Authorize")
    else if txType == TXTYPE_CANCEL_AUTH then Success("Cancel Auth")
    else if txType == TXTYPE_CREATE_CURR then Success("Create curr")
    else Failure(UnexpectedType)
  }

  // ---------- The rows ----------

  function KeyOf(idx: nat): string
    requires idx < DISPLAY_COUNT
  {
    ["Nonce", "Gas Price", "Gas Limit", "To", "Value", "Data", "ChainID", "EnterType", "IsEntrustTx",
     "CommitTime", "TxType", "Lock Height"][idx]
  }

  /** Rows that show a number: which item they read. Rows 8 and 9 skip the two signature
      items, row 7 does not. */
  function NumberItem(tx: TxView, idx: nat): (r: Option<Item>)
    requires |tx.fields| == ROOT_FIELDS && |tx.extraFields| == EXTRA_FIELDS
  {
    if idx == 0 || idx == 1 || idx == 2 || idx == 4 || idx == 7 then Some(tx.fields[idx])
    else if idx == 8 then Some(tx.fields[idx + 2])
    else if idx == 11 then Some(tx.extraFields[1])
    else None
  }

  lemma ItemsInside(memory: seq<u8>, tx: TxView)
    requires Displayable(memory, tx)
    ensures |tx.fields| == ROOT_FIELDS && |tx.extraFields| == EXTRA_FIELDS
    ensures forall i :: 0 <= i < ROOT_FIELDS ==> Inside(tx.fields[i], |memory|)
    ensures forall i :: 0 <= i < EXTRA_FIELDS ==> Inside(tx.extraFields[i], |memory|)
  {
  }

  function Single(r: Result<string>): Result<(string, u8)>
  {
    if r.Failure? then Failure(r.error) else Success((r.value, 1))
  }

  function FixedRow(platform: Platform, memory: seq<u8>, tx: TxView, idx: nat, outLen: nat, page: u8)
    : Result<(string, u8)>
    requires Displayable(memory, tx) && idx < DISPLAY_COUNT
  {
    ItemsInside(memory, tx);
    if NumberItem(tx, idx).Some? then Single(Decimal(memory, NumberItem(tx, idx).value, outLen))
    else if idx == 3 then Success(ShowPage(platform.pageText(TextBytes(memory, tx.fields[3]), outLen, page), outLen))
    else if idx == 5 then DataRow(platform, memory, tx.fields[5], tx.extraTxType, outLen, page)
    else if idx == 6 then Single(ChainRow(memory, tx.fields[6], outLen))
    else if idx == 9 then Single(TimeRow(platform, memory, tx.fields[11], outLen))
    else
      var name :- TypeName(tx.extraTxType);
      Success((Truncated(name, outLen), 1))
  }

  /** The three items of recipient k. */
  function RecipientItems(memory: seq<u8>, tx: TxView, k: nat): (items: seq<Item>)
    requires Displayable(memory, tx) && k < |tx.recipients|
    ensures |items| == EXTRA_TO_FIELDS && Held(items, |memory|)
  {
    assert tx.recipients[k] in tx.recipients;
    ReadExactly(memory, tx.recipients[k], EXTRA_TO_FIELDS).value
  }

  function ExtraKey(k: nat, field: nat): string
    requires field < EXTRA_TO_FIELDS
  {
    ["To [", "Amount [", "Payload ["][field] + Radix.Numeral(k, 10) + "]"
  }

  /** Field 0, 1 or 2 of recipient k. */
  function ExtraRow(platform: Platform, memory: seq<u8>, tx: TxView, k: nat, field: nat, outLen: nat, page: u8)
    : Result<(string, u8)>
    requires Displayable(memory, tx) && k < |tx.recipients| && field < EXTRA_TO_FIELDS
  {
    var items := RecipientItems(memory, tx, k);
    assert items[field] in items;
    if field == 1 then
      var text :- Decimal(memory, items[1], outLen);
      Success(OrEmpty(items[1], outLen, (text, 1)))
    else
      Success(OrEmpty(items[field], outLen,
                      ShowPage(platform.pageText(TextBytes(memory, items[field]), outLen, page), outLen)))
  }

  /** How many rows there are; at most 42, so the byte that counts them never wraps. */
  function RowCount(tx: TxView): (n: nat)
    ensures |tx.recipients| <= EXTRA_TO_MAX ==> n <= 42
  {
    DISPLAY_COUNT + 3 * |tx.recipients|
  }

  /** What a display call shows, or the error it returns. */
  function Row(platform: Platform, memory: seq<u8>, tx: TxView, idx: nat, outLen: nat, page: u8): Result<Shown>
    requires Displayable(memory, tx)
  {
    if idx >= RowCount(tx) then Failure(DisplayIdxOutOfRange)
    else if idx < DISPLAY_COUNT then
      var row :- FixedRow(platform, memory, tx, idx, outLen, page);
      Success(Shown(KeyOf(idx), row.0, row.1))
    else
      var k, field := (idx - DISPLAY_COUNT) / 3, (idx - DISPLAY_COUNT) % 3;
      var row :- ExtraRow(platform, memory, tx, k, field, outLen, page);
      Success(Shown(ExtraKey(k, field), row.0, row.1))
  }
}
