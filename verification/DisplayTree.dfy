/** Parsing, validation and display of a whole message, told from the tree it encodes. */
module DisplayTree {
  import opened Words
  import opened ParserCommon
  import opened RlpFormat
  import opened RlpTree
  import opened Tx
  import opened TxTree
  import opened Display
  import opened DisplayProofs
  import opened Parser
  import BigEndian
  import Radix

  /** A number of at most 39 decimal digits. */
  predicate FitsRow(t: Tree)
  {
    IsNumber(t) && BigEndian.Value(t.bytes) < Radix.Power(10, 39)
  }

  predicate FitsTime(platform: Platform, t: Tree)
  {
    IsNumber(t) && BigEndian.Value(t.bytes) < W64 && platform.printTime(BigEndian.Value(t.bytes), 40).Some?
  }

  function RecipientsOf(t: Tree): seq<Tree>
    requires IsTransaction(t)
  {
    Recipients(ExtraOf(t).items[EXTRA_FIELDS - 1])
  }

  function TypeOf(t: Tree): u8
    requires IsTransaction(t)
  {
    BigEndian.Value(ExtraOf(t).items[0].bytes) % 0x100
  }

  /** The transactions that validation accepts: on the trees, in one place. */
  predicate IsShowable(platform: Platform, t: Tree)
    requires IsTransaction(t)
  {
    && FitsRow(t.items[0]) && FitsRow(t.items[1]) && FitsRow(t.items[2]) && FitsRow(t.items[4])
    && SingleByte(t.items[6])
    && FitsRow(t.items[7]) && FitsRow(t.items[10]) && FitsTime(platform, t.items[11])
    && ShownType(TypeOf(t)) && FitsRow(ExtraOf(t).items[1])
    && forall k :: 0 <= k < |RecipientsOf(t)| ==> FitsRow(RecipientsOf(t)[k].items[1])
  }

  // ---------- Items of a stored transaction ----------

  lemma PrintableWritten(memory: seq<u8>, item: Item, t: Tree)
    requires Written(memory, item, t)
    ensures Inside(item, |memory|)
    ensures Printable(memory, item) <==> FitsRow(t)
  {
    hide Written, Inside, UInt256Of, BigEndian.Value, Radix.Power;
    NumberWritten(memory, item, t);
  }

  lemma TimeWritten(platform: Platform, memory: seq<u8>, item: Item, t: Tree)
    requires Written(memory, item, t)
    ensures Inside(item, |memory|)
    ensures FitsTime(platform, t) <==>
              && UInt256Of(memory, item).Success? && UInt256Of(memory, item).value < W64
              && platform.printTime(UInt256Of(memory, item).value, 40).Some?
  {
    hide Written, Inside, UInt256Of, BigEndian.Value;
    NumberWritten(memory, item, t);
  }

  lemma ByteWritten(memory: seq<u8>, item: Item, t: Tree)
    requires Written(memory, item, t)
    ensures item.kind == Byte <==> SingleByte(t)
  {
    hide Written, Inside, Content;
    WrittenKind(memory, item, t);
    if t.Str? {
      WrittenString(memory, item, t.bytes);
    }
  }

  lemma ItemWritten(memory: seq<u8>, items: seq<Item>, ts: seq<Tree>, i: nat)
    requires AllWritten(memory, items, ts) && i < |ts|
    ensures |items| == |ts| && Written(memory, items[i], ts[i])
  {
  }

  lemma RecipientItemWritten(memory: seq<u8>, tx: TxView, t: Tree, k: nat, field: nat)
    requires IsTransaction(t) && Stores(memory, tx, t) && Displayable(memory, tx)
    requires k < |RecipientsOf(t)| && field < 3
    ensures k < |tx.recipients| && HasItems(RecipientsOf(t)[k], 3)
    ensures Written(memory, RecipientItems(memory, tx, k)[field], RecipientsOf(t)[k].items[field])
  {
    hide Written, AllWritten, ReadExactly, Displayable, Recipients, HasItems, IsType;
    var r := RecipientsOf(t)[k];
    ItemWritten(memory, tx.recipients, RecipientsOf(t), k);
    ExactlyWritten(memory, tx.recipients[k], r, EXTRA_TO_FIELDS);
    ThreeItems(r);
    ItemWritten(memory, RecipientItems(memory, tx, k), r.items[..EXTRA_TO_FIELDS], field);
  }

  lemma ThreeItems(t: Tree)
    requires HasItems(t, EXTRA_TO_FIELDS)
    ensures t.Lst? && |t.items| >= 3
  {
  }

  lemma StoredField(memory: seq<u8>, tx: TxView, t: Tree, i: nat)
    requires IsTransaction(t) && Stores(memory, tx, t) && i < ROOT_FIELDS
    ensures |t.items| >= ROOT_FIELDS && |tx.fields| == ROOT_FIELDS && Written(memory, tx.fields[i], t.items[i])
  {
    hide Written, IsExtra;
  }

  lemma StoredExtra(memory: seq<u8>, tx: TxView, t: Tree, i: nat)
    requires IsTransaction(t) && Stores(memory, tx, t) && i < EXTRA_FIELDS
    ensures HasItems(ExtraOf(t), EXTRA_FIELDS) && |tx.extraFields| == EXTRA_FIELDS
    ensures Written(memory, tx.extraFields[i], ExtraOf(t).items[i])
  {
    hide Written, IsType, AreRecipients, Recipients;
  }

  lemma RecipientCount(memory: seq<u8>, tx: TxView, t: Tree)
    requires IsTransaction(t) && Stores(memory, tx, t)
    ensures |tx.recipients| == |RecipientsOf(t)| && tx.extraTxType == TypeOf(t)
  {
    hide Written, Recipients, BigEndian.Value;
  }

  /** What validation demands of the stored items is a condition on the tree. */
  lemma AcceptableStored(platform: Platform, memory: seq<u8>, tx: TxView, t: Tree)
    requires IsTransaction(t) && Stores(memory, tx, t) && Displayable(memory, tx)
    ensures Acceptable(platform, memory, tx) <==> IsShowable(platform, t)
  {
    hide Written, Stores, ExtraOf, RecipientsOf, TypeOf, IsType, AreRecipients, Displayable, Inside,
         UInt256Of, Printable, FitsRow, FitsTime, SingleByte, ShownType, RecipientItems;
    ItemsInside(memory, tx);
    RecipientCount(memory, tx, t);
    forall i: nat | i < ROOT_FIELDS
      ensures |t.items| >= ROOT_FIELDS && Written(memory, tx.fields[i], t.items[i])
      ensures Printable(memory, tx.fields[i]) <==> FitsRow(t.items[i])
      ensures tx.fields[i].kind == Byte <==> SingleByte(t.items[i])
    {
      StoredField(memory, tx, t, i);
      PrintableWritten(memory, tx.fields[i], t.items[i]);
      ByteWritten(memory, tx.fields[i], t.items[i]);
    }
    TimeWritten(platform, memory, tx.fields[11], t.items[11]);
    StoredExtra(memory, tx, t, 1);
    PrintableWritten(memory, tx.extraFields[1], ExtraOf(t).items[1]);
    forall k: nat | k < |tx.recipients|
      ensures HasItems(RecipientsOf(t)[k], EXTRA_TO_FIELDS)
      ensures AmountPrintable(memory, tx, k) <==> FitsRow(RecipientsOf(t)[k].items[1])
    {
      RecipientItemWritten(memory, tx, t, k, 1);
      PrintableWritten(memory, RecipientItems(memory, tx, k)[1], RecipientsOf(t)[k].items[1]);
    }
  }

  // ---------- Whole messages ----------

  /** The encoding of a tree is parsed exactly when it has the shape of a transaction, and then
      passes validation exactly when its numbers fit their rows. */
  lemma MessageAcceptedExactlyWhen(platform: Platform, t: Tree, e: seq<u8>)
    requires Encode(t) == Some(e) && |e| < 0x1_0000
    ensures ParseOutcome(e).Success? <==> IsTransaction(t)
    ensures ParseOutcome(e).Code() == MessageCode(t)
    ensures IsTransaction(t) ==>
              && Stores(e, ParseOutcome(e).value, t)
              && Displayable(e, ParseOutcome(e).value)
              && (AllRowsShow(platform, e, ParseOutcome(e).value) <==> IsShowable(platform, t))
  {
    assert e != [] && At(e, 0, e);
    ModSmall(|e|, 0x1_0000);
    assert ParseOutcome(e) == ReadTx(e, 0, |e|);
    hide *;
    ReadExactlyTransactions(t, e, e, 0);
    ReadIsDisplayable(e, 0, |e|);
    if IsTransaction(t) {
      AcceptableStored(platform, e, ParseOutcome(e).value, t);
      AcceptedExactlyWhen(platform, e, ParseOutcome(e).value);
    }
  }

  /** Every proper prefix of an encoding is refused, and so is everything that has further bytes
      behind one, whatever the tree. */
  lemma DamagedMessage(t: Tree, e: seq<u8>, n: nat, more: seq<u8>)
    requires Encode(t) == Some(e)
    ensures |e| < 0x1_0000 && n < |e| ==>
              ParseOutcome(e[..n]) == Failure(if n == 0 then InitContextEmpty else UnexpectedBufferEnd)
    ensures |e| + |more| < 0x1_0000 && more != [] ==> ParseOutcome(e + more) == Failure(UnexpectedUnparsedBytes)
  {
    if |e| < 0x1_0000 {
      WrittenHere(t, e, e, 0);
      if 0 < n < |e| {
        RootCutShort(e, n, 0);
        RootFailure(e[..n]);
      }
      if |e| + |more| < 0x1_0000 && more != [] {
        RootTooLong(e, more, 0);
        RootFailure(e + more);
      }
    }
    hide Encode, ReadHeader, ReadTx, ReadRoot;
  }

  /** The length is cut to 16 bits: a longer message is read as its first part. */
  lemma LongMessage(data: seq<u8>)
    ensures ParseOutcome(data) == ParseOutcome(data[..|data| % 0x1_0000])
  {
    var n := |data| % 0x1_0000;
    ModSmall(n, 0x1_0000);
    hide ReadTx;
    ReadTxCut(data, n);
    assert |data[..n]| == n;
  }

  lemma RootFailure(message: seq<u8>)
    requires 0 < |message| < 0x1_0000 && ReadRoot(message, 0).Failure?
    ensures ParseOutcome(message) == Failure(ReadRoot(message, 0).error)
  {
    assert message[0..0 + |message|] == message;
    ModSmall(|message|, 0x1_0000);
    hide ReadRoot;
  }

  /** The amount of a recipient that is written as a number below 10^39 is displayed as its
      numeral, unless it is empty or a single byte below 0x80: then as "Empty". */
  lemma AmountText(platform: Platform, memory: seq<u8>, tx: TxView, t: Tree, k: nat, outLen: nat, page: u8)
    requires IsTransaction(t) && Stores(memory, tx, t) && Displayable(memory, tx)
    requires k < |RecipientsOf(t)| && outLen >= 40
    ensures k < |tx.recipients| && HasItems(RecipientsOf(t)[k], EXTRA_TO_FIELDS)
    ensures var amount := RecipientsOf(t)[k].items[1];
            FitsRow(amount) ==>
              ExtraRow(platform, memory, tx, k, 1, outLen, page)
              == Success((if amount.bytes == [] || SingleByte(amount) then "Empty"
                          else Radix.Numeral(BigEndian.Value(amount.bytes), 10), 1))
  {
    hide Written, Stores, IsTransaction, RecipientsOf, Displayable, RecipientItems, Inside, UInt256Of, Content,
         BigEndian.Value, Radix.Numeral, Radix.Power;
    RecipientItemWritten(memory, tx, t, k, 1);
    var amount := RecipientsOf(t)[k].items[1];
    var item := RecipientItems(memory, tx, k)[1];
    NumberWritten(memory, item, amount);
    if FitsRow(amount) {
      WrittenString(memory, item, amount.bytes);
      LengthOfContent(memory, item);
      Radix.NumeralLength(BigEndian.Value(amount.bytes), 10, 39);
    }
  }

  lemma LengthOfContent(memory: seq<u8>, item: Item)
    requires Inside(item, |memory|) && item.kind != List
    ensures item.rlpLen == 0 <==> item.kind == Byte || Content(memory, item) == []
  {
  }

  lemma SingleByteAmount(platform: Platform, memory: seq<u8>, tx: TxView, t: Tree, k: nat)
    requires IsTransaction(t) && Stores(memory, tx, t) && Displayable(memory, tx)
    requires k < |RecipientsOf(t)| && HasItems(RecipientsOf(t)[k], EXTRA_TO_FIELDS)
    requires FitsRow(RecipientsOf(t)[k].items[1]) && SingleByte(RecipientsOf(t)[k].items[1])
    ensures k < |tx.recipients|
    ensures var item := RecipientItems(memory, tx, k)[1];
            && Inside(item, |memory|) && item.kind == Byte
            && UInt256Of(memory, item) == Success(BigEndian.Value(RecipientsOf(t)[k].items[1].bytes))
    ensures ExtraRow(platform, memory, tx, k, 1, 40, 0) == Success(("Empty", 1))
  {
    hide Written, Stores, IsTransaction, RecipientsOf, Displayable, RecipientItems, Inside, UInt256Of, ExtraRow,
         BigEndian.Value, Radix.Numeral, Radix.Power;
    RecipientItemWritten(memory, tx, t, k, 1);
    AmountText(platform, memory, tx, t, k, 40, 0);
    var item := RecipientItems(memory, tx, k)[1];
    NumberWritten(memory, item, RecipientsOf(t)[k].items[1]);
    ByteWritten(memory, item, RecipientsOf(t)[k].items[1]);
  }

  // ---------- A message whose amount is not shown ----------

  const EMPTY: Tree := Str([])
  const ONE: Tree := Str([1])

  /** One recipient, who is sent 5. */
  const RECIPIENT: Tree := Lst([EMPTY, Str([5]), EMPTY])
  const EXTRA: Tree := Lst([EMPTY, ONE, Lst([RECIPIENT])])
  const TRANSACTION: Tree :=
    Lst([ONE, ONE, ONE, EMPTY, ONE, EMPTY, ONE, ONE, EMPTY, EMPTY, ONE, ONE, Lst([EXTRA])])

  const MESSAGE: seq<u8> :=
    [0xD5, 1, 1, 1, 0x80, 1, 0x80, 1, 1, 0x80, 0x80, 1, 1, 0xC8, 0xC7, 0x80, 1, 0xC4, 0xC3, 0x80, 5, 0x80]

  lemma LeafEncoding(b: u8)
    requires b < 0x80
    ensures Encode(EMPTY) == Some([0x80]) && Encode(Str([b])) == Some([b])
  {
    assert [0x80] + [] == [0x80];
  }

  function Flat(es: seq<seq<u8>>): seq<u8>
  {
    if es == [] then [] else es[0] + Flat(es[1..])
  }

  lemma {:induction false} EncodeEach(ts: seq<Tree>, es: seq<seq<u8>>)
    requires |ts| == |es| && forall i :: 0 <= i < |ts| ==> Encode(ts[i]) == Some(es[i])
    ensures EncodeAll(ts) == Some(Flat(es))
  {
    hide Encode;
    if ts != [] {
      EncodeEach(ts[1..], es[1..]);
    }
  }

  lemma ShortList(ts: seq<Tree>, es: seq<seq<u8>>, e: seq<u8>)
    requires |ts| == |es| && forall i :: 0 <= i < |ts| ==> Encode(ts[i]) == Some(es[i])
    requires 0 < |e| <= 56 && e[0] == 0xC0 + (|e| - 1) && e[1..] == Flat(es)
    ensures Encode(Lst(ts)) == Some(e)
  {
    EncodeEach(ts, es);
    hide EncodeAll, Flat;
    assert e == [e[0]] + e[1..];
  }

  lemma RecipientEncoding()
    ensures Encode(RECIPIENT) == Some([0xC3, 0x80, 5, 0x80])
  {
    LeafEncoding(5);
    assert Flat([[0x80], [5], [0x80]]) == [0x80, 5, 0x80];
    hide Encode, Flat;
    ShortList([EMPTY, Str([5]), EMPTY], [[0x80], [5], [0x80]], [0xC3, 0x80, 5, 0x80]);
  }

  lemma RecipientsEncoding()
    ensures Encode(Lst([RECIPIENT])) == Some([0xC4, 0xC3, 0x80, 5, 0x80])
  {
    RecipientEncoding();
    assert Flat([[0xC3, 0x80, 5, 0x80]]) == [0xC3, 0x80, 5, 0x80];
    hide Encode, Flat, RECIPIENT;
    ShortList([RECIPIENT], [[0xC3, 0x80, 5, 0x80]], [0xC4, 0xC3, 0x80, 5, 0x80]);
  }

  lemma ExtraEncoding()
    ensures Encode(EXTRA) == Some([0xC7, 0x80, 1, 0xC4, 0xC3, 0x80, 5, 0x80])
  {
    LeafEncoding(1);
    RecipientsEncoding();
    assert Flat([[0x80], [1], [0xC4, 0xC3, 0x80, 5, 0x80]]) == [0x80, 1, 0xC4, 0xC3, 0x80, 5, 0x80];
    hide Encode, Flat, RECIPIENT;
    ShortList([EMPTY, ONE, Lst([RECIPIENT])], [[0x80], [1], [0xC4, 0xC3, 0x80, 5, 0x80]],
              [0xC7, 0x80, 1, 0xC4, 0xC3, 0x80, 5, 0x80]);
  }

  lemma LastEncoding()
    ensures Encode(Lst([EXTRA])) == Some([0xC8, 0xC7, 0x80, 1, 0xC4, 0xC3, 0x80, 5, 0x80])
  {
    ExtraEncoding();
    assert Flat([[0xC7, 0x80, 1, 0xC4, 0xC3, 0x80, 5, 0x80]]) == [0xC7, 0x80, 1, 0xC4, 0xC3, 0x80, 5, 0x80];
    hide Encode, Flat, EXTRA;
    ShortList([EXTRA], [[0xC7, 0x80, 1, 0xC4, 0xC3, 0x80, 5, 0x80]], [0xC8, 0xC7, 0x80, 1, 0xC4, 0xC3, 0x80, 5, 0x80]);
  }

  /** The encodings of the items of the transaction. */
  const PARTS: seq<seq<u8>> :=
    [[1], [1], [1], [0x80], [1], [0x80], [1], [1], [0x80], [0x80], [1], [1],
     [0xC8, 0xC7, 0x80, 1, 0xC4, 0xC3, 0x80, 5, 0x80]]

  lemma PartAt(i: nat)
    requires i < 13
    ensures |PARTS| == 13 && |MESSAGE| == 22 && MESSAGE[0] == 0xD5
    ensures PARTS[i] == if i < 12 then [MESSAGE[i + 1]] else MESSAGE[13..]
  {
  }

  lemma {:induction false} PartsFrom(i: nat)
    requires i < 13
    ensures |PARTS| == 13 && |MESSAGE| == 22 && Flat(PARTS[i..]) == MESSAGE[i + 1..]
    decreases 13 - i
  {
    hide PARTS, MESSAGE;
    PartAt(i);
    assert PARTS[i..][0] == PARTS[i];
    if i < 12 {
      PartsFrom(i + 1);
      assert PARTS[i..][1..] == PARTS[i + 1..];
    } else {
      assert PARTS[i..][1..] == [];
    }
  }

  lemma MessageParts()
    ensures |MESSAGE| == 22 && MESSAGE[0] == 0xD5 && MESSAGE[1..] == Flat(PARTS)
  {
    hide *;
    PartAt(0);
    PartsFrom(0);
    assert PARTS[0..] == PARTS;
  }

  lemma PartEncoding(i: nat)
    requires i < 13
    ensures Encode(TRANSACTION.items[i]) == Some(PARTS[i])
  {
    LeafEncoding(1);
    LastEncoding();
    hide Encode, EXTRA;
  }

  lemma MessageEncoding()
    ensures Encode(TRANSACTION) == Some(MESSAGE) && |MESSAGE| == 22
  {
    MessageParts();
    forall i: nat | i < 13 ensures Encode(TRANSACTION.items[i]) == Some(PARTS[i]) {
      PartEncoding(i);
    }
    hide Encode, Flat;
    ShortList(TRANSACTION.items, PARTS, MESSAGE);
  }

  lemma Numbers()
    ensures BigEndian.Value([1]) == 1 && BigEndian.Value([5]) == 5 && BigEndian.Value([]) == 0
    ensures 5 < Radix.Power(10, 39)
  {
    Radix.NumeralLength(5, 10, 39);
  }

  lemma TransactionShape(platform: Platform)
    ensures IsTransaction(TRANSACTION) && RecipientsOf(TRANSACTION) == [RECIPIENT]
    ensures platform.printTime(1, 40).Some? ==> IsShowable(platform, TRANSACTION)
  {
    Numbers();
    hide BigEndian.Value, Radix.Power;
  }

  lemma RecipientShape()
    ensures HasItems(RECIPIENT, EXTRA_TO_FIELDS) && RECIPIENT.items[1] == Str([5])
    ensures FitsRow(Str([5])) && SingleByte(Str([5]))
  {
    Numbers();
    hide BigEndian.Value, Radix.Power;
  }

  /** An input that is parsed and, if the time 1 can be printed, passes validation: its
      recipient is sent 5, and the display says "Empty". */
  lemma AmountNotShown(platform: Platform)
    ensures ParseOutcome(MESSAGE).Success?
    ensures var tx := ParseOutcome(MESSAGE).value;
            && Displayable(MESSAGE, tx) && |tx.recipients| == 1
            && (platform.printTime(1, 40).Some? ==> Acceptable(platform, MESSAGE, tx))
            && (var item := RecipientItems(MESSAGE, tx, 0)[1];
                Inside(item, |MESSAGE|) && item.kind == Byte && UInt256Of(MESSAGE, item) == Success(5))
            && ExtraRow(platform, MESSAGE, tx, 0, 1, 40, 0) == Success(("Empty", 1))
  {
    hide Encode, ParseOutcome, Stores, Displayable, Acceptable, IsShowable, RecipientItems, ExtraRow, UInt256Of, Inside,
         IsTransaction, RecipientsOf, AllRowsShow, FitsRow, SingleByte, HasItems, BigEndian.Value, Radix.Power,
         TRANSACTION, MESSAGE, RECIPIENT;
    MessageEncoding();
    TransactionShape(platform);
    RecipientShape();
    Numbers();
    MessageAcceptedExactlyWhen(platform, TRANSACTION, MESSAGE);
    var tx := ParseOutcome(MESSAGE).value;
    RecipientCount(MESSAGE, tx, TRANSACTION);
    AcceptedExactlyWhen(platform, MESSAGE, tx);
    SingleByteAmount(platform, MESSAGE, tx, TRANSACTION, 0);
  }
}
