# Verified model of the Matrix AI Ledger app

This project models, in Dafny, the deterministic core of a Ledger signing app and proves what that
core computes. An upload arrives as a run of APDU commands, is decoded as RLP, is checked against a
fixed transaction shape, and is shown row by row with 256-bit numbers in decimal; Keccak-256 and a
CRC-8 serve the address. Verify everything with `dafny verify dfyconfig.toml`.

## How the program is modelled

- A C struct that is written through a pointer is a class (`U128`, `U256`, `Context`, `Transaction`,
  `Device`), so that an in-place call is a call with the same object twice; buffers are arrays.
  Every word operation that can wrap is written with an explicit modulus.
- An RLP item is a kind, a start and a length in one byte memory; the parser context is a mutable
  cursor. `ReadHeader`, `ParseItems` and `ReadTx` say what the decoder and the transaction reader
  return; the methods of `Rlp`, `Tx` and `Parser` are proved against them, and the properties are
  proved about them. `TxTree`, `DisplayTree` and `MessageRows` state them for whole messages, on the trees
  these encode: what is stored, which messages pass, and what every row shows.
- A 64-bit lane of Keccak is its sequence of 64 bits, least significant first. `Fips202` transcribes
  sections 3.1 to 3.4, 4 and 5.1 of FIPS 202 bit by bit; the state array is assumed to hold its lanes
  in little-endian order. The bytes of the CRC are 8-bit vectors.
- A thrown status is a returned one. `Session` gives the effect of one command as a function of the
  session; the handlers in `Apdu` are proved to compute it. `Replies` says on the bytes received which command
  gets which answer, and `SessionRuns` reasons about every run.
- Library code that is not in the repository is a parameter: the paging and time functions are the
  fields of `Platform`; what one append, one address derivation and one review do is the value
  `Conditions`. `Platform` is assumed only to print a time in the same way in every buffer of 40
  characters or more.

## What the proofs found

- `mul256` adds the overflow of its 2^64 column to the top word (`app/src/uint256.c:411`). It returns
  l * r + c * (2^192 - 2^128) mod 2^256, where c is 0, 1 or 2, and is the product exactly when c is 0.
- `shiftr128` in place by exactly 64 clears its operand first (`app/src/uint256.c:120-122`). The
  in-place uses shift by 1 and are safe.
- A recipient's amount is shown as a number exactly when its RLP item is a non-empty string. A
  single-byte item, which is how amounts from 1 to 127 are encoded, is shown as "Empty"
  (`app/src/parser.c:253-256`); a message of 22 bytes that passes validation shows it.
- `tostring256` with a length of 0 or 1 wraps its bound around and writes the whole numeral behind the
  buffer (`app/src/uint256.c:535-545`); from a length of 2 on it stays inside.
- Row 7 ("EnterType") shows field 7, while rows 8 and 9 show fields 10 and 11.
- The bisection in `validateTxType` accepts every value from 0 to 122, not only the declared types;
  validation of the display rows then narrows them to 0, 3, 4, 5, 6 and 9.
- The decoder accepts non-canonical encodings, and items behind the last slot of a list are not read.
  An accepted input re-encodes to itself exactly when it is canonical.
- `parser_parse` keeps the low 16 bits of its input length; the model does too.
- Only the first ten members of the recipient list are read; the others are neither checked nor shown
  (`app/src/parser_impl.c:60-62`).
- A refused first chunk still empties the buffer, and a path that is complete is stored before it is
  checked (`app/src/apdu_handler.c:43-50`, `app/src/apdu_handler.c:61-64`).
- The client does not look at the answer to its first chunk. The device then answers the second one
  with an error, so the upload still fails. A client upload of a path without data is sent as a last
  chunk and never opens a session; it completes whatever session was left open before.
- The command documentation under `docs` gives class byte 0x98 and a path prefix of 44/434; the code
  uses 0x88 and 44'/318', and the model follows the code.

## Model

| member | source | states |
|---|---|---|
| `Uint128.Zero128` | `app/src/uint256.c:44-46` | true exactly for the number 0 |
| `Uint128.Equal128` | `app/src/uint256.c:204-207` | equality of the structs is equality of the numbers |
| `Uint128.Gt128` | `app/src/uint256.c:214-219` | the word comparison is the order of the integers |
| `Uint128.Gte128` | `app/src/uint256.c:228-230` | same, not strict |
| `Uint128.Copy128` | `app/src/uint256.c:52-55` | the target takes the value |
| `Uint128.Clear128` | `app/src/uint256.c:62-65` | the target becomes 0 |
| `Uint128.Shiftl128` | `app/src/uint256.c:72-90` | n * 2^k mod 2^128 for every 32-bit k, the target may be the operand |
| `Uint128.Shiftr128` | `app/src/uint256.c:117-137` | floor(n / 2^k) for every 32-bit k, except that an in-place shift by exactly 64 gives 0 |
| `Uint128.Bits128` | `app/src/uint256.c:164-181` | the result is the bit length, at most 128 |
| `Uint128.BitLengthExact` | `app/src/uint256.c:164-181` | a number has bit length k exactly when 2^(k-1) <= n < 2^k (and 0 has length 0) |
| `Uint128.Add128` | `app/src/uint256.c:236-241` | sum mod 2^128, the target may be either operand |
| `Uint128.Minus128` | `app/src/uint256.c:256-261` | difference mod 2^128, the target may be either operand |
| `Uint128.Or128` | `app/src/uint256.c:276-279` | the two wordwise ors are the or of the whole numbers |
| `Uint128.OrSplit` | `app/src/uint256.c:276-279` | the or of two-digit numbers, base any power of two, is the pair of the ors of their digits |
| `Uint128.OrIsSum` | `app/src/uint256.c:276-279` | or with a power of two is addition when the other operand is a multiple of twice that power |
| `Uint256.Zero256` | `app/src/uint256.c:48-50` | true exactly for the number 0 |
| `Uint256.Equal256` | `app/src/uint256.c:209-212` | equality of the structs is equality of the numbers |
| `Uint256.Gt256` | `app/src/uint256.c:221-226` | the two-level comparison is the order of the integers |
| `Uint256.Gte256` | `app/src/uint256.c:232-234` | same, not strict |
| `Uint256.Copy256` | `app/src/uint256.c:57-60` | the target takes the value |
| `Uint256.Clear256` | `app/src/uint256.c:67-70` | the target becomes 0 |
| `Uint256.Shiftl256` | `app/src/uint256.c:92-115` | n * 2^k mod 2^256 for every 32-bit k, the target may be the operand |
| `Uint256.Shiftr256` | `app/src/uint256.c:139-162` | floor(n / 2^k) for every 32-bit k, the target may be the operand, across the cases 0, 128 and 256 |
| `Uint256.Bits256` | `app/src/uint256.c:183-202` | the result is the bit length, at most 256 |
| `Uint256.Add256` | `app/src/uint256.c:243-254` | sum mod 2^256 through the two carry tests, the target may be either operand |
| `Uint256.Minus256` | `app/src/uint256.c:263-274` | difference mod 2^256 through the two borrow tests, the target may be either operand |
| `Uint256.AddThenMinus` | `app/src/uint256.c:243-274` | add256 followed by minus256, in place, ends with the old value |
| `Uint256.MinusThenAdd` | `app/src/uint256.c:243-274` | minus256 followed by add256, in place, ends with the old value |
| `Uint256.Or256` | `app/src/uint256.c:281-284` | the or of the whole numbers |
| `TwoDigits.Add` | `app/src/uint256.c:236-254` | a carry recognised by a wrapped low digit gives the sum mod b^2, for any base b |
| `TwoDigits.Subtract` | `app/src/uint256.c:256-274` | a borrow recognised by a wrapped low digit gives the difference mod b^2, for any base b |
| `TwoDigits.Compare` | `app/src/uint256.c:214-226` | two-digit numbers are ordered lexicographically |
| `Division.Align` | `app/src/uint256.c:428-440` | shifting the divisor by the difference of bit lengths loses nothing and brackets the dividend |
| `Division.TakeBit` | `app/src/uint256.c:441-448` | subtracting the aligned divisor and or-ing the adder keeps the loop invariant; neither wraps, and the or is a sum |
| `Division.SkipBit` | `app/src/uint256.c:441-448` | halving divisor and adder without subtracting keeps the loop invariant |
| `Division.DividedMeans` | `app/src/uint256.c:422-485` | l = q * r + m with m < r determines q and m as integer quotient and remainder |
| `Division.AlignDivisor256` | `app/src/uint256.c:461-473` | alignment of divisor and adder before the loop, establishing the loop invariant |
| `Division.ProduceBits256` | `app/src/uint256.c:474-481` | the shift-subtract loop ends, and yields quotient and remainder |
| `Division.Divmod128` | `app/src/uint256.c:422-452` | for every divisor other than 0: l = div * r + mod with mod < r, whichever results alias the operands |
| `Division.Divmod256` | `app/src/uint256.c:454-485` | for every divisor other than 0: l = div * r + mod with mod < r, whichever results alias the operands |
| `Multiplication.Times64` | `app/src/uint256.c:297` | the 64-bit product of two 32-bit digits is exact |
| `Multiplication.PartialProducts` | `app/src/uint256.c:295-299` | every product of two digits lands in its cell of the table |
| `Multiplication.SumColumns` | `app/src/uint256.c:301-313` | the four column sums are exact: none of them wraps 64 bits |
| `Multiplication.ProductColumns` | `app/src/uint256.c:286-313` | the columns, weighted by powers of 2^32, are the product mod 2^128 |
| `Multiplication.Mul128` | `app/src/uint256.c:286-326` | the product mod 2^128 for all operands |
| `Schoolbook.Columns` | `app/src/uint256.c:286-406` | the column sums of two four-digit numbers are their product mod b^4, for any base b |
| `Multiplication.PartialProducts128` | `app/src/uint256.c:351-355` | every product of two 64-bit digits lands exactly in its cell of the table |
| `Multiplication.ProductColumns256` | `app/src/uint256.c:328-406` | the four 128-bit columns, weighted by powers of 2^64, are the product mod 2^256; the upper word of the third64 column is the misplaced carry |
| `Multiplication.Mul256` | `app/src/uint256.c:328-420` | the exact value for all operands: l * r + c * (2^192 - 2^128) mod 2^256, c being the misplaced carry |
| `Multiplication.MisplacedCarryBound` | `app/src/uint256.c:411` | the misplaced carry is 0, 1 or 2 |
| `Multiplication.MultipliesExactlyWhen` | `app/src/uint256.c:411` | mul256 is the product mod 2^256 exactly when the misplaced carry is 0 |
| `Multiplication.MultiplicationCounterexample` | `app/src/uint256.c:411` | operands 2^128 - 1 have a misplaced carry of 1 |
| `Radix.NumeralReads` | `app/src/uint256.c:522-549` | the numeral of n reads back as n, and has no leading zero |
| `Radix.ReadPrints` | `app/src/uint256.c:522-549` | a canonical numeral is the numeral of the number it reads as |
| `Radix.NumeralInjective` | `app/src/uint256.c:522-549` | two numbers have the same numeral exactly when they are equal |
| `Radix.NumeralLength` | `app/src/uint256.c:537-545` | a number has at most k digits exactly when it is below b^k |
| `Radix.ReversedAt` | `app/src/uint256.c:487-495` | position by position meaning of reversal |
| `Radix.ReverseString` | `app/src/uint256.c:487-495` | the in-place swap loop reverses the first length characters and nothing else |
| `Radix.AtMost256Digits` | `app/src/uint256.c:522-549` | no supported radix needs more than 256 digits |
| `Radix.ProduceDigits` | `app/src/uint256.c:539-545` | the digit loop succeeds exactly when the digits fit or the limit has wrapped around to none, never writes past a limit, and leaves the numeral reversed |
| `Radix.Tostring256` | `app/src/uint256.c:522-549` | for outLength from 2 on: true exactly for radix 2 to 16 and at most outLength - 1 digits; then the numeral and its terminator, nothing else changed. For outLength 0 or 1: true for every supported radix, the numeral and its terminator written behind the buffer |
| `LoadBytes.ReadsBigEndian` | `app/src/uint256.c:27-32` | the eight or-ed shifted bytes are the big-endian value |
| `LoadBytes.Readu128BE` | `app/src/uint256.c:34-37` | big-endian value of 16 bytes |
| `LoadBytes.Readu256BE` | `app/src/uint256.c:39-42` | big-endian value of 32 bytes |
| `Rlp.ReadBytes` | `app/src/rlp.c:36-43` | succeeds exactly when enough bytes are left; then the cursor advances by the length and the pointer shows exactly those bytes |
| `Rlp.CopyBytes` | `app/src/rlp.c:45-52` | same with a copy; the rest of the buffer is unchanged |
| `Rlp.AccumulateLength` | `app/src/rlp.c:78-82` | the big-endian length loop over 1 to 8 bytes is exact: it never wraps |
| `Rlp.RlpRead` | `app/src/rlp.c:54-104` | the in-place decoder returns what the header function says, moves the cursor by exactly that size, and touches one slot |
| `Rlp.RlpParseStream` | `app/src/rlp.c:19-34` | the loop over the slots returns what the item function says, in order, with the cursor at its end |
| `Rlp.RlpReadList` | `app/src/rlp.c:106-113` | the items of a list's payload, written over the first slots |
| `Rlp.RlpReadUInt256` | `app/src/rlp.c:115-137` | the big-endian number of an item, or the error: list, or more than 32 bytes |
| `RlpFormat.ReadHeader` | `app/src/rlp.c:54-104` | a header that is accepted lies within the input and is not empty |
| `RlpStream.HeaderExtends` | `app/src/rlp.c:54-104` | bytes behind an item do not change how it is read |
| `RlpStream.ParsedItemsTile` | `app/src/rlp.c:19-43` | headers and payloads partition the consumed prefix in order; every item advances; all input is consumed or all slots are used |
| `RlpStream.ParsedItemsPlaced` | `app/src/rlp.c:19-43` | every payload lies inside the buffer and is shorter than it |
| `RlpStream.ParseConcatenation` | `app/src/rlp.c:19-34` | parsing A ++ B gives the items of A, then those of B |
| `RlpStream.SpareSlots` | `app/src/rlp.c:27` | slots that are not needed change nothing |
| `RlpStream.SurplusIgnored` | `app/src/rlp.c:27` | once all slots are used, bytes behind the last item are never looked at |
| `RlpStream.ListItemsPlaced` | `app/src/rlp.c:106-113` | the items of a list lie inside the list's payload |
| `RlpTree.HeaderRoundTrip` | `app/src/rlp.c:68-100` | a header written by Appendix B of the Yellow Paper is read back with its kind and length |
| `RlpTree.RoundTrip` | `app/src/rlp.c:54-113` | decode(encode(t)) = t for every tree whose encoding fits in 16 bits, consuming exactly the encoding |
| `RlpTree.RoundTripAll` | `app/src/rlp.c:19-113` | the same for the concatenated encodings of a sequence of trees |
| `RlpTree.MinimalBytesUnique` | `app/src/rlp.c:78-82` | a length without leading zero bytes is the shortest big-endian form of its value |
| `RlpCanonical.EncodedIsCanonical` | `app/src/rlp.c:54-104` | every encoding passes the canonical-form test |
| `RlpCanonical.CanonicalEncodes` | `app/src/rlp.c:54-104` | encode(decode(e)) = e for every canonical input e |
| `RlpCanonical.PayloadEncodes` | `app/src/rlp.c:54-113` | the same for list payloads |
| `RlpCanonical.ReencodesExactlyWhen` | `app/src/rlp.c:54-104` | an accepted input re-encodes to itself exactly when it is canonical |
| `RlpCanonical.NonCanonicalAccepted` | `app/src/rlp.c:68-71` | 0x81 0x05 is accepted and does not re-encode to itself |
| `Tx.ValidateTxType` | `app/src/parser_impl.c:77-97` | the bisection accepts exactly the types 0 to 122 |
| `Tx.RootInside` | `app/src/parser_impl.c:26-35` | the root list spans the whole input |
| `Tx.CheckedRecipients` | `app/src/parser_impl.c:62-71` | the recipient loop succeeds exactly when every recipient is a list with at least three readable items |
| `Tx.ReadRecipientsNested` | `app/src/parser_impl.c:58-72` | accepted recipients: at most ten, each inside the list that holds them and a valid recipient |
| `Tx.ReadIsNested` | `app/src/parser_impl.c:21-75` | the nesting invariant of every accepted transaction: item counts, containment of every item in its parent, type = low byte and at most 122 |
| `TxTree.ItemsWritten` | `app/src/rlp.c:19-34` | with any number of slots the decoder finds that many of the items an encoder has written, where they stand |
| `TxTree.ReadExactlyTransactions` | `app/src/parser_impl.c:21-75` | completeness: the encoding of a tree is read exactly when the tree is a list of at least 13 items with the extra fields and recipients in place; every stored item is then the matching subtree, and any other tree gets the error of its first defect |
| `TxTree.MessageCodeOk` | `app/src/parser_impl.c:21-75` | the error of the first defect of a tree: there is none exactly for trees of the shape of a transaction |
| `TxTree.StoredItems` | `app/src/parser_impl.c:37-74` | for every encoded transaction: 13 fields, 3 extra fields, a type of at most 122, and the first ten members of the recipient list (none of a string), each stored item denoting the subtree at its place |
| `Tx.ReadTxCut` | `app/src/parser_impl.c:21-75` | bytes behind the slice change nothing |
| `TxTree.WrittenDenotes` | `app/src/rlp.c:54-113` | such an item denotes its subtree |
| `TxTree.WrittenString` | `app/src/rlp.c:63-83` | only a single byte below 0x80 is stored without a length |
| `Tx.ReadRootList` | `app/src/parser_impl.c:26-35` | one root item, all bytes consumed, a list |
| `Tx.ReadFull` | `app/src/parser_impl.c:37-41` | exactly the demanded number of items, or the error |
| `Tx.ReadTxType` | `app/src/parser_impl.c:52-56` | the low byte of the type number, checked |
| `Tx.ReadRecipientLists` | `app/src/parser_impl.c:58-72` | the recipient slots and their check |
| `Tx.ReadExtraFields` | `app/src/parser_impl.c:43-74` | everything behind the root fields |
| `Tx.Read` | `app/src/parser_impl.c:21-75` | the step-by-step filling of the struct agrees with the reading function, including the first error; TxTree.StoredItems and TxTree.ReadExactlyTransactions say on encoded trees what that stores and which error it is |
| `Display.ReadIsDisplayable` | `app/src/parser_impl.c:21-75` | what _read accepts satisfies all the display calls require |
| `DisplayProofs.RowStaysShown` | `app/src/parser.c:209-351` | a row shown in 40 characters is shown in any larger buffer and on any page |
| `DisplayProofs.PrintableExactlyWhen` | `app/src/parser.c:278-302` | a number can be shown in 40 characters exactly when it is a number below 10^39 |
| `DisplayProofs.RowExactlyWhen` | `app/src/parser.c:261-351` | which rows can be shown, as a condition on the fields |
| `DisplayProofs.AcceptedExactlyWhen` | `app/src/parser.c:62-75` | validation succeeds exactly when every number is below 10^39, the chain identifier is a single byte, the commit time is below 2^64 and printable, and the type is 0, 3, 4, 5, 6 or 9 |
| `DisplayProofs.NumberRowText` | `app/src/parser.c:278-302` | a number row shows the canonical decimal numeral of the big-endian value of its item |
| `DisplayProofs.SameTextSameNumber` | `app/src/parser.c:278-342` | two number rows show the same text exactly when their items denote the same number |
| `DisplayProofs.AmountShownExactlyWhen` | `app/src/parser.c:235-256` | a recipient's amount is shown as its numeral exactly when its item is neither a single byte nor empty |
| `DisplayProofs.EmptyIsNoNumeral` | `app/src/parser.c:253-256` | "Empty" is no number's numeral |
| `DisplayTree.MessageAcceptedExactlyWhen` | `app/src/parser.c:55-75` | for every encoded tree: parsed exactly when it has the shape of a transaction, and validated exactly when its numbers are below 10^39, item 6 is a single byte, the time fits and the type has a name |
| `DisplayTree.DamagedMessage` | `app/src/parser_impl.c:26-31` | every proper prefix of an encoding and every encoding with further bytes behind it is refused, with its error |
| `DisplayTree.LongMessage` | `app/src/parser.c:35-60` | a message of more than 65535 bytes is read as its first part, the length being cut to 16 bits |
| `MessageRows.NumberRows` | `app/src/parser.c:276-342` | for every encoded transaction: rows 0, 1, 2, 4, 7, 8 and 11 show items 0, 1, 2, 4, 7, 10 and the lock height under their names, as decimal numerals, or the error: a list, more than 32 bytes, or no room |
| `MessageRows.ToRow` | `app/src/parser.c:294-297` | row 3 shows a page of item 3, never "Empty" |
| `MessageRows.DataRowIs` | `app/src/parser.c:119-156` | row 5 shows a page of item 5: text for the types 5, 6 and 9, hexadecimal digits for 0, 3 and 4, "Empty" without content, an error for any other type |
| `MessageRows.ChainIdRow` | `app/src/parser.c:308-315` | row 6 shows a single byte below 0x80 as its numeral, and refuses everything else |
| `MessageRows.CommitTimeRow` | `app/src/parser.c:328-332` | row 9 shows item 11 as a time, below 2^64 |
| `MessageRows.TxTypeRow` | `app/src/parser.c:158-207` | row 10 names the type, for six types |
| `MessageRows.RecipientRows` | `app/src/parser.c:209-259` | for each of the first ten members of the recipient list: rows 12 + 3 k, 13 + 3 k and 14 + 3 k show its items 0, 1 and 2 under "To [k]", "Amount [k]" and "Payload [k]", and "Empty" exactly without content behind the header |
| `MessageRows.RowsEnd` | `app/src/parser.c:77-100` | a row is out of range exactly from 12 + 3 * (recipients, at most ten) on |
| `MessageRows.SameNumberShown` | `app/src/parser.c:278-342` | two number rows of any two messages show the same text exactly when the numbers are equal |
| `DisplayTree.AmountText` | `app/src/parser.c:235-256` | the amount of a recipient of an encoded transaction: its numeral, or "Empty" exactly for the empty string and single bytes below 0x80 |
| `DisplayTree.AmountNotShown` | `app/src/parser.c:253-256` | a concrete message of 22 bytes that is parsed and validated, sends 5, and displays "Empty" |
| `Parser.Parse` | `app/src/parser.c:35-60` | the error code and the stored transaction, for every input length, the length being cut to 16 bits |
| `Parser.GetNumItems` | `app/src/parser.c:77-83` | 12 + 3 * recipients, which never wraps a byte |
| `Parser.GetItem` | `app/src/parser.c:261-351` | error code, key text, value text and page count of every display call |
| `Parser.PrintDataField` | `app/src/parser.c:119-156` | the data field by transaction type, and "Empty" |
| `Parser.PrintCommitTime` | `app/src/parser.c:102-117` | refused exactly when the number does not fit in 64 bits or cannot be printed |
| `Parser.PrintTxType` | `app/src/parser.c:158-207` | the name of the type, refused exactly for types without one |
| `Parser.PrintExtraField` | `app/src/parser.c:209-259` | the code behind a recipient's three rows fills the buffer as the row function says, for every field and page; MessageRows.RecipientRows says on encoded trees what that is |
| `Parser.ShowFixedRow` | `app/src/parser.c:278-342` | the code behind the twelve fixed rows fills the buffer as the row function says; the lemmas of MessageRows on rows 0 to 11 say on encoded trees what that is |
| `Parser.Validate` | `app/src/parser.c:62-75` | succeeds exactly when every row can be shown; otherwise the error of the first that cannot |
| `Parser.ValidatedRowsShow` | `app/src/parser.c:62-75` | after parse and validate every display call succeeds: every row, page and value buffer of at least 40 characters |
| `Parser.FuzzOneInput` | `fuzz/parser_parse.cpp:18-72` | the fuzz target's assertion holds for every input |
| `KeccakTables.RoundConstants` | `deps/tinykeccak/keccak-tiny.c:29-35` | each of the 24 words is the round constant of section 3.2.5 of FIPS 202, computed by its shift register |
| `KeccakTables.WeightedBits` | `deps/tinykeccak/keccak-tiny.c:29-35` | the bits of a number given by its digits at positions 2^j - 1 |
| `KeccakTables.Offsets` | `deps/tinykeccak/keccak-tiny.c:19-23` | the rotations are the offsets (t+1)(t+2)/2 mod 64 of section 3.2.2 |
| `KeccakTables.Cycle` | `deps/tinykeccak/keccak-tiny.c:24-28` | the table visits each lane once and follows the moves of section 3.2.3 |
| `KeccakTables.Covered` | `deps/tinykeccak/keccak-tiny.c:24-28` | every lane but lane 0 is in the table |
| `KeccakLanes.Rol` | `deps/tinykeccak/keccak-tiny.c:38` | two shifts and an or are the rotation of the bits |
| `KeccakLanes.WalkFollowsTable` | `deps/tinykeccak/keccak-tiny.c:24-28` | the walk of step rho goes through the lanes in the order of the table |
| `KeccakLanes.RhoStepsAt` | `deps/tinykeccak/keccak-tiny.c:65-71` | what the standard's rho algorithm leaves in every lane of the walk |
| `KeccakLanes.RhoPiLane` | `deps/tinykeccak/keccak-tiny.c:65-71` | rho followed by pi is one rotation and one move per lane |
| `KeccakLanes.CycleStep` | `deps/tinykeccak/keccak-tiny.c:68-71` | the lane read at each step of the cycle has not been overwritten, and the step keeps the invariant |
| `KeccakLanes.CycleDone` | `deps/tinykeccak/keccak-tiny.c:65-71` | after 24 steps the state is pi(rho(a)) |
| `KeccakLanes.ThetaLaneSum` | `deps/tinykeccak/keccak-tiny.c:57-64` | the column effect added to each lane is step theta |
| `KeccakLanes.ChiLaneSum` | `deps/tinykeccak/keccak-tiny.c:72-78` | and-not over three lanes is step chi |
| `Keccak.ColumnParities` | `deps/tinykeccak/keccak-tiny.c:58-61` | the five column parities |
| `Keccak.AddEffects` | `deps/tinykeccak/keccak-tiny.c:62-64` | theta in place, section 3.2.1 |
| `Keccak.RhoPi` | `deps/tinykeccak/keccak-tiny.c:65-71` | rho then pi in place, sections 3.2.2 and 3.2.3, for every state |
| `Keccak.MixRows` | `deps/tinykeccak/keccak-tiny.c:72-78` | chi in place, section 3.2.4 |
| `Keccak.AddConstant` | `deps/tinykeccak/keccak-tiny.c:79-80` | iota in place, section 3.2.5 |
| `Keccak.Keccakf` | `deps/tinykeccak/keccak-tiny.c:50-82` | the 24 rounds in place are Keccak-f[1600], section 3.4 |
| `SpongeSteps.StringRoundTrip` | `deps/tinykeccak/keccak-tiny.c:50-51` | 25 little-endian lanes and the 1600-bit string are the same state, section 3.1 |
| `SpongeSteps.XoredByte` | `deps/tinykeccak/keccak-tiny.c:104` | xoring byte i of the state xors bits 8 i to 8 i + 7 of the string |
| `SpongeSteps.AbsorbBytes` | `deps/tinykeccak/keccak-tiny.c:111-117` | xoring 136 input bytes and permuting absorbs one block of the padded message |
| `SpongeSteps.LastBlock` | `deps/tinykeccak/keccak-tiny.c:138-142` | delimiter, final bit and tail xored one after another are the padded tail, also when both pad bits share a byte |
| `SpongeSteps.AbsorbTail` | `deps/tinykeccak/keccak-tiny.c:138-144` | the special treatment of the last block finishes absorbing the message padded by pad10*1, section 5.1 |
| `SpongeSteps.PaddingInjective` | `deps/tinykeccak/keccak-tiny.c:138-140` | no two messages are padded to the same string |
| `SpongeSteps.BitsInjective` | `deps/tinykeccak/keccak-tiny.c:124-151` | the output bits determine the output bytes |
| `KeccakHash.Xorin` | `deps/tinykeccak/keccak-tiny.c:104` | the byte loop xors a block of bits into the state |
| `KeccakHash.Setout` | `deps/tinykeccak/keccak-tiny.c:105` | the byte loop copies the first bits of the state |
| `KeccakHash.AbsorbInput` | `deps/tinykeccak/keccak-tiny.c:135-144` | the state after the whole input, for every length |
| `KeccakHash.SqueezeOutput` | `deps/tinykeccak/keccak-tiny.c:145-147` | the output of every length; bytes behind it are unchanged |
| `KeccakHash.Hash` | `deps/tinykeccak/keccak-tiny.c:124-151` | for every input and output length the output is the sponge of section 4 with capacity 512 and pad10*1, even when output and input share a buffer; the error cases |
| `Crc8.TableStep` | `app/src/crypto_helper.c:29-46` | one table lookup is eight shift-and-feedback steps, for every register and byte |
| `Crc8.EntersAtTheTop` | `app/src/crypto_helper.c:45` | a message byte xored into the register first enters bit by bit from the top |
| `Crc8.LongDivision` | `app/src/crypto_helper.c:42-48` | the bitwise register computes a quotient and a remainder of the message times x^8 modulo x^8 + x^2 + x + 1, coefficient by coefficient |
| `Crc8.RemainderUnique` | `app/src/crypto_helper.c:42-48` | there is only one remainder of degree below 8 |
| `Crc8.ChecksumIsTheRemainder` | `app/src/crypto_helper.c:42-48` | a byte is the checksum exactly when it is that remainder |
| `Crc8.Crc8` | `app/src/crypto_helper.c:42-48` | the table loop computes the checksum of every byte sequence |
| `Crc8.ChecksumLinear` | `app/src/crypto_helper.c:42-48` | the checksum of a bytewise xor is the xor of the checksums |
| `Crc8.AppendedChecksum` | `app/src/crypto_helper.c:42-48` | with one byte appended the checksum is 0 exactly when that byte is the checksum |
| `Crc8.SubstitutionDetected` | `app/src/crypto_helper.c:42-48` | changing any one byte changes the checksum |
| `Apdu.Device.ExtractHdPath` | `app/src/apdu_handler.c:36-51` | closes the session, stores the path when it is complete, and only then checks it; SessionRuns.PathWords and SessionRuns.MainnetBytes give the words and the check in bytes |
| `Apdu.Device.ProcessChunk` | `app/src/apdu_handler.c:53-92` | the three payload types, with every error exit and what it leaves behind |
| `Apdu.Device.TxParse` | `app/src/common/tx.c:70-89` | succeeds exactly when the buffer parses and every row of it can be shown |
| `Apdu.Device.HandleGetAddr` | `app/src/apdu_handler.c:94-111` | path extraction, then the reply, as the step function says; Replies.ReplyToAddress gives every answer in bytes |
| `Apdu.Device.HandleSign` | `app/src/apdu_handler.c:113-131` | a chunk, and the parse and review of a complete upload |
| `Apdu.Device.HandleApdu` | `app/src/apdu_handler.c:167-210` | the dispatch of a command |
| `SessionRuns.PathWords` | `app/src/apdu_handler.c:43` | the five words of a path are read least significant byte first |
| `SessionRuns.MainnetBytes` | `app/src/apdu_handler.c:45-46` | a path is accepted exactly when it starts with the bytes 2C 00 00 80 3E 01 00 80 |
| `Replies.ReplyToAddress` | `app/src/apdu_handler.c:94-111` | an address request, on its bytes: exactly which of the five answers it gets, review exactly for a P1 other than 0; the session is closed, the buffer kept, the path stored exactly when it is complete |
| `Replies.ReplyToFirstChunk` | `app/src/apdu_handler.c:60-66` | an INIT, on its bytes: exactly which answer, when it opens the session, and what it stores |
| `Replies.ReplyToLaterChunk` | `app/src/apdu_handler.c:67-88` | an ADD or LAST, on its bytes: exactly which answer, and the whole new state |
| `Replies.ReplyToOther` | `app/src/apdu_handler.c:167-210` | every other command, on its bytes: exactly which answer; the session is untouched |
| `Replies.ReviewExactlyWhen` | `app/src/apdu_handler.c:53-131` | over all commands: when a signing review starts, when an address review starts, and when the session is open afterwards |
| `Replies.PathExactlyWhen` | `app/src/apdu_handler.c:36-51` | over all commands: the path changes exactly when a command carries a complete one, even a refused one |
| `Replies.AcceptedTree` | `app/src/common/tx.c:70-89` | the buffered encoding of a tree is accepted exactly when the tree is a transaction all of whose rows can be shown |
| `Replies.ReviewOfRun` | `app/src/apdu_handler.c:53-131` | over every run: a stored LAST of an open session starts the signing review exactly when the payloads since the INIT encode such a transaction |
| `SessionRuns.ClosingStep` | `app/src/apdu_handler.c:36-92` | every command that is not a stored ADD, an accepted INIT or idle closes the session; only a stored LAST of an open session completes an upload |
| `SessionRuns.SessionInvariant` | `app/src/apdu_handler.c:34-111` | over every run: the session is open exactly when an accepted INIT was followed by nothing but stored ADDs and idle commands, and then holds that path and those payloads |
| `SessionRuns.CompletedUpload` | `app/src/apdu_handler.c:77-88` | over every run: process_chunk returns true exactly on a stored LAST of an open session; buffer = payloads since the INIT and the last one, path = the INIT's, 44'/318' |
| `SessionRuns.CompletionsAlternate` | `app/src/apdu_handler.c:61-88` | over every run: between two true returns lies an accepted INIT |
| `Client.SentIs` | `js/src/index.ts:74-84` | how the device classifies what the client sends |
| `Client.FirstChunk` | `js/src/index.ts:124-130` | the device's state after the path chunk |
| `Client.MiddleChunk` | `js/src/index.ts:132-138` | a data chunk extends the buffer or ends in an error with the session closed |
| `Client.LastChunk` | `js/src/index.ts:79-81` | the last chunk completes the upload or ends in an error; the session is closed |
| `Client.MoreProgress` | `js/src/index.ts:132-138` | one turn of the sign loop keeps the progress made or ends in the final outcome |
| `Client.LastProgress` | `js/src/index.ts:132-139` | the last turn reaches the final outcome |
| `Client.SignedTree` | `js/src/index.ts:124-141` | a delivered upload of an encoded tree ends with the review's outcome exactly when the tree is a transaction that can be shown, and with an error otherwise |
| `Client.Sign` | `js/src/index.ts:124-141` | client and device composed: a true return only for the last chunk of a deliverable upload, with the message in the buffer; any other upload ends in an error; the session is closed |

## Left out

- `tostring128` (app/src/uint256.c:497-520): unused by the parser, and nothing beyond `tostring256`.
- app/src/crypto.c and app/src/common/actions.h: key derivation, signing and I/O through the secure element.
- The address text (app/src/crypto_helper.c:50-85): its base58 code is not part of the repository; only `crc8` is modelled.
- Paging, hexadecimal and time formatting, and the buffering module: library code, taken as parameters.
- Canary, user-interface and version replies, the bytes of a reply, and error description texts.
- NULL pointer checks, except those of `keccak_hash`: every object of the model exists.
- Rlp.RlpRead: after an error neither the slot nor the cursor is described; no caller reads them.
- Rlp.RlpParseStream: after an error the slots already filled and their number are not described.
- Radix.Tostring256: after a failure the characters before the last one are not described.
- Parser.GetItem: after an error the key and value texts are not described, nor is the text in a buffer of length 0.
- Apdu.Device.HandleApdu: the PIN check before address and sign requests is library code and not modelled.
- Apdu.Device.TxParse: says only whether there is an error, not the text written into the reply.
- Commands that arrive while a review is on the screen: the operating system's event loop is not modelled.
- `prepareChunks` and the transport of the client library: the chunks are any list whose first one is the path.
- The test-only command behind APP_TESTING, and app/rust, which is not built into the app.
- The final clearing of the hash state (deps/tinykeccak/keccak-tiny.c:148): the array is local and no longer read.
