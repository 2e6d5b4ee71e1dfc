/** The replies of the device and what a command leaves behind, stated on the bytes received:
    for every reply exactly the commands and sessions that cause it. */
module Replies {
  import opened Words
  import opened ParserCommon
  import opened RlpTree
  import opened TxTree
  import opened Display
  import opened DisplayProofs
  import opened DisplayTree
  import opened Parser
  import opened Session
  import opened SessionRuns
  import BigEndian

  /** An address request, or the first chunk of an upload: the commands that carry a path. */
  predicate CarriesPath(c: Command)
  {
    Addressed(c) && (c.io[1] == 1 || (c.io[1] == 2 && c.io[2] == 0))
  }

  predicate MainnetPath(c: Command)
  {
    c.rx >= 25 && c.io[5..13] == [0x2C, 0x00, 0x00, 0x80, 0x3E, 0x01, 0x00, 0x80]
  }

  /** A later chunk that reaches an open session. */
  predicate Continues(s: State, c: Command)
  {
    s.initialized && (Signs(c, 1) || Signs(c, 2))
  }

  /** The chunk is stored as a whole. */
  predicate AllAdded(c: Command)
  {
    c.rx >= 5 && c.conditions.added as int == c.rx - 5
  }

  lemma StoredMeans(c: Command)
    requires c.rx >= 5
    ensures Payload(c) == c.io[5..c.rx] && (Stored(c) <==> AllAdded(c))
  {
  }

  lemma MainnetMeans(c: Command)
    requires c.rx >= 25
    ensures Mainnet(PathFrom(c.io, 5)) <==> MainnetPath(c)
    ensures Opens(c) <==> Signs(c, 0) && MainnetPath(c)
  {
    MainnetBytes(c.io, 5);
    assert c.io[5..][..8] == c.io[5..13];
    hide PathFrom, Mainnet;
  }

  /** The bytes of a command as words of a path, each least significant byte first. */
  ghost predicate HoldsPath(path: Path, c: Command)
  {
    forall j: nat :: j < 5 ==>
      path[j] as int == BigEndian.Value([c.io[8 + 4 * j], c.io[7 + 4 * j], c.io[6 + 4 * j], c.io[5 + 4 * j]])
  }

  lemma PathHeld(c: Command)
    ensures HoldsPath(PathFrom(c.io, 5), c)
  {
    hide BigEndian.Value, PathFrom;
    forall j: nat | j < 5
      ensures PathFrom(c.io, 5)[j] as int
              == BigEndian.Value([c.io[8 + 4 * j], c.io[7 + 4 * j], c.io[6 + 4 * j], c.io[5 + 4 * j]])
    {
      PathWords(c.io, 5, j);
    }
  }

  // ---------- Address requests ----------

  /** An address request: which of the five answers it gets, and what it does to the session.
      The address is shown for review exactly when the second parameter byte is not 0. */
  lemma ReplyToAddress(platform: Platform, s: State, c: Command)
    requires Addressed(c) && c.io[1] == 1
    ensures var (t, r) := Step(platform, s, c);
            && (r == AddressReview <==> MainnetPath(c) && c.conditions.addressFilled && c.io[2] != 0)
            && (r == Answer(StatusOk) <==> MainnetPath(c) && c.conditions.addressFilled && c.io[2] == 0)
            && (r == Answer(ExecutionError) <==> MainnetPath(c) && !c.conditions.addressFilled)
            && (r == Answer(DataInvalid) <==> c.rx >= 25 && !MainnetPath(c))
            && (r == Answer(WrongLength) <==> c.rx < 25)
            && !t.initialized && t.buffer == s.buffer
            && (c.rx >= 25 ==> HoldsPath(t.path, c))
            && (c.rx < 25 ==> t.path == s.path)
  {
    if c.rx >= 25 {
      MainnetMeans(c);
      PathHeld(c);
    }
    hide Mainnet, PathFrom, HoldsPath;
  }

  // ---------- Every command ----------

  /** The first chunk of an upload. The old payloads are gone even when it is refused. */
  lemma ReplyToFirstChunk(platform: Platform, s: State, c: Command)
    requires Signs(c, 0)
    ensures var (t, r) := Step(platform, s, c);
            && (r == Answer(StatusOk) <==> MainnetPath(c))
            && (r == Answer(DataInvalid) <==> c.rx >= 25 && !MainnetPath(c))
            && (r == Answer(WrongLength) <==> c.rx < 25)
            && (t.initialized <==> MainnetPath(c)) && t.buffer == []
            && (c.rx >= 25 ==> HoldsPath(t.path, c))
            && (c.rx < 25 ==> t.path == s.path)
  {
    if c.rx >= 25 {
      MainnetMeans(c);
      PathHeld(c);
    }
    hide Mainnet, PathFrom, HoldsPath;
  }

  /** A later chunk: refused without effect when no session is open. */
  lemma ReplyToLaterChunk(platform: Platform, s: State, c: Command)
    requires Signs(c, 1) || Signs(c, 2)
    ensures var (t, r) := Step(platform, s, c);
            && (r == Answer(TxNotInitialized) <==> !s.initialized)
            && (r == Answer(OutputBufferTooSmall) <==> s.initialized && !AllAdded(c))
            && (r == Answer(StatusOk) <==> s.initialized && AllAdded(c) && c.io[2] == 1)
            && (r == SignReview <==>
                  s.initialized && AllAdded(c) && c.io[2] == 2 && Accepted(platform, s.buffer + c.io[5..c.rx]))
            && (r == ParseError <==>
                  s.initialized && AllAdded(c) && c.io[2] == 2 && !Accepted(platform, s.buffer + c.io[5..c.rx]))
            && (t.initialized <==> s.initialized && AllAdded(c) && c.io[2] == 1)
            && t.path == s.path
            && t.buffer == (if !s.initialized then s.buffer
                            else if AllAdded(c) then s.buffer + c.io[5..c.rx] else c.conditions.residue)
  {
    StoredMeans(c);
    hide Accepted, Payload, Stored, AllAdded, ExtractStep;
  }

  /** Every other command leaves the session as it was. */
  lemma ReplyToOther(platform: Platform, s: State, c: Command)
    requires Idle(c)
    ensures var (t, r) := Step(platform, s, c);
            && t == s && r.Answer?
            && (r.status == ClaNotSupported <==> c.io[0] != 0x88)
            && (r.status == WrongLength <==> c.io[0] == 0x88 && c.rx < 5)
            && (r.status == StatusOk <==> Addressed(c) && c.io[1] == 0)
            && (r.status == InsNotSupported <==> Addressed(c) && c.io[1] > 2)
            && (r.status == InvalidP1P2 <==> Addressed(c) && c.io[1] == 2)
  {
    hide ExtractStep, Payload, Stored, Accepted;
  }

  /** The review that ends in a signature starts in one way only. */
  lemma ReviewExactlyWhen(platform: Platform, s: State, c: Command)
    ensures Step(platform, s, c).1 == SignReview
            <==> Continues(s, c) && c.io[2] == 2 && AllAdded(c) && Accepted(platform, s.buffer + c.io[5..c.rx])
    ensures Step(platform, s, c).1 == AddressReview
            <==> CarriesPath(c) && c.io[1] == 1 && MainnetPath(c) && c.conditions.addressFilled && c.io[2] != 0
    ensures Step(platform, s, c).0.initialized
            <==> || (Signs(c, 0) && MainnetPath(c))
                 || (Continues(s, c) && c.io[2] == 1 && AllAdded(c))
                 || (s.initialized && Idle(c))
  {
    hide Step, MainnetPath, AllAdded, Accepted, HoldsPath;
    if Idle(c) {
      ReplyToOther(platform, s, c);
    } else if Signs(c, 0) {
      ReplyToFirstChunk(platform, s, c);
    } else if Signs(c, 1) || Signs(c, 2) {
      ReplyToLaterChunk(platform, s, c);
    } else {
      ReplyToAddress(platform, s, c);
    }
  }

  /** The stored path changes only when a command carries a complete one. */
  lemma PathExactlyWhen(platform: Platform, s: State, c: Command)
    ensures CarriesPath(c) && c.rx >= 25 ==> HoldsPath(Step(platform, s, c).0.path, c)
    ensures !CarriesPath(c) || c.rx < 25 ==> Step(platform, s, c).0.path == s.path
  {
    hide Step, MainnetPath, AllAdded, Accepted, HoldsPath;
    if Idle(c) {
      ReplyToOther(platform, s, c);
    } else if Signs(c, 0) {
      ReplyToFirstChunk(platform, s, c);
    } else if Signs(c, 1) || Signs(c, 2) {
      ReplyToLaterChunk(platform, s, c);
    } else {
      ReplyToAddress(platform, s, c);
    }
  }

  // ---------- From the bytes of an upload to its review ----------

  /** The message a complete upload leaves in the buffer is accepted exactly when the tree it
      encodes is a transaction all of whose rows can be shown. */
  lemma AcceptedTree(platform: Platform, t: Tree, e: seq<u8>)
    requires Encode(t) == Some(e) && |e| < 0x1_0000
    ensures Accepted(platform, e) <==> IsTransaction(t) && IsShowable(platform, t)
  {
    hide Encode, ParseOutcome, Displayable, Acceptable, IsTransaction, IsShowable, AllRowsShow, Stores, MessageCode;
    MessageAcceptedExactlyWhen(platform, t, e);
    if IsTransaction(t) {
      AcceptedExactlyWhen(platform, e, ParseOutcome(e).value);
    }
  }

  /** Over every run: the last chunk of an open session starts the signing review exactly when
      the payloads stored since the session was opened, with its own, encode a transaction all
      of whose rows can be shown; otherwise it is answered with the error of the parser. */
  lemma ReviewOfRun(platform: Platform, start: State, cs: seq<Command>, i: nat, k: nat, t: Tree)
    requires !start.initialized && k < |cs|
    requires OpenSince(cs[..k], i) && Signs(cs[k], 2) && AllAdded(cs[k])
    requires Encode(t) == Some(Collected(cs[i + 1..k]) + cs[k].io[5..cs[k].rx])
    requires |Collected(cs[i + 1..k])| + cs[k].rx - 5 < 0x1_0000
    ensures Step(platform, After(platform, start, cs[..k]), cs[k]).1
            == if IsTransaction(t) && IsShowable(platform, t) then SignReview else ParseError
  {
    var s, c := After(platform, start, cs[..k]), cs[k];
    StoredMeans(c);
    hide Step, Opens, Adds, Idle, OpenSince, Collected, OpenedPath, Payload, After, Stored, Accepted, IsTransaction,
         IsShowable, Encode, AllAdded;
    SessionInvariant(platform, start, cs[..k]);
    assert cs[..k][i + 1..] == cs[i + 1..k];
    ReplyToLaterChunk(platform, s, c);
    AcceptedTree(platform, t, s.buffer + c.io[5..c.rx]);
  }
}
