/** apdu_handler.c: the handlers over the static session variables. A thrown status is a
    returned one here; the state changes made before the throw stay. */
module Apdu {
  import opened Words
  import opened ParserCommon
  import opened Tx
  import opened Display
  import opened DisplayProofs
  import opened Parser
  import opened Session

  class Device {
    const platform: Platform
    const hdPath: array<u32>
    const tx: Transaction
    var txInitialized: bool
    var buffer: seq<u8>

    constructor (platform: Platform)
      requires Stable(platform)
      ensures Layout() && fresh(Repr())
      ensures this.platform == platform && !txInitialized
    {
      this.platform := platform;
      hdPath := new u32[5](i => 0);
      tx := new Transaction();
      txInitialized, buffer := false, [];
    }

    ghost predicate Layout()
    {
      hdPath.Length == 5 && tx.Layout() && Stable(platform)
    }

    ghost function Repr(): set<object>
    {
      {this, hdPath, tx, tx.root, tx.fields, tx.extraFields, tx.extraToListFields}
    }

    ghost function Now(): State
      requires Layout()
      reads this, hdPath
    {
      State(txInitialized, hdPath[..], buffer)
    }

    // ---------- Derivation paths ----------

    method ExtractHdPath(c: Command, offset: nat) returns (status: Status)
      requires Layout() && offset == OFFSET_DATA
      modifies this`txInitialized, hdPath
      ensures (Now(), status) == ExtractStep(old(Now()), c)
    {
      txInitialized := false;
      if (c.rx - offset) % W32 < 4 * HDPATH_LEN {
        return WrongLength;
      }
      for i := 0 to HDPATH_LEN
        invariant !txInitialized
        invariant forall k: nat :: k < i ==> hdPath[k] == Word(c.io, offset + 4 * k)
      {
        hdPath[i] := Word(c.io, offset + 4 * i);
      }
      assert hdPath[..] == PathFrom(c.io, offset);
      var mainnet := hdPath[0] == HDPATH_0 && hdPath[1] == HDPATH_1;
      if !mainnet {
        return DataInvalid;
      }
      return StatusOk;
    }

    // ---------- Chunks ----------

    method TxInitialize()
      modifies this`buffer
      ensures buffer == []
    {
      buffer := [];
    }

    method TxAppend(c: Command) returns (added: u32)
      requires OFFSET_DATA <= c.rx
      modifies this`buffer
      ensures buffer == Appended(old(buffer), c) && (added == c.rx - OFFSET_DATA <==> Stored(c))
    {
      buffer := Appended(buffer, c);
      added := c.conditions.added;
    }

    method ProcessChunk(c: Command) returns (chunk: Chunk)
      requires Layout()
      modifies this`txInitialized, this`buffer, hdPath
      ensures (Now(), chunk) == ChunkStep(old(Now()), c)
    {
      hide ExtractStep, Appended, Stored;
      var payloadType := c.io[OFFSET_PAYLOAD_TYPE];
      if c.rx < OFFSET_DATA {
        return Thrown(WrongLength);
      }
      if payloadType == P1_INIT {
        TxInitialize();
        var status := ExtractHdPath(c, OFFSET_DATA);
        if status != StatusOk {
          return Thrown(status);
        }
        txInitialized := true;
        return More;
      } else if payloadType == P1_ADD {
        if !txInitialized {
          return Thrown(TxNotInitialized);
        }
        var added := TxAppend(c);
        if added != c.rx - OFFSET_DATA {
          txInitialized := false;
          return Thrown(OutputBufferTooSmall);
        }
        return More;
      } else if payloadType == P1_LAST {
        if !txInitialized {
          return Thrown(TxNotInitialized);
        }
        var added := TxAppend(c);
        txInitialized := false;
        if added != c.rx - OFFSET_DATA {
          txInitialized := false;
          return Thrown(OutputBufferTooSmall);
        }
        txInitialized := false;
        return Complete;
      }
      return Thrown(InvalidP1P2);
    }

    // ---------- Commands ----------

    /** tx_parse: the error is reduced to whether there is one. */
    method TxParse() returns (ok: bool)
      requires Layout()
      modifies tx, tx.root, tx.fields, tx.extraFields, tx.extraToListFields
      ensures ok <==> Accepted(platform, buffer)
    {
      hide ParseOutcome, Displayable, Acceptable, AllRowsShow, Stable, Transaction.View;
      var err := Parse(buffer, tx);
      if err != Ok {
        return false;
      }
      ParsedIsDisplayable(buffer);
      AcceptedExactlyWhen(platform, buffer, tx.View());
      err := Validate(platform, buffer, tx);
      return err == Ok;
    }

    method HandleGetAddr(c: Command) returns (reply: Reply)
      requires Layout() && c.rx >= APDU_MIN_LENGTH
      modifies this`txInitialized, hdPath
      ensures (Now(), reply) == AddressStep(old(Now()), c)
    {
      hide ExtractStep;
      var status := ExtractHdPath(c, OFFSET_DATA);
      if status != StatusOk {
        return Answer(status);
      }
      var requireConfirmation := c.io[OFFSET_PAYLOAD_TYPE];
      if !c.conditions.addressFilled {
        return Answer(ExecutionError);
      }
      if requireConfirmation != 0 {
        return AddressReview;
      }
      return Answer(StatusOk);
    }

    method HandleSign(c: Command) returns (reply: Reply)
      requires Layout()
      modifies Repr()
      ensures (Now(), reply) == SignStep(platform, old(Now()), c)
    {
      hide ChunkStep, Accepted;
      var chunk := ProcessChunk(c);
      if chunk.Thrown? {
        return Answer(chunk.status);
      }
      if chunk == More {
        return Answer(StatusOk);
      }
      var ok := TxParse();
      if !ok {
        return ParseError;
      }
      return SignReview;
    }

    method HandleApdu(c: Command) returns (reply: Reply)
      requires Layout()
      modifies Repr()
      ensures (Now(), reply) == Step(platform, old(Now()), c)
    {
      hide AddressStep, SignStep;
      if c.io[OFFSET_CLA] != CLA {
        return Answer(ClaNotSupported);
      }
      if c.rx < APDU_MIN_LENGTH {
        return Answer(WrongLength);
      }
      if c.io[OFFSET_INS] == INS_GET_VERSION {
        return Answer(StatusOk);
      } else if c.io[OFFSET_INS] == INS_GET_ADDR {
        reply := HandleGetAddr(c);
      } else if c.io[OFFSET_INS] == INS_SIGN {
        reply := HandleSign(c);
      } else {
        return Answer(InsNotSupported);
      }
    }
  }
}
