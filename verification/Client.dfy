/** The client side of the chunk protocol in js/src/index.ts, driving the device model. */
module Client {
  import opened Words
  import opened Display
  import opened Session
  import opened SessionRuns
  import opened Apdu
  import opened ParserCommon
  import opened RlpTree
  import opened TxTree
  import opened DisplayTree
  import opened Replies

  /** What surrounds one exchange: the device's conditions and the old contents of its buffer. */
  datatype Surroundings = Surroundings(conditions: Conditions, stale: seq<u8>)

  type Exchange = e: Surroundings | |e.stale| == 260
    witness Surroundings(Conditions(0, [], false, StatusOk), seq(260, i => 0))

  type Packet = c: seq<u8> | |c| <= 250

  // ---------- Commands ----------

  function PayloadType(chunkIdx: nat, chunkNum: nat): u8
  {
    if chunkIdx == chunkNum then 2 else if chunkIdx == 1 then 0 else 1
  }

  function Sent(payloadType: u8, chunk: Packet, e: Exchange): (c: Command)
    ensures c.rx == 5 + |chunk| && c.io[5..c.rx] == chunk && Payload(c) == chunk
  {
    var io := [0x88, 2, payloadType, 0, |chunk|] + chunk + e.stale[5 + |chunk|..];
    assert io[5..5 + |chunk|] == chunk;
    Received(io, 5 + |chunk|, e.conditions)
  }

  /** What the client reads as the return code of an exchange. */
  function ReturnCode(reply: Reply, e: Exchange): Status
  {
    match reply
    case Answer(status) => status
    case ParseError => DataInvalid
    case SignReview => e.conditions.decision
    case AddressReview => e.conditions.decision
  }

  predicate PathAccepted(chunk: Packet)
  {
    |chunk| >= 20 && StartsMainnet(chunk)
  }

  predicate Fits(chunk: Packet, e: Exchange)
  {
    e.conditions.added == |chunk|
  }

  function Joined(chunks: seq<Packet>): seq<u8>
  {
    if chunks == [] then [] else Joined(chunks[..|chunks| - 1]) + chunks[|chunks| - 1]
  }

  // ---------- What the device answers ----------

  lemma SentIs(payloadType: u8, chunk: Packet, e: Exchange)
    ensures var c := Sent(payloadType, chunk, e);
            && (forall p :: Signs(c, p) <==> p == payloadType)
            && c.io[1] == 2
            && (Stored(c) <==> Fits(chunk, e))
            && (Adds(c) <==> payloadType == 1 && Fits(chunk, e))
            && (Opens(c) <==> payloadType == 0 && PathAccepted(chunk))
            && (PathAccepted(chunk) ==> OpenedPath(c) == PathFrom(chunk, 0))
            && (Idle(c) <==> payloadType > 2)
  {
    var c := Sent(payloadType, chunk, e);
    assert forall i :: 0 <= i < |chunk| ==> c.io[5 + i] == c.io[5..c.rx][i];
    if |chunk| >= 20 {
      assert c.io[5..][..8] == chunk[..8];
    }
  }

  lemma FirstChunk(platform: Platform, s: State, chunk: Packet, e: Exchange)
    ensures var (t, r) := Step(platform, s, Sent(0, chunk, e));
            && r.Answer?
            && (PathAccepted(chunk) ==> t == State(true, PathFrom(chunk, 0), []))
            && (!PathAccepted(chunk) ==> !t.initialized)
  {
    hide Step, Opens, Adds, Idle, Stored, Signs, Sent, PathFrom, PathAccepted, Accepted;
    var c := Sent(0, chunk, e);
    SentIs(0, chunk, e);
    if PathAccepted(chunk) {
      OpeningStep(platform, s, c);
    } else {
      ClosingStep(platform, s, c);
      assert Signs(c, 0) && !Signs(c, 2);
    }
  }

  lemma MiddleChunk(platform: Platform, s: State, chunk: Packet, e: Exchange)
    ensures var (t, r) := Step(platform, s, Sent(1, chunk, e));
            && r.Answer?
            && (r.status == StatusOk <==> s.initialized && Fits(chunk, e))
            && (r.status == StatusOk ==> t == s.(buffer := s.buffer + chunk))
            && (r.status != StatusOk ==> !t.initialized)
  {
    hide Step, Opens, Adds, Idle, Stored, Signs, Sent, PathFrom, PathAccepted, Accepted, Fits;
    var c := Sent(1, chunk, e);
    SentIs(1, chunk, e);
    if Fits(chunk, e) {
      AddingStep(platform, s, c);
    } else {
      ClosingStep(platform, s, c);
      assert Signs(c, 1) && !Signs(c, 2);
    }
  }

  lemma LastChunk(platform: Platform, s: State, chunk: Packet, e: Exchange)
    ensures var (t, r) := Step(platform, s, Sent(2, chunk, e));
            && !t.initialized
            && (Completes(r) <==> s.initialized && Fits(chunk, e))
            && (Completes(r) ==> t.path == s.path && t.buffer == s.buffer + chunk)
            && (Completes(r) ==> r == if Accepted(platform, t.buffer) then SignReview else ParseError)
            && (!Completes(r) ==> r.Answer? && r.status != StatusOk)
  {
    hide Step, Opens, Adds, Idle, Stored, Signs, Sent, PathFrom, PathAccepted, Accepted, Fits, Completes;
    var c := Sent(2, chunk, e);
    SentIs(2, chunk, e);
    ClosingStep(platform, s, c);
    assert Signs(c, 2);
  }

  // ---------- The client ----------

  method SignSendChunk(device: Device, chunkIdx: nat, chunkNum: nat, chunk: Packet, e: Exchange)
    returns (returnCode: Status, ghost reply: Reply)
    requires device.Layout()
    modifies device.Repr()
    ensures (device.Now(), reply) ==
              Step(device.platform, old(device.Now()), Sent(PayloadType(chunkIdx, chunkNum), chunk, e))
    ensures returnCode == ReturnCode(reply, e)
  {
    hide Step, Sent, ReturnCode;
    var payloadType := P1_ADD;
    if chunkIdx == 1 {
      payloadType := P1_INIT;
    }
    if chunkIdx == chunkNum {
      payloadType := P1_LAST;
    }
    var answer := device.HandleApdu(Sent(payloadType, chunk, e));
    reply := answer;
    returnCode := ReturnCode(answer, e);
  }

  /** Every chunk after the first is stored. */
  predicate AllFit(chunks: seq<Packet>, es: seq<Exchange>)
  {
    |es| == |chunks| && forall k :: 1 <= k < |chunks| ==> Fits(chunks[k], es[k])
  }

  predicate Deliverable(chunks: seq<Packet>, es: seq<Exchange>)
    requires |chunks| >= 1
  {
    PathAccepted(chunks[0]) && AllFit(chunks, es)
  }

  /** What the client and the device have reached when the sign loop ends: process_chunk returned
      true for the last chunk of a deliverable upload and for nothing else, with the joined
      data chunks in the buffer; any other upload ends in an error; the session is closed. */
  ghost predicate Outcome(platform: Platform, chunks: seq<Packet>, es: seq<Exchange>, s: State,
                          result: Status, replies: seq<Reply>)
    requires |chunks| >= 2 && |es| == |chunks|
  {
    && 1 <= |replies| <= |chunks| && !s.initialized
    && (forall k :: 0 <= k < |replies| ==>
          (Completes(replies[k]) <==> k == |chunks| - 1 && Deliverable(chunks, es)))
    && (Deliverable(chunks, es) ==>
          && |replies| == |chunks|
          && s.path == PathFrom(chunks[0], 0) && s.buffer == Joined(chunks[1..])
          && result == if Accepted(platform, s.buffer) then es[|es| - 1].conditions.decision else DataInvalid)
    && (!Deliverable(chunks, es) ==> result != StatusOk)
  }

  /** The state before chunk i, for i >= 1, when no later answer was an error. */
  ghost predicate Progress(chunks: seq<Packet>, es: seq<Exchange>, i: nat, s: State, replies: seq<Reply>)
    requires 1 <= i < |chunks| == |es|
  {
    && |replies| == i
    && (forall k :: 0 <= k < i ==> replies[k].Answer?)
    && (forall k :: 1 <= k < i ==> Fits(chunks[k], es[k]))
    && (PathAccepted(chunks[0]) ==> s == State(true, PathFrom(chunks[0], 0), Joined(chunks[1..i])))
    && (!PathAccepted(chunks[0]) ==> !s.initialized && i == 1)
  }

  lemma JoinedStep(chunks: seq<Packet>, i: nat)
    requires 1 <= i < |chunks|
    ensures Joined(chunks[1..i]) + chunks[i] == Joined(chunks[1..i + 1])
  {
    var more := chunks[1..i + 1];
    assert more[|more| - 1] == chunks[i] && more[..|more| - 1] == chunks[1..i];
  }

  lemma StartProgress(platform: Platform, chunks: seq<Packet>, es: seq<Exchange>, s: State)
    requires |chunks| >= 2 && |es| == |chunks|
    ensures var (t, r) := Step(platform, s, Sent(0, chunks[0], es[0]));
            Progress(chunks, es, 1, t, [r])
  {
    hide Step, Sent, PathFrom, PathAccepted, Fits;
    FirstChunk(platform, s, chunks[0], es[0]);
    assert Joined(chunks[1..1]) == [];
  }

  lemma MoreProgress(platform: Platform, chunks: seq<Packet>, es: seq<Exchange>, i: nat, s: State, replies: seq<Reply>)
    requires 1 <= i < |chunks| - 1 && |es| == |chunks| && Progress(chunks, es, i, s, replies)
    ensures var (t, r) := Step(platform, s, Sent(1, chunks[i], es[i]));
            var code := ReturnCode(r, es[i]);
            && (code == StatusOk ==> Progress(chunks, es, i + 1, t, replies + [r]))
            && (code != StatusOk ==> Outcome(platform, chunks, es, t, code, replies + [r]))
  {
    hide Step, Sent, PathFrom, PathAccepted, Fits, Accepted;
    MiddleChunk(platform, s, chunks[i], es[i]);
    JoinedStep(chunks, i);
  }

  lemma LastProgress(platform: Platform, chunks: seq<Packet>, es: seq<Exchange>, i: nat, s: State, replies: seq<Reply>)
    requires 1 <= i == |chunks| - 1 && |es| == |chunks| && Progress(chunks, es, i, s, replies)
    ensures var (t, r) := Step(platform, s, Sent(2, chunks[i], es[i]));
            Outcome(platform, chunks, es, t, ReturnCode(r, es[i]), replies + [r])
  {
    hide Step, Sent, PathFrom, PathAccepted, Fits, Accepted;
    LastChunk(platform, s, chunks[i], es[i]);
    JoinedStep(chunks, i);
    assert chunks[1..i + 1] == chunks[1..];
  }

  /** Signing an encoded tree: the review is reached exactly for the transactions that can be
      shown. */
  lemma SignedTree(platform: Platform, chunks: seq<Packet>, es: seq<Exchange>, s: State,
                   result: Status, replies: seq<Reply>, t: Tree)
    requires |chunks| >= 2 && |es| == |chunks|
    ensures Outcome(platform, chunks, es, s, result, replies) && Deliverable(chunks, es)
            && Encode(t) == Some(Joined(chunks[1..])) && |Joined(chunks[1..])| < 0x1_0000 ==>
              result == if IsTransaction(t) && IsShowable(platform, t) then es[|es| - 1].conditions.decision
                        else DataInvalid
  {
    hide Deliverable, Accepted, Encode, IsTransaction, IsShowable, Joined, PathFrom, Completes;
    if Encode(t) == Some(Joined(chunks[1..])) && |Joined(chunks[1..])| < 0x1_0000 {
      AcceptedTree(platform, t, Joined(chunks[1..]));
    }
  }

  /** The sign loop: the first answer is not looked at, any later error ends it. Whatever session
      was open before does not matter, except to an upload of a path alone: its only chunk is
      sent as a last one and completes the session left open before, if there is one. */
  method Sign(device: Device, chunks: seq<Packet>, es: seq<Exchange>)
    returns (result: Status, ghost replies: seq<Reply>)
    requires device.Layout() && |chunks| >= 1 && |es| == |chunks|
    modifies device.Repr()
    ensures |chunks| >= 2 ==> Outcome(device.platform, chunks, es, device.Now(), result, replies)
    ensures |chunks| == 1 ==>
              && |replies| == 1 && !device.txInitialized
              && (Completes(replies[0]) <==> old(device.txInitialized) && Fits(chunks[0], es[0]))
              && (Completes(replies[0]) ==> device.buffer == old(device.buffer) + chunks[0])
  {
    hide Step, Sent, PathFrom, PathAccepted, Accepted, Fits, Completes, Progress, Outcome, Joined, ReturnCode;
    var n := |chunks|;
    ghost var s := device.Now();
    ghost var reply;
    result, reply := SignSendChunk(device, 1, n, chunks[0], es[0]);
    replies := [reply];
    ghost var first, after := reply, device.Now();
    if n == 1 {
      LastChunk(device.platform, s, chunks[0], es[0]);
    } else {
      StartProgress(device.platform, chunks, es, s);
    }
    var i := 1;
    while i < n
      invariant 1 <= i <= n
      invariant i < n ==> Progress(chunks, es, i, device.Now(), replies)
      invariant i == n >= 2 ==> Outcome(device.platform, chunks, es, device.Now(), result, replies)
      invariant n == 1 ==> replies == [first] && device.Now() == after
    {
      s := device.Now();
      if i < n - 1 {
        MoreProgress(device.platform, chunks, es, i, s, replies);
      } else {
        LastProgress(device.platform, chunks, es, i, s, replies);
      }
      result, reply := SignSendChunk(device, 1 + i, n, chunks[i], es[i]);
      replies := replies + [reply];
      if result != StatusOk {
        assert Outcome(device.platform, chunks, es, device.Now(), result, replies);
        break;
      }
      i := i + 1;
    }
  }
}
