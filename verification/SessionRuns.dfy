/** Safety of the chunk protocol over whole runs of commands, stated on the bytes received. */
module SessionRuns {
  import opened Words
  import opened Display
  import opened Session
  import BigEndian

  // ---------- Paths, read off their bytes ----------

  /** 44'/318' as it is sent: two little-endian words. */
  predicate StartsMainnet(bytes: seq<u8>)
  {
    |bytes| >= 8 && bytes[..8] == [0x2C, 0x00, 0x00, 0x80, 0x3E, 0x01, 0x00, 0x80]
  }

  /** A word is the big-endian number of its four bytes reversed. */
  lemma WordValue(io: seq<u8>, k: nat)
    requires k + 4 <= |io|
    ensures Word(io, k) as int == BigEndian.Value([io[k + 3], io[k + 2], io[k + 1], io[k]])
  {
    hide BigEndian.Value;
    FourBytes(io[k + 3], io[k + 2], io[k + 1], io[k]);
  }

  lemma FourBytes(b3: u8, b2: u8, b1: u8, b0: u8)
    ensures BigEndian.Value([b3, b2, b1, b0]) == 0x100_0000 * b3 + 0x1_0000 * b2 + 0x100 * b1 + b0
  {
    hide BigEndian.Value;
    BigEndian.Snoc([b3, b2, b1], b0);
    BigEndian.Snoc([b3, b2], b1);
    BigEndian.Snoc([b3], b2);
    BigEndian.Snoc([], b3);
    BigEndian.AllZeros([]);
    assert [] + [b3] == [b3] && [b3] + [b2] == [b3, b2] && [b3, b2] + [b1] == [b3, b2, b1];
    assert [b3, b2, b1] + [b0] == [b3, b2, b1, b0];
  }

  /** The five words of a stored path, each with its least significant byte first. */
  lemma PathWords(io: seq<u8>, k: nat, j: nat)
    requires k + 20 <= |io| && j < 5
    ensures PathFrom(io, k)[j] as int
            == BigEndian.Value([io[k + 4 * j + 3], io[k + 4 * j + 2], io[k + 4 * j + 1], io[k + 4 * j]])
  {
    hide BigEndian.Value, Word;
    WordValue(io, k + 4 * j);
  }

  lemma WordIs(io: seq<u8>, k: nat, b0: u8, b1: u8, b2: u8, b3: u8)
    requires k + 4 <= |io|
    ensures Word(io, k) as int == b0 + 0x100 * b1 + 0x1_0000 * b2 + 0x100_0000 * b3
            <==> io[k] == b0 && io[k + 1] == b1 && io[k + 2] == b2 && io[k + 3] == b3
  {
    DigitsUnique(io[k], io[k + 1], io[k + 2], io[k + 3], b0, b1, b2, b3);
  }

  lemma DigitsUnique(a0: nat, a1: nat, a2: nat, a3: nat, b0: nat, b1: nat, b2: nat, b3: nat)
    requires a0 < 0x100 && a1 < 0x100 && a2 < 0x100 && b0 < 0x100 && b1 < 0x100 && b2 < 0x100
    ensures a0 + 0x100 * a1 + 0x1_0000 * a2 + 0x100_0000 * a3 == b0 + 0x100 * b1 + 0x1_0000 * b2 + 0x100_0000 * b3
            <==> a0 == b0 && a1 == b1 && a2 == b2 && a3 == b3
  {
    LowDigit(a0, a1 + 0x100 * a2 + 0x1_0000 * a3, b0, b1 + 0x100 * b2 + 0x1_0000 * b3);
    LowDigit(a1, a2 + 0x100 * a3, b1, b2 + 0x100 * b3);
    LowDigit(a2, a3, b2, b3);
  }

  lemma LowDigit(a: nat, m: nat, b: nat, n: nat)
    requires a < 0x100 && b < 0x100
    ensures a + 0x100 * m == b + 0x100 * n <==> a == b && m == n
  {
  }

  /** A path is accepted exactly when its first eight bytes are those of 44'/318'. */
  lemma MainnetBytes(io: seq<u8>, k: nat)
    requires k + 20 <= |io|
    ensures Mainnet(PathFrom(io, k)) <==> StartsMainnet(io[k..])
  {
    hide Word;
    WordIs(io, k, 0x2C, 0x00, 0x00, 0x80);
    WordIs(io, k + 4, 0x3E, 0x01, 0x00, 0x80);
    var head := io[k..][..8];
    assert head == [io[k], io[k + 1], io[k + 2], io[k + 3], io[k + 4], io[k + 5], io[k + 6], io[k + 7]];
  }

  // ---------- Kinds of commands, read off their bytes ----------

  predicate Addressed(c: Command)
  {
    c.io[0] == 0x88 && c.rx >= 5
  }

  predicate Signs(c: Command, payloadType: u8)
  {
    Addressed(c) && c.io[1] == 2 && c.io[2] == payloadType
  }

  /** A first chunk with a complete path that starts with 44'/318'. */
  predicate Opens(c: Command)
  {
    Signs(c, 0) && c.rx >= 25 && StartsMainnet(c.io[5..])
  }

  function OpenedPath(c: Command): Path
  {
    PathFrom(c.io, 5)
  }

  predicate Adds(c: Command)
  {
    Signs(c, 1) && Stored(c)
  }

  /** Commands that do not reach the session: foreign, short, unknown, the version request,
      and sign requests with an unknown payload type. */
  predicate Idle(c: Command)
  {
    || !Addressed(c)
    || (c.io[1] != 1 && c.io[1] != 2)
    || (c.io[1] == 2 && c.io[2] > 2)
  }

  // ---------- Runs ----------

  ghost function After(platform: Platform, start: State, cs: seq<Command>): State
  {
    if cs == [] then start
    else Step(platform, After(platform, start, cs[..|cs| - 1]), cs[|cs| - 1]).0
  }

  /** process_chunk returned true at command k. */
  ghost predicate CompletesAt(platform: Platform, start: State, cs: seq<Command>, k: nat)
    requires k < |cs|
  {
    Completes(Step(platform, After(platform, start, cs[..k]), cs[k]).1)
  }

  /** The payloads of the accepted ADD chunks, in order. */
  function Collected(cs: seq<Command>): seq<u8>
  {
    if cs == [] then [] else
      var c := cs[|cs| - 1];
      Collected(cs[..|cs| - 1]) + if Adds(c) then Payload(c) else []
  }

  /** Command i opened a session, and nothing after it closed or reopened it: in particular no
      address request and no other first or last chunk came later. */
  ghost predicate OpenSince(cs: seq<Command>, i: nat)
  {
    && i < |cs| && Opens(cs[i])
    && forall j :: i < j < |cs| ==> Adds(cs[j]) || Idle(cs[j])
  }

  // ---------- One step ----------

  lemma IdleStep(platform: Platform, s: State, c: Command)
    requires Idle(c)
    ensures Step(platform, s, c).0 == s && !Completes(Step(platform, s, c).1)
  {
  }

  lemma OpeningStep(platform: Platform, s: State, c: Command)
    requires Opens(c)
    ensures Step(platform, s, c) == (State(true, OpenedPath(c), []), Answer(StatusOk))
  {
    MainnetBytes(c.io, 5);
    hide PathFrom, Mainnet, StartsMainnet;
  }

  lemma AddingStep(platform: Platform, s: State, c: Command)
    requires Adds(c)
    ensures Step(platform, s, c) ==
              if s.initialized then (s.(buffer := s.buffer + Payload(c)), Answer(StatusOk))
              else (s, Answer(TxNotInitialized))
  {
  }

  /** Every other command leaves the session closed, and only a stored last chunk of an open
      session completes an upload. */
  lemma ClosingStep(platform: Platform, s: State, c: Command)
    requires !Idle(c) && !Opens(c) && !Adds(c)
    ensures var (t, r) := Step(platform, s, c);
            && !t.initialized
            && (Completes(r) <==> Signs(c, 2) && Stored(c) && s.initialized)
            && (Completes(r) ==> t.path == s.path && t.buffer == s.buffer + Payload(c))
            && (Completes(r) ==> r == if Accepted(platform, t.buffer) then SignReview else ParseError)
            && (c.io[1] == 2 ==> Completes(r) || (r.Answer? && r.status != StatusOk))
  {
    MainnetBytes(c.io, 5);
    hide Accepted, PathFrom, Payload, Stored, Mainnet, StartsMainnet;
  }

  // ---------- The invariant of every run ----------

  lemma OpenSinceStep(cs: seq<Command>, c: Command, i: nat)
    ensures i < |cs| ==> (OpenSince(cs + [c], i) <==> OpenSince(cs, i) && (Adds(c) || Idle(c)))
    ensures i == |cs| ==> (OpenSince(cs + [c], i) <==> Opens(c))
  {
    hide Adds, Idle, Opens;
    var all := cs + [c];
    if i < |cs| {
      assert all[|cs|] == c;
      assert forall j :: i <= j < |cs| ==> all[j] == cs[j];
    }
  }

  /** What the session holds after a run, told from the commands alone. */
  ghost predicate Faithful(s: State, cs: seq<Command>)
  {
    && (s.initialized <==> exists i: nat :: OpenSince(cs, i))
    && forall i: nat :: OpenSince(cs, i) ==>
         i < |cs| && s.path == OpenedPath(cs[i]) && s.buffer == Collected(cs[i + 1..])
  }

  lemma KindsExclude(c: Command)
    ensures Opens(c) ==> !Adds(c) && !Idle(c)
    ensures Adds(c) ==> !Idle(c)
    ensures Signs(c, 2) ==> !Opens(c) && !Adds(c) && !Idle(c)
  {
  }

  lemma FaithfulAfterOpening(platform: Platform, s: State, cs: seq<Command>, c: Command)
    requires Opens(c)
    ensures Faithful(Step(platform, s, c).0, cs + [c])
  {
    hide Step, Opens, Adds, Idle, OpenSince, Collected, OpenedPath, Payload;
    OpeningStep(platform, s, c);
    KindsExclude(c);
    OpenSinceStep(cs, c, |cs|);
    assert OpenSince(cs + [c], |cs|);
    forall i: nat | OpenSince(cs + [c], i) ensures i == |cs| {
      OpenSinceBound(cs + [c], i);
      OpenSinceStep(cs, c, i);
    }
    assert (cs + [c])[|cs| + 1..] == [];
    NothingCollected();
  }

  lemma OpenSinceBound(cs: seq<Command>, i: nat)
    requires OpenSince(cs, i)
    ensures i < |cs| && Opens(cs[i])
  {
  }

  lemma OpenSinceBetween(cs: seq<Command>, i: nat, k: nat)
    requires OpenSince(cs, i) && i < k < |cs|
    ensures Adds(cs[k]) || Idle(cs[k])
  {
  }

  lemma NothingCollected()
    ensures Collected([]) == []
  {
  }

  lemma OpenedIsMainnet(c: Command)
    requires Opens(c)
    ensures Mainnet(OpenedPath(c))
  {
    MainnetBytes(c.io, 5);
  }

  lemma FaithfulStart(start: State)
    requires !start.initialized
    ensures Faithful(start, [])
  {
  }

  lemma CollectedStep(cs: seq<Command>, c: Command, i: nat)
    requires i < |cs|
    ensures Collected((cs + [c])[i + 1..]) == Collected(cs[i + 1..]) + if Adds(c) then Payload(c) else []
  {
    hide Adds, Payload;
    var rest := cs[i + 1..];
    assert (cs + [c])[i + 1..] == rest + [c];
    assert (rest + [c])[..|rest|] == rest;
  }

  lemma FaithfulAfterContinuing(platform: Platform, s: State, cs: seq<Command>, c: Command)
    requires Faithful(s, cs) && (Adds(c) || Idle(c))
    ensures Faithful(Step(platform, s, c).0, cs + [c])
  {
    hide Step, Opens, Adds, Idle, OpenSince, Collected, OpenedPath, Payload;
    var t := Step(platform, s, c).0;
    KindsExclude(c);
    if Adds(c) {
      AddingStep(platform, s, c);
    } else {
      IdleStep(platform, s, c);
    }
    assert t.initialized == s.initialized && t.path == s.path;
    forall i: nat
      ensures OpenSince(cs + [c], i) <==> OpenSince(cs, i)
      ensures OpenSince(cs, i) ==> i < |cs| && t.path == OpenedPath((cs + [c])[i])
      ensures OpenSince(cs, i) ==> i < |cs| && t.buffer == Collected((cs + [c])[i + 1..])
    {
      OpenSinceStep(cs, c, i);
      if OpenSince(cs, i) {
        OpenSinceBound(cs, i);
        CollectedStep(cs, c, i);
        assert s.buffer + [] == s.buffer;
      } else if OpenSince(cs + [c], i) {
        OpenSinceBound(cs + [c], i);
      }
    }
  }

  lemma FaithfulAfterClosing(platform: Platform, s: State, cs: seq<Command>, c: Command)
    requires !Idle(c) && !Opens(c) && !Adds(c)
    ensures Faithful(Step(platform, s, c).0, cs + [c])
  {
    hide Step, Opens, Adds, Idle, OpenSince, Collected, OpenedPath, Payload, Signs, Stored, Accepted;
    ClosingStep(platform, s, c);
    forall i: nat ensures !OpenSince(cs + [c], i) {
      OpenSinceStep(cs, c, i);
      if OpenSince(cs + [c], i) {
        OpenSinceBound(cs + [c], i);
      }
    }
  }

  /** After every run the session is open exactly when an accepted first chunk was followed by
      nothing but stored chunks and idle commands; it then holds that chunk's path and the
      stored payloads since. */
  lemma {:induction false} SessionInvariant(platform: Platform, start: State, cs: seq<Command>)
    requires !start.initialized
    ensures Faithful(After(platform, start, cs), cs)
  {
    hide Step, Opens, Adds, Idle, Faithful;
    if cs == [] {
      FaithfulStart(start);
    } else {
      var before, c := cs[..|cs| - 1], cs[|cs| - 1];
      assert cs == before + [c];
      assert After(platform, start, cs) == Step(platform, After(platform, start, before), c).0;
      SessionInvariant(platform, start, before);
      if Opens(c) {
        FaithfulAfterOpening(platform, After(platform, start, before), before, c);
      } else if Adds(c) || Idle(c) {
        FaithfulAfterContinuing(platform, After(platform, start, before), before, c);
      } else {
        FaithfulAfterClosing(platform, After(platform, start, before), before, c);
      }
    }
  }

  // ---------- Completed uploads ----------

  /** process_chunk returns true exactly on a stored last chunk of an open session; the buffer
      is then the payloads stored since the session was opened followed by the last one, the
      path is the one the session was opened with, and the session is closed again. */
  lemma CompletedUpload(platform: Platform, start: State, cs: seq<Command>, k: nat)
    requires !start.initialized && k < |cs|
    ensures CompletesAt(platform, start, cs, k)
            <==> Signs(cs[k], 2) && Stored(cs[k]) && exists i: nat :: OpenSince(cs[..k], i)
    ensures CompletesAt(platform, start, cs, k) ==>
              var t := Step(platform, After(platform, start, cs[..k]), cs[k]).0;
              && !t.initialized
              && forall i: nat :: OpenSince(cs[..k], i) ==>
                   && t.path == OpenedPath(cs[i]) && Mainnet(t.path)
                   && t.buffer == Collected(cs[i + 1..k]) + Payload(cs[k])
  {
    hide Step, Opens, Adds, Idle, OpenSince, Collected, OpenedPath, Payload, After, Signs, Stored, Accepted;
    var s := After(platform, start, cs[..k]);
    var c := cs[k];
    SessionInvariant(platform, start, cs[..k]);
    KindsExclude(c);
    if Opens(c) {
      OpeningStep(platform, s, c);
    } else if Adds(c) {
      AddingStep(platform, s, c);
    } else if Idle(c) {
      IdleStep(platform, s, c);
    } else {
      ClosingStep(platform, s, c);
      forall i: nat | OpenSince(cs[..k], i)
        ensures i < k && cs[..k][i + 1..] == cs[i + 1..k] && Mainnet(OpenedPath(cs[i]))
      {
        OpenSinceBound(cs[..k], i);
        OpenedIsMainnet(cs[i]);
      }
    }
  }

  /** Every completed upload has an opening of its own: between two of them lies an accepted
      first chunk. */
  lemma CompletionsAlternate(platform: Platform, start: State, cs: seq<Command>, k: nat, m: nat)
    requires !start.initialized && k < m < |cs|
    ensures CompletesAt(platform, start, cs, k) && CompletesAt(platform, start, cs, m) ==>
              exists i :: k < i < m && Opens(cs[i])
  {
    hide *;
    CompletedUpload(platform, start, cs, k);
    CompletedUpload(platform, start, cs, m);
    if CompletesAt(platform, start, cs, k) && CompletesAt(platform, start, cs, m) {
      var i: nat :| OpenSince(cs[..m], i);
      OpenSinceBound(cs[..m], i);
      KindsExclude(cs[k]);
      if i < k {
        OpenSinceBetween(cs[..m], i, k);
        assert false;
      }
      assert i != k;
    }
  }
}
