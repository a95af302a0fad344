/**
 * Stored units against the event log itself: what a token received minus what it sent.
 * The index writes copies back (`to` after `from`) and a mint assigns instead of adding,
 * so the two agree only on some logs; the lemmas say exactly which.
 */
module SubgraphLedger {
  import opened Text
  import opened SubgraphStore
  import opened Sums

  // -------------------------------------------------- the independent ledger

  predicate Into(r: Row, c: Address, t: nat) { r.contract == c && r.toID == t }

  predicate OutOf(r: Row, c: Address, t: nat) { r.contract == c && r.fromID == t }

  /** What one row moves into the token, less what it moves out. */
  function Signed(r: Row, c: Address, t: nat): int {
    (if Into(r, c, t) then r.value else 0) - (if OutOf(r, c, t) then r.value else 0)
  }

  function SignedFor(c: Address, t: nat): Row -> int { r => Signed(r, c, t) }

  function Net(rows: seq<Row>, c: Address, t: nat): int { Total(rows, SignedFor(c, t)) }

  predicate Mints(r: Row, c: Address, t: nat) { Into(r, c, t) && r.fromID == 0 && t != 0 }

  /** What a row from the token to itself carries: nothing moves, yet the index credits it. */
  function SelfFor(c: Address, t: nat): Row -> int {
    r => if Into(r, c, t) && OutOf(r, c, t) then r.value else 0
  }

  function SelfVolume(rows: seq<Row>, c: Address, t: nat): int { Total(rows, SelfFor(c, t)) }

  function RowsOfLog(log: seq<Call>): seq<Row> {
    if log == [] then [] else RowsOfLog(log[..|log| - 1]) + RowsOf(log[|log| - 1].event)
  }

  // --------------------------------------------- what the store records

  /** The units on record after a row, as a function of the units before it. */
  function RowEffect(r: Row, before: int, c: Address, t: nat): int {
    if t == 0 then before
    else if Mints(r, c, t) then r.value
    else if Into(r, c, t) then before + r.value
    else if OutOf(r, c, t) then before - r.value
    else before
  }

  function Recorded(start: int, rows: seq<Row>, c: Address, t: nat): int {
    if rows == [] then start else RowEffect(rows[|rows| - 1], Recorded(start, rows[..|rows| - 1], c, t), c, t)
  }

  /** The write-back of one row, key by key. */
  lemma RowWrites(tokens: Tokens, r: Row, ownerOf: OwnerOf, id: string)
    requires var loaded := EnsureBoth(tokens, r, ownerOf);
             loaded[FromKey(r)].tokenID == r.fromID && loaded[ToKey(r)].tokenID == r.toID && id in loaded
    ensures var loaded, after := EnsureBoth(tokens, r, ownerOf), ApplyRow(tokens, r, ownerOf);
            && id in after
            && after[id].units ==
               if id == ToKey(r) && r.toID != 0 then (if r.fromID == 0 then 0 else loaded[id].units) + r.value
               else if id == FromKey(r) && id != ToKey(r) && r.fromID != 0 then loaded[id].units - r.value
               else loaded[id].units
  {
  }

  lemma RowUnits(tokens: Tokens, r: Row, ownerOf: OwnerOf, c: Address, t: nat)
    requires Indexed(tokens)
    ensures Units(ApplyRow(tokens, r, ownerOf), c, t) == RowEffect(r, Units(tokens, c, t), c, t)
  {
    var loaded, id := EnsureBoth(tokens, r, ownerOf), GetID(t, c);
    EnsureBothKeepsIndexed(tokens, r, ownerOf);
    EnsureBothUnits(tokens, r, ownerOf, c, t);
    RowRewritesUnits(tokens, r, ownerOf);
    if id == FromKey(r) { GetIDInjective(t, c, r.fromID, r.contract); }
    if id == ToKey(r) { GetIDInjective(t, c, r.toID, r.contract); }
    if id in loaded { RowWrites(tokens, r, ownerOf, id); }
  }

  lemma EnsureBothUnits(tokens: Tokens, r: Row, ownerOf: OwnerOf, c: Address, t: nat)
    ensures Units(EnsureBoth(tokens, r, ownerOf), c, t) == Units(tokens, c, t)
  {
    var first := Ensure(tokens, r.claimID, r.fromID, r.contract, ownerOf);
    assert Units(first, c, t) == Units(tokens, c, t);
  }

  lemma {:induction false} RowsUnits(tokens: Tokens, rows: seq<Row>, ownerOf: OwnerOf, c: Address, t: nat)
    requires Indexed(tokens)
    ensures Units(ApplyRows(tokens, rows, ownerOf), c, t) == Recorded(Units(tokens, c, t), rows, c, t)
  {
    if rows == [] {
    } else {
      var front := rows[..|rows| - 1];
      RowsUnits(tokens, front, ownerOf, c, t);
      RowsKeepIndexed(tokens, front, ownerOf);
      RowUnits(ApplyRows(tokens, front, ownerOf), rows[|rows| - 1], ownerOf, c, t);
    }
  }

  lemma StepUnits(tokens: Tokens, e: Event, ownerOf: OwnerOf, c: Address, t: nat)
    requires Indexed(tokens)
    ensures Units(StepTokens(tokens, e, ownerOf), c, t) == Recorded(Units(tokens, c, t), RowsOf(e), c, t)
  {
    if !e.TransferSingle? {
      RowsUnits(tokens, RowsOf(e), ownerOf, c, t);
      RowsKeepIndexed(tokens, RowsOf(e), ownerOf);
      var after := ApplyRows(tokens, RowsOf(e), ownerOf);
      if Traps(e) {
        var n := CompleteRows(e);
        DanglingKeepsIndexed(after, e, ownerOf);
        if n < |e.fromTokenIDs| {
          var first := Ensure(after, e.claimIDs[n], e.fromTokenIDs[n], e.address, ownerOf);
          assert Units(first, c, t) == Units(after, c, t);
        }
      }
    }
  }

  lemma {:induction false} RecordedConcat(start: int, a: seq<Row>, b: seq<Row>, c: Address, t: nat)
    ensures Recorded(start, a + b, c, t) == Recorded(Recorded(start, a, c, t), b, c, t)
  {
    if b == [] {
      assert a + b == a;
    } else {
      assert (a + b)[..|a + b| - 1] == a + b[..|b| - 1];
      RecordedConcat(start, a, b[..|b| - 1], c, t);
    }
  }

  /** Whatever else a log contains, the units on record depend only on its value rows, in order. */
  lemma {:induction false} RunUnits(s: Store, log: seq<Call>, c: Address, t: nat)
    requires Indexed(s.tokens)
    ensures Units(Run(s, log).tokens, c, t) == Recorded(Units(s.tokens, c, t), RowsOfLog(log), c, t)
  {
    if log == [] {
    } else {
      var front, last := log[..|log| - 1], log[|log| - 1];
      RunUnits(s, front, c, t);
      ReachableIndexed(s, front);
      StepUnits(Run(s, front).tokens, last.event, last.ownerOf, c, t);
      RecordedConcat(Units(s.tokens, c, t), RowsOfLog(front), RowsOf(last.event), c, t);
    }
  }

  // ------------------------------------------------------ exact description

  /** As long as nothing is minted into the token, only its self-transfers are recorded wrongly. */
  lemma {:induction false} RecordedWithoutMint(start: int, rows: seq<Row>, c: Address, t: nat)
    requires t != 0 && forall r :: r in rows ==> !Mints(r, c, t)
    ensures Recorded(start, rows, c, t) == start + Net(rows, c, t) + SelfVolume(rows, c, t)
  {
    if rows == [] {
    } else {
      RecordedWithoutMint(start, rows[..|rows| - 1], c, t);
      assert !Mints(rows[|rows| - 1], c, t);
    }
  }

  lemma RecordedSinceLastMint(before: seq<Row>, mint: Row, since: seq<Row>, c: Address, t: nat)
    requires Mints(mint, c, t) && forall r :: r in since ==> !Mints(r, c, t)
    ensures Recorded(0, before + [mint] + since, c, t) == mint.value + Net(since, c, t) + SelfVolume(since, c, t)
    ensures Net(before + [mint] + since, c, t) == Net(before, c, t) + mint.value + Net(since, c, t)
  {
    RecordedConcat(0, before + [mint], since, c, t);
    RecordedWithoutMint(mint.value, since, c, t);
    TotalConcat(before + [mint], since, SignedFor(c, t));
    TotalAppend(before, mint, SignedFor(c, t));
    assert (before + [mint])[..|before|] == before;
  }

  /**
   * The final units for every log, with no assumption on it.  `mint` is the last mint into the token:
   * everything before it is forgotten.  Hence the final units are the ledger's exactly when the
   * balance that the mint overwrote equals what self-transfers have added since.
   */
  lemma UnitsSinceLastMint(log: seq<Call>, before: seq<Row>, mint: Row, since: seq<Row>, c: Address, t: nat)
    requires RowsOfLog(log) == before + [mint] + since
    requires Mints(mint, c, t) && forall r :: r in since ==> !Mints(r, c, t)
    ensures Units(Run(EMPTY, log).tokens, c, t) == mint.value + Net(since, c, t) + SelfVolume(since, c, t)
    ensures (Units(Run(EMPTY, log).tokens, c, t) == Net(RowsOfLog(log), c, t))
            <==> (Net(before, c, t) == SelfVolume(since, c, t))
  {
    RunUnits(EMPTY, log, c, t);
    RecordedSinceLastMint(before, mint, since, c, t);
  }

  lemma UnitsNeverMinted(log: seq<Call>, c: Address, t: nat)
    requires t != 0 && forall r :: r in RowsOfLog(log) ==> !Mints(r, c, t)
    ensures Units(Run(EMPTY, log).tokens, c, t) == Net(RowsOfLog(log), c, t) + SelfVolume(RowsOfLog(log), c, t)
  {
    RunUnits(EMPTY, log, c, t);
    RecordedWithoutMint(0, RowsOfLog(log), c, t);
  }

  // ------------------------------------------------ when the ledger is kept

  /** The caller can tell from the log so far: no mint onto a balance, no self-transfer of units. */
  predicate CleanRow(before: seq<Row>, r: Row) {
    && (r.fromID == 0 && r.toID != 0 ==> Net(before, r.contract, r.toID) == 0)
    && (r.fromID == r.toID && r.toID != 0 ==> r.value == 0)
  }

  predicate Clean(rows: seq<Row>) {
    rows != [] ==> Clean(rows[..|rows| - 1]) && CleanRow(rows[..|rows| - 1], rows[|rows| - 1])
  }

  /** Every token but zero has on record what the rows moved into it, less what they moved out. */
  ghost predicate Agrees(tokens: Tokens, rows: seq<Row>) {
    forall c: Address, t: nat :: t != 0 ==> Units(tokens, c, t) == Net(rows, c, t)
  }

  /** One row after an agreeing store: agreement survives exactly if the row is clean. */
  lemma RowAgrees(tokens: Tokens, before: seq<Row>, r: Row, ownerOf: OwnerOf)
    requires Indexed(tokens) && Agrees(tokens, before)
    ensures Agrees(ApplyRow(tokens, r, ownerOf), before + [r]) <==> CleanRow(before, r)
  {
    var after, rows := ApplyRow(tokens, r, ownerOf), before + [r];
    assert rows[..|rows| - 1] == before && rows[|rows| - 1] == r;
    RowUnits(tokens, r, ownerOf, r.contract, r.toID);
    if CleanRow(before, r) {
      forall c: Address, t: nat | t != 0 ensures Units(after, c, t) == Net(rows, c, t) {
        RowUnits(tokens, r, ownerOf, c, t);
      }
    } else {
      assert r.toID != 0 && Units(after, r.contract, r.toID) != Net(rows, r.contract, r.toID);
    }
  }

  /** The store agrees with the rows seen so far, at the start and after each of them. */
  ghost predicate AgreesThroughout(rows: seq<Row>, ownerOf: OwnerOf) {
    && (rows != [] ==> AgreesThroughout(rows[..|rows| - 1], ownerOf))
    && Agrees(ApplyRows(map[], rows, ownerOf), rows)
  }

  /** The index agrees with the ledger after every row of a log exactly when every row is clean. */
  lemma {:induction false} AgreesIffClean(rows: seq<Row>, ownerOf: OwnerOf)
    ensures AgreesThroughout(rows, ownerOf) <==> Clean(rows)
  {
    if rows == [] {
    } else {
      var front, last := rows[..|rows| - 1], rows[|rows| - 1];
      AgreesIffClean(front, ownerOf);
      if AgreesThroughout(front, ownerOf) {
        RowsKeepIndexed(map[], front, ownerOf);
        assert front + [last] == rows;
        RowAgrees(ApplyRows(map[], front, ownerOf), front, last, ownerOf);
      }
    }
  }

  /** The same for whole logs of any events: clean rows give the ledger's balances. */
  lemma CleanLogAgrees(log: seq<Call>)
    requires Clean(RowsOfLog(log))
    ensures Agrees(Run(EMPTY, log).tokens, RowsOfLog(log))
  {
    var rows, anyOwner := RowsOfLog(log), (c: Address, t: nat) => c;
    AgreesIffClean(rows, anyOwner);
    forall c: Address, t: nat | t != 0 ensures Units(Run(EMPTY, log).tokens, c, t) == Net(rows, c, t) {
      RunUnits(EMPTY, log, c, t);
      RowsUnits(map[], rows, anyOwner, c, t);
    }
  }

  /** A second mint into a token that still holds units loses the first: 5 and then 3 leave 3. */
  lemma RepeatedMintLosesUnits(c: Address, ownerOf: OwnerOf)
    ensures var log := [Call(ValueTransfer(c, 1, 0, 2, 5), ownerOf), Call(ValueTransfer(c, 1, 0, 2, 3), ownerOf)];
            Units(Run(EMPTY, log).tokens, c, 2) == 3 && Net(RowsOfLog(log), c, 2) == 8
  {
    var first, second := Call(ValueTransfer(c, 1, 0, 2, 5), ownerOf), Call(ValueTransfer(c, 1, 0, 2, 3), ownerOf);
    var log := [first, second];
    TwoCalls(first, second);
    var r1, r2 := Row(c, 1, 0, 2, 5), Row(c, 1, 0, 2, 3);
    assert RowsOfLog(log) == [r1, r2];
    assert [r1, r2] == [r1] + [r2] + [];
    TotalOne(r1, SignedFor(c, 2));
    TotalAppend([r1], r2, SignedFor(c, 2));
    UnitsSinceLastMint(log, [r1], r2, [], c, 2);
  }

  /** A row from a token to itself creates units: 5 minted, then 4 sent to itself, leave 9. */
  lemma SelfTransferCreatesUnits(c: Address, ownerOf: OwnerOf)
    ensures var log := [Call(ValueTransfer(c, 1, 0, 2, 5), ownerOf), Call(ValueTransfer(c, 1, 2, 2, 4), ownerOf)];
            Units(Run(EMPTY, log).tokens, c, 2) == 9 && Net(RowsOfLog(log), c, 2) == 5
  {
    var first, second := Call(ValueTransfer(c, 1, 0, 2, 5), ownerOf), Call(ValueTransfer(c, 1, 2, 2, 4), ownerOf);
    TwoCalls(first, second);
    var r1, r2 := Row(c, 1, 0, 2, 5), Row(c, 1, 2, 2, 4);
    assert [r1, r2] == [] + [r1] + [r2];
    TotalOne(r2, SignedFor(c, 2));
    TotalOne(r2, SelfFor(c, 2));
    TotalOne(r1, SignedFor(c, 2));
    TotalAppend([r1], r2, SignedFor(c, 2));
    UnitsSinceLastMint([first, second], [], r1, [r2], c, 2);
  }

  lemma TwoCalls(first: Call, second: Call)
    ensures RowsOfLog([first, second]) == RowsOf(first.event) + RowsOf(second.event)
  {
    assert [first, second][..1] == [first] && [first][..0] == [];
    assert RowsOfLog([first]) == RowsOf(first.event);
  }

  // ----------------------------------------------- batches: order and undo

  lemma RecordedPermute(start: int, a: seq<Row>, b: seq<Row>, c: Address, t: nat)
    requires multiset(a) == multiset(b)
    requires forall r :: r in a ==> r.fromID != 0 || r.toID == 0
    ensures Recorded(start, a, c, t) == Recorded(start, b, c, t)
  {
    if t == 0 {
      RecordedZero(start, a, c);
      RecordedZero(start, b, c);
    } else {
      forall r | r in b ensures !Mints(r, c, t) { assert r in multiset(a); }
      RecordedWithoutMint(start, a, c, t);
      RecordedWithoutMint(start, b, c, t);
      TotalPermute(a, b, SignedFor(c, t));
      TotalPermute(a, b, SelfFor(c, t));
    }
  }

  /** Batches that mint nothing: any order of the rows records the same units for every token. */
  lemma BatchOrderIrrelevant(tokens: Tokens, e1: Event, e2: Event, ownerOf: OwnerOf, c: Address, t: nat)
    requires Indexed(tokens)
    requires multiset(RowsOf(e1)) == multiset(RowsOf(e2))
    requires forall r :: r in RowsOf(e1) ==> r.fromID != 0 || r.toID == 0
    ensures Units(StepTokens(tokens, e1, ownerOf), c, t) == Units(StepTokens(tokens, e2, ownerOf), c, t)
  {
    StepUnits(tokens, e1, ownerOf, c, t);
    StepUnits(tokens, e2, ownerOf, c, t);
    RecordedPermute(Units(tokens, c, t), RowsOf(e1), RowsOf(e2), c, t);
  }

  lemma {:induction false} RecordedZero(start: int, rows: seq<Row>, c: Address)
    ensures Recorded(start, rows, c, 0) == start
  {
    if rows == [] {
    } else {
      RecordedZero(start, rows[..|rows| - 1], c);
    }
  }

  /** A batch with its senders and receivers exchanged. */
  function Swap(e: Event): Event
    requires e.BatchValueTransfer?
  {
    e.(fromTokenIDs := e.toTokenIDs, toTokenIDs := e.fromTokenIDs)
  }

  function Reversal(rows: seq<Row>): (s: seq<Row>)
    ensures |s| == |rows|
    ensures forall i :: 0 <= i < |rows| ==> s[i] == rows[i].(fromID := rows[i].toID, toID := rows[i].fromID)
  {
    seq(|rows|, i requires 0 <= i < |rows| => rows[i].(fromID := rows[i].toID, toID := rows[i].fromID))
  }

  lemma {:induction false} ReversalSums(rows: seq<Row>, c: Address, t: nat)
    ensures Net(Reversal(rows), c, t) == -Net(rows, c, t)
    ensures SelfVolume(Reversal(rows), c, t) == SelfVolume(rows, c, t)
  {
    if rows == [] {
    } else {
      assert Reversal(rows)[..|rows| - 1] == Reversal(rows[..|rows| - 1]);
      ReversalSums(rows[..|rows| - 1], c, t);
    }
  }

  lemma {:induction false} SelfVolumeAtLeast(rows: seq<Row>, i: nat)
    requires i < |rows| && rows[i].fromID == rows[i].toID
    ensures SelfVolume(rows, rows[i].contract, rows[i].toID) >= rows[i].value
  {
    if i < |rows| - 1 {
      SelfVolumeAtLeast(rows[..|rows| - 1], i);
    } else {
      SelfVolumeNonNegative(rows[..i], rows[i].contract, rows[i].toID);
    }
  }

  lemma {:induction false} SelfVolumeNonNegative(rows: seq<Row>, c: Address, t: nat)
    ensures SelfVolume(rows, c, t) >= 0
  {
    if rows == [] {
    } else {
      SelfVolumeNonNegative(rows[..|rows| - 1], c, t);
    }
  }

  lemma ThereAndBack(tokens: Tokens, e: Event, there: OwnerOf, back: OwnerOf, c: Address, t: nat)
    requires Indexed(tokens) && e.BatchValueTransfer?
    requires forall r :: r in RowsOf(e) ==> r.fromID != 0 && r.toID != 0
    ensures Units(StepTokens(StepTokens(tokens, e, there), Swap(e), back), c, t)
            == Units(tokens, c, t) + if t == 0 then 0 else 2 * SelfVolume(RowsOf(e), c, t)
  {
    hide StepTokens, Recorded;
    var rows, mid := RowsOf(e), StepTokens(tokens, e, there);
    assert RowsOf(Swap(e)) == Reversal(rows);
    StepKeepsIndexed(tokens, e, there);
    StepUnits(tokens, e, there, c, t);
    StepUnits(mid, Swap(e), back, c, t);
    if t == 0 {
      RecordedZero(Units(tokens, c, 0), rows, c);
      RecordedZero(Units(mid, c, 0), Reversal(rows), c);
    } else {
      RecordedWithoutMint(Units(tokens, c, t), rows, c, t);
      RecordedWithoutMint(Units(mid, c, t), Reversal(rows), c, t);
      ReversalSums(rows, c, t);
    }
  }

  /**
   * A batch of transfers between tokens and then the batch with its ends exchanged: every token's units
   * are restored exactly when no row sends units from a token to itself.
   */
  lemma ReversalRestores(tokens: Tokens, e: Event, there: OwnerOf, back: OwnerOf)
    requires Indexed(tokens) && e.BatchValueTransfer?
    requires forall r :: r in RowsOf(e) ==> r.fromID != 0 && r.toID != 0
    ensures (forall c: Address, t: nat ::
               Units(StepTokens(StepTokens(tokens, e, there), Swap(e), back), c, t) == Units(tokens, c, t))
            <==> (forall r :: r in RowsOf(e) && r.fromID == r.toID ==> r.value == 0)
  {
    hide StepTokens, SelfVolume, RowsOf;
    var rows, after := RowsOf(e), StepTokens(StepTokens(tokens, e, there), Swap(e), back);
    forall c: Address, t: nat
      ensures Units(after, c, t) == Units(tokens, c, t) + if t == 0 then 0 else 2 * SelfVolume(rows, c, t)
    {
      ThereAndBack(tokens, e, there, back, c, t);
    }
    if forall r :: r in rows && r.fromID == r.toID ==> r.value == 0 {
      forall c: Address, t: nat ensures SelfVolume(rows, c, t) == 0 { SelfVolumeNone(rows, c, t); }
    } else {
      var i :| 0 <= i < |rows| && rows[i].fromID == rows[i].toID && rows[i].value != 0;
      SelfVolumeAtLeast(rows, i);
      assert Units(after, rows[i].contract, rows[i].toID) != Units(tokens, rows[i].contract, rows[i].toID);
    }
  }

  lemma SelfVolumeNone(rows: seq<Row>, c: Address, t: nat)
    requires forall r :: r in rows && r.fromID == r.toID ==> r.value == 0
    ensures SelfVolume(rows, c, t) == 0
  {
    TotalZero(rows, SelfFor(c, t));
  }
}
