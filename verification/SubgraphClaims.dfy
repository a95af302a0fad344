/**
 * Units per hypercert.  For logs such as the minter contract emits (a mint goes to an empty token,
 * nobody sends more than they hold, a token always moves under the same claim) the tokens of a claim
 * always hold together exactly what was minted less what was burned.  What the contract guarantees
 * is stated on the log alone.
 */
module SubgraphClaims {
  import opened Text
  import opened SubgraphStore
  import opened SubgraphLedger

  function Held(tokens: Tokens, claim: string, id: string): int {
    if id in tokens && tokens[id].claim == claim then tokens[id].units else 0
  }

  ghost function SumOver(ids: set<string>, tokens: Tokens, claim: string): int {
    if ids == {} then 0
    else var id :| id in ids; Held(tokens, claim, id) + SumOver(ids - {id}, tokens, claim)
  }

  /** The units of all tokens recorded under one claim. */
  ghost function ClaimTotal(tokens: Tokens, claim: string): int {
    SumOver(tokens.Keys, tokens, claim)
  }

  lemma {:induction false} SumPick(ids: set<string>, x: string, tokens: Tokens, claim: string)
    requires x in ids
    ensures SumOver(ids, tokens, claim) == Held(tokens, claim, x) + SumOver(ids - {x}, tokens, claim)
  {
    var id :| id in ids && SumOver(ids, tokens, claim) == Held(tokens, claim, id) + SumOver(ids - {id}, tokens, claim);
    if id != x {
      SumPick(ids - {id}, x, tokens, claim);
      SumPick(ids - {x}, id, tokens, claim);
      assert ids - {id} - {x} == ids - {x} - {id};
    }
  }

  lemma {:induction false} SumSame(ids: set<string>, a: Tokens, b: Tokens, claim: string)
    requires forall id :: id in ids ==> Held(a, claim, id) == Held(b, claim, id)
    ensures SumOver(ids, a, claim) == SumOver(ids, b, claim)
  {
    if id :| id in ids {
      SumPick(ids, id, a, claim);
      SumPick(ids, id, b, claim);
      SumSame(ids - {id}, a, b, claim);
    }
  }

  /** What a row brings into circulation: a mint adds, a burn takes away. */
  function Issued(r: Row, claim: string): int {
    if GetID(r.claimID, r.contract) != claim then 0
    else if r.fromID == 0 && r.toID != 0 then r.value
    else if r.fromID != 0 && r.toID == 0 then -(r.value as int)
    else 0
  }

  function Circulating(rows: seq<Row>, claim: string): int {
    if rows == [] then 0
    else Circulating(rows[..|rows| - 1], claim) + Issued(rows[|rows| - 1], claim)
  }

  // ------------------------------------------------------------- one row

  /** Both tokens of the row, as far as they are indexed, belong to the row's claim. */
  predicate Consistent(tokens: Tokens, r: Row) {
    && (r.fromID != 0 && FromKey(r) in tokens ==> tokens[FromKey(r)].claim == GetID(r.claimID, r.contract))
    && (r.toID != 0 && ToKey(r) in tokens ==> tokens[ToKey(r)].claim == GetID(r.claimID, r.contract))
  }

  predicate Legal(tokens: Tokens, r: Row) {
    && Consistent(tokens, r)
    && (r.fromID != 0 ==> r.value <= Units(tokens, r.contract, r.fromID))
    && (r.fromID == 0 && r.toID != 0 ==> Units(tokens, r.contract, r.toID) == 0)
    && (r.fromID == r.toID ==> r.fromID == 0)
  }

  ghost predicate NonNegative(tokens: Tokens) {
    forall id :: id in tokens ==> tokens[id].units >= 0
  }

  lemma EnsureTotal(tokens: Tokens, claimID: nat, tokenID: nat, c: Address, ownerOf: OwnerOf, claim: string)
    ensures ClaimTotal(Ensure(tokens, claimID, tokenID, c, ownerOf), claim) == ClaimTotal(tokens, claim)
    ensures NonNegative(tokens) ==> NonNegative(Ensure(tokens, claimID, tokenID, c, ownerOf))
  {
    var r, id := Ensure(tokens, claimID, tokenID, c, ownerOf), GetID(tokenID, c);
    SumSame(tokens.Keys, tokens, r, claim);
    if id !in tokens {
      SumPick(r.Keys, id, r, claim);
      assert r.Keys - {id} == tokens.Keys;
    }
  }

  lemma EnsureBothTotal(tokens: Tokens, r: Row, ownerOf: OwnerOf, claim: string)
    ensures ClaimTotal(EnsureBoth(tokens, r, ownerOf), claim) == ClaimTotal(tokens, claim)
    ensures NonNegative(tokens) ==> NonNegative(EnsureBoth(tokens, r, ownerOf))
  {
    EnsureTotal(tokens, r.claimID, r.fromID, r.contract, ownerOf, claim);
    EnsureTotal(Ensure(tokens, r.claimID, r.fromID, r.contract, ownerOf),
                r.claimID, r.toID, r.contract, ownerOf, claim);
  }

  lemma EnsureBothClaims(tokens: Tokens, r: Row, ownerOf: OwnerOf)
    requires Consistent(tokens, r)
    ensures var loaded := EnsureBoth(tokens, r, ownerOf);
            && (r.fromID != 0 ==> loaded[FromKey(r)].claim == GetID(r.claimID, r.contract))
            && (r.toID != 0 ==> loaded[ToKey(r)].claim == GetID(r.claimID, r.contract))
  {
    var first := Ensure(tokens, r.claimID, r.fromID, r.contract, ownerOf);
    if ToKey(r) == FromKey(r) { GetIDInjective(r.toID, r.contract, r.fromID, r.contract); }
  }

  /** Two stores that differ only at the keys a and b. */
  lemma TotalDiffers(before: Tokens, after: Tokens, a: string, b: string, claim: string)
    requires before.Keys == after.Keys && a in after && b in after
    requires forall id :: id in after && id != a && id != b ==> after[id] == before[id]
    ensures ClaimTotal(after, claim) - ClaimTotal(before, claim)
            == Held(after, claim, a) - Held(before, claim, a)
               + (if a == b then 0 else Held(after, claim, b) - Held(before, claim, b))
  {
    var ids := after.Keys;
    SumPick(ids, a, before, claim);
    SumPick(ids, a, after, claim);
    if a != b {
      SumPick(ids - {a}, b, before, claim);
      SumPick(ids - {a}, b, after, claim);
    }
    SumSame(ids - {a} - {b}, before, after, claim);
    assert a == b ==> ids - {a} - {b} == ids - {a};
  }

  /** What a row creates or destroys beyond what it issues. */
  function Slip(tokens: Tokens, r: Row): int {
    if r.fromID == 0 && r.toID != 0 then -Units(tokens, r.contract, r.toID)
    else if r.fromID == r.toID && r.toID != 0 then r.value
    else 0
  }

  /** Writing back the two moved copies, for a claim `own` that every nonzero token involved belongs to. */
  lemma MovedTotal(loaded: Tokens, a: string, b: string, value: nat, own: string, claim: string)
    requires a in loaded && b in loaded
    requires a == b <==> loaded[a].tokenID == loaded[b].tokenID
    requires forall id :: id in {a, b} ==>
               (if loaded[id].tokenID == 0 then loaded[id].units == 0 else loaded[id].claim == own)
    ensures var from, to, m := loaded[a], loaded[b], Moved(loaded[a], loaded[b], value);
            ClaimTotal(loaded[a := m.0][b := m.1], claim) - ClaimTotal(loaded, claim)
            == (if own != claim then 0
                else if from.tokenID == 0 && to.tokenID != 0 then value - to.units
                else if from.tokenID != 0 && to.tokenID == 0 then -(value as int)
                else if from.tokenID == to.tokenID && to.tokenID != 0 then value
                else 0)
  {
    var m := Moved(loaded[a], loaded[b], value);
    var after := loaded[a := m.0][b := m.1];
    assert after.Keys == loaded.Keys;
    TotalDiffers(loaded, after, a, b, claim);
    assert m.0.claim == m.0.(units := 0).claim == loaded[a].(units := 0).claim == loaded[a].claim;
    assert m.1.claim == m.1.(units := 0).claim == loaded[b].(units := 0).claim == loaded[b].claim;
  }

  /**
   * The change of a claim's total by any consistent row.  It is the amount issued exactly when the
   * row does not slip: no mint onto units already there, no units sent from a token to itself.
   */
  lemma RowTotal(tokens: Tokens, r: Row, ownerOf: OwnerOf, claim: string)
    requires Indexed(tokens) && Consistent(tokens, r)
    ensures ClaimTotal(ApplyRow(tokens, r, ownerOf), claim)
            == ClaimTotal(tokens, claim) + Issued(r, claim)
               + (if GetID(r.claimID, r.contract) == claim then Slip(tokens, r) else 0)
  {
    var loaded := EnsureBoth(tokens, r, ownerOf);
    EnsureBothKeepsIndexed(tokens, r, ownerOf);
    EnsureBothTotal(tokens, r, ownerOf, claim);
    EnsureBothClaims(tokens, r, ownerOf);
    EnsureBothUnits(tokens, r, ownerOf, r.contract, r.toID);
    if FromKey(r) == ToKey(r) { GetIDInjective(r.fromID, r.contract, r.toID, r.contract); }
    MovedTotal(loaded, FromKey(r), ToKey(r), r.value, GetID(r.claimID, r.contract), claim);
  }

  lemma RowNonNegative(tokens: Tokens, r: Row, ownerOf: OwnerOf)
    requires Indexed(tokens) && NonNegative(tokens) && Legal(tokens, r)
    ensures NonNegative(ApplyRow(tokens, r, ownerOf))
  {
    var loaded, after := EnsureBoth(tokens, r, ownerOf), ApplyRow(tokens, r, ownerOf);
    EnsureBothKeepsIndexed(tokens, r, ownerOf);
    EnsureBothTotal(tokens, r, ownerOf, "");
    EnsureBothUnits(tokens, r, ownerOf, r.contract, r.fromID);
    RowRewritesUnits(tokens, r, ownerOf);
    forall id | id in after ensures after[id].units >= 0 {
      assert id in loaded.Keys;
      RowWrites(tokens, r, ownerOf, id);
    }
  }

  // ---------------------------------------------------- what the log promises

  /** Every nonzero token the row touches has so far moved under the row's claim only. */
  predicate SameClaim(before: seq<Row>, r: Row) {
    forall q :: q in before && q.claimID != r.claimID ==>
      && (r.fromID != 0 ==> !Touches(q, r.contract, r.fromID))
      && (r.toID != 0 ==> !Touches(q, r.contract, r.toID))
  }

  predicate LegalNext(before: seq<Row>, r: Row) {
    && (r.fromID != 0 ==> r.value <= Net(before, r.contract, r.fromID))
    && (r.fromID == 0 && r.toID != 0 ==> Net(before, r.contract, r.toID) == 0)
    && (r.fromID == r.toID ==> r.fromID == 0)
    && SameClaim(before, r)
  }

  predicate LegalRows(rows: seq<Row>) {
    rows != [] ==> LegalRows(rows[..|rows| - 1]) && LegalNext(rows[..|rows| - 1], rows[|rows| - 1])
  }

  lemma {:induction false} LegalPrefix(a: seq<Row>, b: seq<Row>)
    requires LegalRows(a + b)
    ensures LegalRows(a)
  {
    if b == [] {
      assert a + b == a;
    } else {
      assert (a + b)[..|a + b| - 1] == a + b[..|b| - 1];
      LegalPrefix(a, b[..|b| - 1]);
    }
  }

  // ------------------------------------------------- what the index then keeps

  /** A token's recorded claim is that of some row that touched it. */
  ghost predicate Attributed(tokens: Tokens, rows: seq<Row>) {
    forall c: Address, t: nat :: t != 0 && GetID(t, c) in tokens ==>
      exists q :: q in rows && Touches(q, c, t) && tokens[GetID(t, c)].claim == GetID(q.claimID, c)
  }

  ghost predicate Faithful(tokens: Tokens, rows: seq<Row>) {
    Indexed(tokens) && Agrees(tokens, rows) && NonNegative(tokens) && Attributed(tokens, rows)
  }

  lemma LegalRowIsLegal(tokens: Tokens, before: seq<Row>, r: Row)
    requires Faithful(tokens, before) && LegalNext(before, r)
    ensures Legal(tokens, r)
  {
    if r.fromID != 0 && FromKey(r) in tokens {
      var q :| q in before && Touches(q, r.contract, r.fromID)
               && tokens[FromKey(r)].claim == GetID(q.claimID, r.contract);
      assert q.claimID == r.claimID;
    }
    if r.toID != 0 && ToKey(r) in tokens {
      var q :| q in before && Touches(q, r.contract, r.toID) && tokens[ToKey(r)].claim == GetID(q.claimID, r.contract);
      assert q.claimID == r.claimID;
    }
  }

  lemma EnsureClaim(tokens: Tokens, claimID: nat, tokenID: nat, a: Address, ownerOf: OwnerOf, c: Address, t: nat)
    ensures var id, r := GetID(t, c), Ensure(tokens, claimID, tokenID, a, ownerOf);
            id in r ==> if id in tokens then r[id] == tokens[id]
                        else c == a && t == tokenID && r[id].claim == GetID(claimID, a)
  {
    if GetID(t, c) == GetID(tokenID, a) { GetIDInjective(t, c, tokenID, a); }
  }

  /** A row attributes the tokens it creates to its own claim and no other token anew. */
  lemma RowClaim(tokens: Tokens, r: Row, ownerOf: OwnerOf, c: Address, t: nat)
    requires Indexed(tokens)
    ensures var id, after := GetID(t, c), ApplyRow(tokens, r, ownerOf);
            id in after ==> if id in tokens then after[id].claim == tokens[id].claim
                            else Touches(r, c, t) && after[id].claim == GetID(r.claimID, c)
  {
    var id, loaded, after := GetID(t, c), EnsureBoth(tokens, r, ownerOf), ApplyRow(tokens, r, ownerOf);
    RowRewritesUnits(tokens, r, ownerOf);
    if id in after {
      EnsureClaim(tokens, r.claimID, r.fromID, r.contract, ownerOf, c, t);
      EnsureClaim(Ensure(tokens, r.claimID, r.fromID, r.contract, ownerOf),
                  r.claimID, r.toID, r.contract, ownerOf, c, t);
      assert after[id].(units := 0) == loaded[id].(units := 0);
    }
  }

  lemma RowAttributed(tokens: Tokens, before: seq<Row>, r: Row, ownerOf: OwnerOf)
    requires Indexed(tokens) && Attributed(tokens, before)
    ensures Attributed(ApplyRow(tokens, r, ownerOf), before + [r])
  {
    var after, rows := ApplyRow(tokens, r, ownerOf), before + [r];
    forall c: Address, t: nat | t != 0 && GetID(t, c) in after
      ensures exists q :: q in rows && Touches(q, c, t) && after[GetID(t, c)].claim == GetID(q.claimID, c)
    {
      RowClaim(tokens, r, ownerOf, c, t);
      if GetID(t, c) in tokens {
        var q :| q in before && Touches(q, c, t) && tokens[GetID(t, c)].claim == GetID(q.claimID, c);
        assert q in rows;
      } else {
        assert r in rows;
      }
    }
  }

  lemma RowFaithful(tokens: Tokens, before: seq<Row>, r: Row, ownerOf: OwnerOf, claim: string)
    requires Faithful(tokens, before) && LegalNext(before, r)
    ensures Faithful(ApplyRow(tokens, r, ownerOf), before + [r])
    ensures ClaimTotal(ApplyRow(tokens, r, ownerOf), claim) == ClaimTotal(tokens, claim) + Issued(r, claim)
  {
    LegalRowIsLegal(tokens, before, r);
    RowKeepsIndexed(tokens, r, ownerOf);
    RowAgrees(tokens, before, r, ownerOf);
    RowNonNegative(tokens, r, ownerOf);
    RowAttributed(tokens, before, r, ownerOf);
    RowTotal(tokens, r, ownerOf, claim);
  }

  lemma {:induction false} RowsFaithful(tokens: Tokens, before: seq<Row>, rows: seq<Row>, ownerOf: OwnerOf,
                                              claim: string)
    requires Faithful(tokens, before) && LegalRows(before + rows)
    ensures Faithful(ApplyRows(tokens, rows, ownerOf), before + rows)
    ensures ClaimTotal(ApplyRows(tokens, rows, ownerOf), claim) == ClaimTotal(tokens, claim) + Circulating(rows, claim)
  {
    if rows == [] {
      assert before + rows == before;
    } else {
      var front, last := rows[..|rows| - 1], rows[|rows| - 1];
      assert (before + rows)[..|before + rows| - 1] == before + front;
      assert before + rows == before + front + [last];
      RowsFaithful(tokens, before, front, ownerOf, claim);
      RowFaithful(ApplyRows(tokens, front, ownerOf), before + front, last, ownerOf, claim);
    }
  }

  /** A change of owner touches none of this. */
  lemma OwnerMoveFaithful(tokens: Tokens, rows: seq<Row>, e: Event, ownerOf: OwnerOf, claim: string)
    requires Faithful(tokens, rows) && e.TransferSingle?
    ensures Faithful(StepTokens(tokens, e, ownerOf), rows)
    ensures ClaimTotal(StepTokens(tokens, e, ownerOf), claim) == ClaimTotal(tokens, claim)
  {
    var after := StepTokens(tokens, e, ownerOf);
    assert after.Keys == tokens.Keys;
    SumSame(tokens.Keys, tokens, after, claim);
    StepKeepsIndexed(tokens, e, ownerOf);
    forall c: Address, t: nat | t != 0 ensures Units(after, c, t) == Net(rows, c, t) {
      assert Units(tokens, c, t) == Net(rows, c, t);
    }
    forall c: Address, t: nat | t != 0 && GetID(t, c) in after
      ensures exists q :: q in rows && Touches(q, c, t) && after[GetID(t, c)].claim == GetID(q.claimID, c)
    {
      assert GetID(t, c) in tokens.Keys;
    }
  }

  lemma {:induction false} CirculatingConcat(a: seq<Row>, b: seq<Row>, claim: string)
    ensures Circulating(a + b, claim) == Circulating(a, claim) + Circulating(b, claim)
  {
    if b == [] {
      assert a + b == a;
    } else {
      assert (a + b)[..|a + b| - 1] == a + b[..|b| - 1];
      CirculatingConcat(a, b[..|b| - 1], claim);
    }
  }

  /**
   * Over every log with legal rows: no token ever owes units, each claim's tokens hold together
   * exactly what is in circulation, and every token holds its ledger balance.
   */
  lemma {:induction false} ClaimsConserveUnits(log: seq<Call>, claim: string)
    requires LegalRows(RowsOfLog(log))
    requires forall call :: call in log ==> !Traps(call.event)
    ensures Faithful(Run(EMPTY, log).tokens, RowsOfLog(log))
    ensures ClaimTotal(Run(EMPTY, log).tokens, claim) == Circulating(RowsOfLog(log), claim)
  {
    if log == [] {
    } else {
      var front, last := log[..|log| - 1], log[|log| - 1];
      var before, rows := RowsOfLog(front), RowsOf(last.event);
      LegalPrefix(before, rows);
      ClaimsConserveUnits(front, claim);
      CirculatingConcat(before, rows, claim);
      assert last in log;
      if last.event.TransferSingle? {
        assert before + rows == before;
        OwnerMoveFaithful(Run(EMPTY, front).tokens, before, last.event, last.ownerOf, claim);
      } else {
        RowsFaithful(Run(EMPTY, front).tokens, before, rows, last.ownerOf, claim);
      }
    }
  }
}
