/**
 * What each event does to the store, entity by entity and in the event's own fields.  These say of every
 * handler what it has to do; how the store is computed plays no part in them.
 */
module SubgraphEvents {
  import opened Options
  import opened SubgraphClaims
  import opened SubgraphHandlers
  import opened SubgraphLedger
  import opened SubgraphOwners
  import opened SubgraphStore
  import opened Sums
  import opened Text

  // ------------------------------------------------------------- value transfers

  /**
   * The token t of contract a after a value transfer.  Both ends are created when missing; a mint assigns,
   * a transfer adds to the receiver or, unless it is the receiver too, takes from the sender.
   */
  lemma ValueTransferStores(s: Store, e: Event, ownerOf: OwnerOf, a: Address, t: nat)
    requires WellFormed(s) && e.ValueTransfer?
    ensures var after, id := Step(s, e, ownerOf), GetID(t, a);
            var isTo, isFrom := a == e.address && t == e.toTokenID, a == e.address && t == e.fromTokenID;
            var was := if id in s.tokens then s.tokens[id]
                       else ClaimToken(id, ownerOf(a, t), GetID(e.claimID, a), t, 0);
            && after.claims == s.claims && after.allowlists == s.allowlists
            && (id in after.tokens <==> id in s.tokens || isTo || isFrom)
            && (id in after.tokens ==>
                  after.tokens[id] == was.(units := if t == 0 then 0
                                                    else if isTo && e.fromTokenID == 0 then e.value
                                                    else if isTo then was.units + e.value
                                                    else if isFrom then was.units - e.value
                                                    else was.units))
  {
    hide ApplyRow, GetID;
    var r := Row(e.address, e.claimID, e.fromTokenID, e.toTokenID, e.value);
    var id, after := GetID(t, a), ApplyRow(s.tokens, r, ownerOf);
    assert RowsOf(e) == [r];
    OneRow(s.tokens, r, ownerOf);
    RowKeepsIndexed(s.tokens, r, ownerOf);
    RowIndexes(s.tokens, r, ownerOf, a, t);
    RowUnits(s.tokens, r, ownerOf, a, t);
    RowClaim(s.tokens, r, ownerOf, a, t);
    RowOwner(s.tokens, r, ownerOf, a, t);
  }

  /** Entities under any other key stay as they are. */
  lemma ValueTransferTouches(s: Store, e: Event, ownerOf: OwnerOf)
    requires WellFormed(s) && e.ValueTransfer?
    ensures var after, ends := Step(s, e, ownerOf), {GetID(e.fromTokenID, e.address), GetID(e.toTokenID, e.address)};
            && after.tokens.Keys == s.tokens.Keys + ends
            && forall id :: id in s.tokens && id !in ends ==> after.tokens[id] == s.tokens[id]
  {
    hide GetID;
    var r := Row(e.address, e.claimID, e.fromTokenID, e.toTokenID, e.value);
    assert RowsOf(e) == [r];
    OneRow(s.tokens, r, ownerOf);
  }

  /** The log of the single transfers that make up the first `n` rows of a batch. */
  ghost predicate RowByRow(e: Event, n: nat, log: seq<Call>, ownerOf: OwnerOf)
    requires e.BatchValueTransfer?
    requires n <= |e.claimIDs| && n <= |e.fromTokenIDs| && n <= |e.toTokenIDs| && n <= |e.values|
  {
    && |log| == n
    && forall i :: 0 <= i < n ==>
         log[i] == Call(ValueTransfer(e.address, e.claimIDs[i], e.fromTokenIDs[i], e.toTokenIDs[i], e.values[i]),
                        ownerOf)
  }

  lemma RowsAreTransfers(s: Store, e: Event, n: nat, log: seq<Call>, ownerOf: OwnerOf)
    requires e.BatchValueTransfer? && n == CompleteRows(e) && RowByRow(e, n, log, ownerOf)
    ensures Run(s, log) == s.(tokens := ApplyRows(s.tokens, RowsOf(e), ownerOf))
  {
    RowsSingly(s, RowsOf(e), ownerOf);
    assert log == Singles(RowsOf(e), ownerOf);
  }

  /** A batch whose arrays have one length is its value transfers, in order. */
  lemma BatchIsValueTransfers(s: Store, e: Event, log: seq<Call>, ownerOf: OwnerOf)
    requires e.BatchValueTransfer? && |e.claimIDs| == |e.fromTokenIDs| == |e.toTokenIDs| == |e.values|
    requires RowByRow(e, |e.claimIDs|, log, ownerOf)
    ensures Step(s, e, ownerOf) == Run(s, log)
  {
    RowsAreTransfers(s, e, |e.claimIDs|, log, ownerOf);
  }

  /**
   * A batch with an array shorter than its claim ids is the value transfers before the gap, in order; of
   * the row at the gap it creates those ends that it can still read, and changes nothing else.
   */
  lemma ShortBatchStops(s: Store, e: Event, n: nat, log: seq<Call>, ownerOf: OwnerOf, a: Address, t: nat)
    requires e.BatchValueTransfer? && n < |e.claimIDs|
    requires n <= |e.fromTokenIDs| && n <= |e.toTokenIDs| && n <= |e.values|
    requires n == |e.fromTokenIDs| || n == |e.toTokenIDs| || n == |e.values|
    requires RowByRow(e, n, log, ownerOf)
    ensures var before, after, id := Run(s, log), Step(s, e, ownerOf), GetID(t, a);
            var read := a == e.address && n < |e.fromTokenIDs|
                        && (t == e.fromTokenIDs[n] || (n < |e.toTokenIDs| && t == e.toTokenIDs[n]));
            && after.claims == s.claims && after.allowlists == s.allowlists
            && (id in after.tokens <==> id in before.tokens || read)
            && (id in after.tokens ==>
                  after.tokens[id] == if id in before.tokens then before.tokens[id]
                                      else ClaimToken(id, ownerOf(a, t), GetID(e.claimIDs[n], a), t, 0))
  {
    RowsAreTransfers(s, e, n, log, ownerOf);
    hide ApplyRows, GetID;
    var before := ApplyRows(s.tokens, RowsOf(e), ownerOf);
    DanglingIndexes(before, e, ownerOf, a, t);
    if n < |e.fromTokenIDs| {
      var first := Ensure(before, e.claimIDs[n], e.fromTokenIDs[n], e.address, ownerOf);
      EnsureStores(before, e.claimIDs[n], e.fromTokenIDs[n], e.address, ownerOf, a, t);
      if n < |e.toTokenIDs| { EnsureStores(first, e.claimIDs[n], e.toTokenIDs[n], e.address, ownerOf, a, t); }
    }
  }

  lemma EnsureStores(tokens: Tokens, claimID: nat, tokenID: nat, c: Address, ownerOf: OwnerOf, a: Address, t: nat)
    ensures var id, r := GetID(t, a), Ensure(tokens, claimID, tokenID, c, ownerOf);
            id in r ==> r[id] == if id in tokens then tokens[id]
                                 else ClaimToken(id, ownerOf(a, t), GetID(claimID, a), t, 0)
  {
    if GetID(t, a) == GetID(tokenID, c) { GetIDInjective(t, a, tokenID, c); }
  }

  // ------------------------------------------------------- the ledger of the events

  /** A token's balance is what the rows moved into it less what they moved out of it. */
  lemma NetIsInLessOut(rows: seq<Row>, c: Address, t: nat)
    ensures Net(rows, c, t) == Total(rows, (r: Row) => if r.contract == c && r.toID == t then r.value else 0)
                               - Total(rows, (r: Row) => if r.contract == c && r.fromID == t then r.value else 0)
  {
    var received := (r: Row) => if r.contract == c && r.toID == t then r.value else 0;
    var sent := (r: Row) => if r.contract == c && r.fromID == t then r.value else 0;
    TotalAdds(rows, SignedFor(c, t), sent, received);
  }

  /** Which rows an event adds to the ledger. */
  lemma LedgerGrows(log: seq<Call>, e: Event, ownerOf: OwnerOf)
    ensures var before, after := RowsOfLog(log), RowsOfLog(log + [Call(e, ownerOf)]);
            && (e.ValueTransfer? ==>
                  after == before + [Row(e.address, e.claimID, e.fromTokenID, e.toTokenID, e.value)])
            && (!e.ValueTransfer? && !e.BatchValueTransfer? ==> after == before)
    ensures e.BatchValueTransfer? ==>
              var before, after := RowsOfLog(log), RowsOfLog(log + [Call(e, ownerOf)]);
              && before <= after
              && (|e.claimIDs| == |e.fromTokenIDs| == |e.toTokenIDs| == |e.values| ==>
                    |after| == |before| + |e.claimIDs|)
              && forall i :: |before| <= i < |after| ==>
                   var k := i - |before|;
                   && k < |e.claimIDs| && k < |e.fromTokenIDs| && k < |e.toTokenIDs| && k < |e.values|
                   && after[i] == Row(e.address, e.claimIDs[k], e.fromTokenIDs[k], e.toTokenIDs[k], e.values[k])
  {
    assert (log + [Call(e, ownerOf)])[..|log|] == log;
  }

  // ----------------------------------------------------------------- other events

  /** A single transfer sets the owner of its token, if that is indexed, and changes nothing else. */
  lemma TransferSingleStores(s: Store, e: Event, ownerOf: OwnerOf)
    requires e.TransferSingle?
    ensures var after := Step(s, e, ownerOf);
            && after.claims == s.claims && after.allowlists == s.allowlists && after.tokens.Keys == s.tokens.Keys
            && forall id :: id in s.tokens ==>
                 after.tokens[id] == if id == GetID(e.id, e.address) then s.tokens[id].(owner := e.to) else s.tokens[id]
  {
  }

  lemma IgnoredEvents(s: Store, e: Event, ownerOf: OwnerOf)
    requires e.TransferBatch? || e.Unhandled?
    ensures Step(s, e, ownerOf) == s
  {
  }

  /**
   * A stored claim has the sender as creator and owner, and the event's uri and units.  Its id, token id,
   * contract and creation time are those it had, or else the event's.
   */
  lemma ClaimStoredStores(s: Store, e: Event, ownerOf: OwnerOf)
    requires e.ClaimStored?
    ensures var after, id := Step(s, e, ownerOf), GetID(e.claimID, e.address);
            && after.tokens == s.tokens && after.allowlists == s.allowlists
            && after.claims.Keys == s.claims.Keys + {id}
            && (forall other :: other in s.claims && other != id ==> after.claims[other] == s.claims[other])
            && after.claims[id].uri == Some(e.uri) && after.claims[id].totalUnits == Some(e.totalUnits)
            && after.claims[id].creator == after.claims[id].owner == Some(e.sender)
            && (var c := after.claims[id];
                if id in s.claims then
                  var was := s.claims[id];
                  c.id == was.id && c.creation == was.creation && c.tokenID == was.tokenID && c.contract == was.contract
                else
                  && c.id == id && c.creation == e.timestamp && c.tokenID == e.claimID
                  && c.contract == "0x" + Hex(e.address))
  {
  }

  /** The first event for an allowlist stores it, and later ones leave it alone. */
  lemma AllowlistCreatedStores(s: Store, e: Event, ownerOf: OwnerOf)
    requires e.AllowlistCreated?
    ensures var after, id := Step(s, e, ownerOf), GetID(e.tokenID, e.address);
            && after.tokens == s.tokens && after.claims == s.claims
            && after.allowlists.Keys == s.allowlists.Keys + {id}
            && forall other :: other in after.allowlists ==>
                 after.allowlists[other]
                 == if other in s.allowlists then s.allowlists[other] else Allowlist(id, e.root, id)
  {
  }
}
