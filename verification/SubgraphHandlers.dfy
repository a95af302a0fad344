/**
 * The mapping handlers over the mutable entity store.  Loading an entity gives a copy; only saving
 * writes it back.  Each handler is proved to do what `Step` says of its event.
 */
module SubgraphHandlers {
  import opened Options
  import opened Text
  import opened SubgraphStore

  class Subgraph {
    var allowlists: map<string, Allowlist>
    var claims: map<string, Claim>
    var tokens: Tokens

    constructor ()
      ensures State() == EMPTY && WellFormed(State())
    {
      allowlists, claims, tokens := map[], map[], map[];
    }

    function State(): Store
      reads this
    {
      Store(allowlists, claims, tokens)
    }

    method SaveToken(token: ClaimToken)
      modifies this`tokens
      ensures tokens == old(tokens)[token.id := token]
    {
      tokens := tokens[token.id := token];
    }

    method GetOrCreateAllowlist(claimID: nat, root: seq<Byte>, contract: Address) returns (list: Allowlist)
      modifies this`allowlists
      ensures allowlists == StepAllowlists(old(allowlists), AllowlistCreated(contract, claimID, root))
      ensures GetID(claimID, contract) in allowlists && list == allowlists[GetID(claimID, contract)]
    {
      var id := GetID(claimID, contract);
      if id in allowlists {
        list := allowlists[id];
      } else {
        list := Allowlist(id, root, GetID(claimID, contract));
        allowlists := allowlists[id := list];
      }
    }

    method GetOrCreateClaim(claimID: nat, contract: Address, timestamp: nat) returns (claim: Claim)
      modifies this`claims
      ensures var id := GetID(claimID, contract);
              && claims == old(claims)[id := claim]
              && claim == (if id in old(claims) then old(claims)[id]
                           else Claim(id, timestamp, claimID, "0x" + Hex(contract), None, None, None, None))
    {
      var id := GetID(claimID, contract);
      if id in claims {
        claim := claims[id];
      } else {
        claim := Claim(id, timestamp, claimID, "0x" + Hex(contract), None, None, None, None);
        claims := claims[id := claim];
      }
    }

    method GetOrCreateClaimToken(claimID: nat, tokenID: nat, contract: Address, ownerOf: OwnerOf)
      returns (fraction: ClaimToken)
      modifies this`tokens
      ensures tokens == Ensure(old(tokens), claimID, tokenID, contract, ownerOf)
      ensures fraction == tokens[GetID(tokenID, contract)]
    {
      var id := GetID(tokenID, contract);
      if id in tokens {
        fraction := tokens[id];
      } else {
        var owner := ownerOf(contract, tokenID);
        fraction := ClaimToken(id, owner, GetID(claimID, contract), tokenID, 0);
        tokens := tokens[id := fraction];
      }
    }

    method HandleAllowlistCreated(event: Event, ownerOf: OwnerOf)
      requires event.AllowlistCreated? && WellFormed(State())
      modifies this
      ensures State() == Step(old(State()), event, ownerOf)
    {
      var list := GetOrCreateAllowlist(event.tokenID, event.root, event.address);
      allowlists := allowlists[list.id := list];
    }

    method HandleClaimStored(event: Event, ownerOf: OwnerOf)
      requires event.ClaimStored? && WellFormed(State())
      modifies this
      ensures State() == Step(old(State()), event, ownerOf)
    {
      var claim := GetOrCreateClaim(event.claimID, event.address, event.timestamp);
      claim := claim.(uri := Some(event.uri));
      claim := claim.(creator := Some(event.sender));
      claim := claim.(owner := Some(event.sender));
      claim := claim.(totalUnits := Some(event.totalUnits));
      claims := claims[claim.id := claim];
    }

    method HandleTransferSingle(event: Event, ownerOf: OwnerOf)
      requires event.TransferSingle? && WellFormed(State())
      modifies this
      ensures State() == Step(old(State()), event, ownerOf)
    {
      var id := GetID(event.id, event.address);
      if id !in tokens {
        return;
      }
      var token := tokens[id];
      token := token.(owner := event.to);
      SaveToken(token);
    }

    /** handleTransferBatch, like the handlers of the events not modelled, does nothing. */
    method HandleNothing(event: Event, ownerOf: OwnerOf)
      requires (event.TransferBatch? || event.Unhandled?) && WellFormed(State())
      modifies this
      ensures State() == Step(old(State()), event, ownerOf)
    {
    }

    /** The three branches both value handlers share: mint, transfer, burn. */
    method MoveUnits(from0: ClaimToken, to0: ClaimToken, value: nat) returns (from: ClaimToken, to: ClaimToken)
      ensures (from, to) == Moved(from0, to0, value)
    {
      from, to := from0, to0;
      if from.tokenID == 0 && to.tokenID != 0 {
        to := to.(units := value);
      }
      if from.tokenID != 0 && to.tokenID != 0 {
        from := from.(units := from.units - value);
        to := to.(units := to.units + value);
      }
      if from.tokenID != 0 && to.tokenID == 0 {
        from := from.(units := from.units - value);
      }
    }

    method HandleValueTransfer(event: Event, ownerOf: OwnerOf)
      requires event.ValueTransfer? && WellFormed(State())
      modifies this
      ensures State() == Step(old(State()), event, ownerOf)
    {
      ghost var r := Row(event.address, event.claimID, event.fromTokenID, event.toTokenID, event.value);
      var from := GetOrCreateClaimToken(event.claimID, event.fromTokenID, event.address, ownerOf);
      var to := GetOrCreateClaimToken(event.claimID, event.toTokenID, event.address, ownerOf);
      LoadedIDs(old(tokens), r, ownerOf);
      from, to := MoveUnits(from, to, event.value);
      SaveToken(from);
      SaveToken(to);
      OneRow(old(tokens), r, ownerOf);
    }

    /** The body of the batch loop: row `i`, unless one of the arrays ends before it. */
    method BatchRow(event: Event, i: nat, ownerOf: OwnerOf) returns (trapped: bool)
      requires event.BatchValueTransfer? && i < |event.claimIDs| && i <= CompleteRows(event) && Indexed(tokens)
      modifies this`tokens
      ensures trapped <==> i == CompleteRows(event)
      ensures tokens == if trapped then Dangling(old(tokens), event, ownerOf)
                        else ApplyRow(old(tokens), Row(event.address, event.claimIDs[i], event.fromTokenIDs[i],
                                                       event.toTokenIDs[i], event.values[i]), ownerOf)
    {
      if i >= |event.fromTokenIDs| {
        return true;
      }
      var from := GetOrCreateClaimToken(event.claimIDs[i], event.fromTokenIDs[i], event.address, ownerOf);
      if i >= |event.toTokenIDs| {
        return true;
      }
      var to := GetOrCreateClaimToken(event.claimIDs[i], event.toTokenIDs[i], event.address, ownerOf);
      if i >= |event.values| {
        return true;
      }
      LoadedIDs(old(tokens), RowsOf(event)[i], ownerOf);
      from, to := MoveUnits(from, to, event.values[i]);
      SaveToken(from);
      SaveToken(to);
      return false;
    }

    /** A batch is its rows in order.  The handler traps when an array is shorter than claimIDs. */
    method HandleBatchValueTransfer(event: Event, ownerOf: OwnerOf) returns (trapped: bool)
      requires event.BatchValueTransfer? && WellFormed(State())
      modifies this
      ensures State() == Step(old(State()), event, ownerOf)
      ensures trapped <==> |event.fromTokenIDs| < |event.claimIDs| || |event.toTokenIDs| < |event.claimIDs|
                           || |event.values| < |event.claimIDs|
    {
      hide ApplyRow, ApplyRows, Dangling, Indexed, GetID;
      ghost var rows := RowsOf(event);
      NoRows(tokens, ownerOf);
      var size := |event.claimIDs|;
      var i := 0;
      while i < size
        invariant 0 <= i <= size && i <= |rows|
        invariant Indexed(tokens) && allowlists == old(allowlists) && claims == old(claims)
        invariant tokens == ApplyRows(old(tokens), rows[..i], ownerOf)
      {
        ghost var before := tokens;
        assert i == |rows| ==> rows[..i] == rows;
        trapped := BatchRow(event, i, ownerOf);
        if trapped {
          return;
        }
        RowKeepsIndexed(before, rows[i], ownerOf);
        AppendRow(old(tokens), rows, i, ownerOf);
        i := i + 1;
      }
      assert rows[..i] == rows;
      trapped := false;
    }
  }

  lemma NoRows(tokens: Tokens, ownerOf: OwnerOf)
    ensures ApplyRows(tokens, [], ownerOf) == tokens
  {
  }

  lemma OneRow(tokens: Tokens, r: Row, ownerOf: OwnerOf)
    ensures ApplyRows(tokens, [r], ownerOf) == ApplyRow(tokens, r, ownerOf)
  {
    assert [r][..0] == [];
  }

  lemma AppendRow(tokens: Tokens, rows: seq<Row>, i: nat, ownerOf: OwnerOf)
    requires i < |rows|
    ensures ApplyRows(tokens, rows[..i + 1], ownerOf)
            == ApplyRow(ApplyRows(tokens, rows[..i], ownerOf), rows[i], ownerOf)
  {
    assert rows[..i + 1][..i] == rows[..i];
  }

  /** The loaded copies carry their own keys, before and after units move between them. */
  lemma LoadedIDs(tokens: Tokens, r: Row, ownerOf: OwnerOf)
    requires Indexed(tokens)
    ensures var loaded := EnsureBoth(tokens, r, ownerOf);
            var m := Moved(loaded[FromKey(r)], loaded[ToKey(r)], r.value);
            && m.0.id == FromKey(r) && m.1.id == ToKey(r)
            && Ensure(tokens, r.claimID, r.fromID, r.contract, ownerOf)[FromKey(r)] == loaded[FromKey(r)]
  {
    EnsureBothKeepsIndexed(tokens, r, ownerOf);
    var loaded := EnsureBoth(tokens, r, ownerOf);
    var m := Moved(loaded[FromKey(r)], loaded[ToKey(r)], r.value);
    assert m.0.id == m.0.(units := 0).id && m.1.id == m.1.(units := 0).id;
  }

  // ------------------------------------------------- a batch and its rows

  function Single(r: Row): Event { ValueTransfer(r.contract, r.claimID, r.fromID, r.toID, r.value) }

  function Singles(rows: seq<Row>, ownerOf: OwnerOf): (log: seq<Call>)
    ensures |log| == |rows| && forall i :: 0 <= i < |rows| ==> log[i] == Call(Single(rows[i]), ownerOf)
  {
    seq(|rows|, i requires 0 <= i < |rows| => Call(Single(rows[i]), ownerOf))
  }

  lemma StepSingle(s: Store, r: Row, ownerOf: OwnerOf)
    ensures Step(s, Single(r), ownerOf) == s.(tokens := ApplyRow(s.tokens, r, ownerOf))
  {
    hide ApplyRow;
    assert RowsOf(Single(r)) == [r];
    OneRow(s.tokens, r, ownerOf);
  }

  lemma {:induction false} RowsSingly(s: Store, rows: seq<Row>, ownerOf: OwnerOf)
    ensures Run(s, Singles(rows, ownerOf)) == s.(tokens := ApplyRows(s.tokens, rows, ownerOf))
  {
    if rows == [] {
    } else {
      hide ApplyRow, Step, Single;
      var front, last := rows[..|rows| - 1], rows[|rows| - 1];
      assert Singles(rows, ownerOf)[..|rows| - 1] == Singles(front, ownerOf);
      RowsSingly(s, front, ownerOf);
      StepSingle(s.(tokens := ApplyRows(s.tokens, front, ownerOf)), last, ownerOf);
    }
  }

  /**
   * A batch whose arrays have equal lengths leaves exactly the store that its rows leave when each
   * arrives as a value transfer of its own, in order.
   */
  lemma BatchIsItsRows(s: Store, e: Event, ownerOf: OwnerOf)
    requires e.BatchValueTransfer? && |e.claimIDs| == |e.fromTokenIDs| == |e.toTokenIDs| == |e.values|
    ensures Step(s, e, ownerOf) == Run(s, Singles(RowsOf(e), ownerOf))
    ensures |RowsOf(e)| == |e.claimIDs|
  {
    RowsSingly(s, RowsOf(e), ownerOf);
  }
}
