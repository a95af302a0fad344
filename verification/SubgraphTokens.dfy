/** Every field of every stored token as a function of the event log. */
module SubgraphTokens {
  import opened Options
  import opened SubgraphClaims
  import opened SubgraphLedger
  import opened SubgraphOwners
  import opened SubgraphRegistry
  import opened SubgraphStore
  import opened Text

  // ------------------------------------------------- what the log says of a token

  /** The claim of the first row that touches the token. */
  function FirstRow(rows: seq<Row>, c: Address, t: nat): (claimID: Option<nat>)
    ensures claimID.Some? <==> exists r :: r in rows && Touches(r, c, t)
  {
    if rows == [] then None
    else
      var front, last := rows[..|rows| - 1], rows[|rows| - 1];
      assert rows == front + [last];
      var earlier := FirstRow(front, c, t);
      if earlier.None? && Touches(last, c, t) then Some(last.claimID) else earlier
  }

  /** The same for an event; a trapping batch has one more row, which it could not finish. */
  function FirstNamed(e: Event, c: Address, t: nat): (claimID: Option<nat>)
    ensures claimID.Some? <==> Indexes(e, c, t)
  {
    var first := FirstRow(RowsOf(e), c, t);
    if first.None? && Unfinished(e, c, t) then Some(e.claimIDs[CompleteRows(e)]) else first
  }

  function FirstClaim(log: seq<Call>, c: Address, t: nat): Option<nat> {
    if log == [] then None
    else
      var earlier := FirstClaim(log[..|log| - 1], c, t);
      if earlier.None? then FirstNamed(log[|log| - 1].event, c, t) else earlier
  }

  /** The contract's answer when the token is first touched, then the recipient of each single transfer. */
  function LastOwner(log: seq<Call>, c: Address, t: nat): Option<Address> {
    if log == [] then None
    else NextOnRecord(LastOwner(log[..|log| - 1], c, t), log[|log| - 1].event, log[|log| - 1].ownerOf, c, t)
  }

  // ---------------------------------------------------------- the claim of a token

  function ClaimIn(tokens: Tokens, c: Address, t: nat): Option<string> {
    if GetID(t, c) in tokens then Some(tokens[GetID(t, c)].claim) else None
  }

  function Named(before: Option<string>, claimID: Option<nat>, c: Address): Option<string> {
    if before.Some? then before
    else if claimID.Some? then Some(GetID(claimID.value, c))
    else None
  }

  lemma {:induction false} RowsName(tokens: Tokens, rows: seq<Row>, ownerOf: OwnerOf, c: Address, t: nat)
    requires Indexed(tokens)
    ensures ClaimIn(ApplyRows(tokens, rows, ownerOf), c, t)
            == Named(ClaimIn(tokens, c, t), FirstRow(rows, c, t), c)
  {
    if rows == [] {
    } else {
      hide ApplyRow, GetID;
      var front, last := rows[..|rows| - 1], rows[|rows| - 1];
      RowsName(tokens, front, ownerOf, c, t);
      RowsKeepIndexed(tokens, front, ownerOf);
      RowIndexes(ApplyRows(tokens, front, ownerOf), last, ownerOf, c, t);
      RowClaim(ApplyRows(tokens, front, ownerOf), last, ownerOf, c, t);
    }
  }

  lemma DanglingNames(tokens: Tokens, e: Event, ownerOf: OwnerOf, c: Address, t: nat)
    requires Traps(e)
    ensures var claimID := if Unfinished(e, c, t) then Some(e.claimIDs[CompleteRows(e)]) else None;
            ClaimIn(Dangling(tokens, e, ownerOf), c, t) == Named(ClaimIn(tokens, c, t), claimID, c)
  {
    hide GetID;
    DanglingIndexes(tokens, e, ownerOf, c, t);
    var n := CompleteRows(e);
    if n < |e.fromTokenIDs| {
      var first := Ensure(tokens, e.claimIDs[n], e.fromTokenIDs[n], e.address, ownerOf);
      EnsureClaim(tokens, e.claimIDs[n], e.fromTokenIDs[n], e.address, ownerOf, c, t);
      if n < |e.toTokenIDs| { EnsureClaim(first, e.claimIDs[n], e.toTokenIDs[n], e.address, ownerOf, c, t); }
    }
  }

  lemma StepNames(tokens: Tokens, e: Event, ownerOf: OwnerOf, c: Address, t: nat)
    requires Indexed(tokens)
    ensures ClaimIn(StepTokens(tokens, e, ownerOf), c, t) == Named(ClaimIn(tokens, c, t), FirstNamed(e, c, t), c)
  {
    if e.TransferSingle? {
      StepKeepsIndexed(tokens, e, ownerOf);
    } else {
      hide ApplyRows, Dangling, GetID;
      RowsName(tokens, RowsOf(e), ownerOf, c, t);
      if Traps(e) { DanglingNames(ApplyRows(tokens, RowsOf(e), ownerOf), e, ownerOf, c, t); }
    }
  }

  // -------------------------------------------------------------- whole entities

  lemma {:induction false} RunNames(log: seq<Call>, c: Address, t: nat)
    ensures ClaimIn(Run(EMPTY, log).tokens, c, t) == Named(None, FirstClaim(log, c, t), c)
    ensures OwnerIn(Run(EMPTY, log).tokens, c, t) == LastOwner(log, c, t)
  {
    if log == [] {
    } else {
      hide StepTokens, GetID;
      var front, last := log[..|log| - 1], log[|log| - 1];
      RunNames(front, c, t);
      ReachableIndexed(EMPTY, front);
      StepNames(Run(EMPTY, front).tokens, last.event, last.ownerOf, c, t);
      StepOnRecord(Run(EMPTY, front).tokens, last.event, last.ownerOf, c, t);
    }
  }

  /**
   * A token is in the store exactly if a row of values touched it.  Its claim is the one that the first
   * such row named and its owner and units are what the log put on record since.
   */
  lemma TokenHistory(log: seq<Call>, c: Address, t: nat)
    ensures var tokens, claimID, owner := Run(EMPTY, log).tokens, FirstClaim(log, c, t), LastOwner(log, c, t);
            && (GetID(t, c) in tokens <==> claimID.Some?) && (claimID.Some? <==> owner.Some?)
            && (claimID.Some? ==>
                  tokens[GetID(t, c)] == ClaimToken(GetID(t, c), owner.value, GetID(claimID.value, c), t,
                                                    Recorded(0, RowsOfLog(log), c, t)))
  {
    hide Run, GetID, Recorded;
    RunNames(log, c, t);
    RunUnits(EMPTY, log, c, t);
    ReachableIndexed(EMPTY, log);
  }

  /** The claim a token names is in the store exactly if an event stored it: a row alone does not. */
  lemma TokenClaimStored(log: seq<Call>, c: Address, t: nat)
    requires FirstClaim(log, c, t).Some?
    ensures GetID(t, c) in Run(EMPTY, log).tokens
    ensures Run(EMPTY, log).tokens[GetID(t, c)].claim in Run(EMPTY, log).claims
            <==> exists call :: call in log && Stores(call.event, c, FirstClaim(log, c, t).value)
  {
    var p := (e: Event) => Stores(e, c, FirstClaim(log, c, t).value);
    TokenHistory(log, c, t);
    ClaimHistory(log, c, FirstClaim(log, c, t).value);
    FirstIffLast(log, p);
  }
}
