/**
 * The hypercert subgraph as a function of its event log.  The entity store is three
 * tables keyed by the strings that GetID builds; `Step` is what one event does to it.
 */
module SubgraphStore {
  import opened Options
  import opened Text

  datatype ClaimToken = ClaimToken(id: string, owner: Address, claim: string, tokenID: nat, units: int)

  datatype Claim = Claim(id: string, creation: nat, tokenID: nat, contract: string,
                         uri: Option<string>, creator: Option<Address>, owner: Option<Address>,
                         totalUnits: Option<nat>)

  datatype Allowlist = Allowlist(id: string, root: seq<Byte>, claim: string)

  type Tokens = map<string, ClaimToken>

  datatype Store = Store(allowlists: map<string, Allowlist>, claims: map<string, Claim>, tokens: Tokens)

  const EMPTY := Store(map[], map[], map[])

  /** What the minter contract's ownerOf answers while an event is handled. */
  type OwnerOf = (Address, nat) -> Address

  datatype Event =
    | AllowlistCreated(address: Address, tokenID: nat, root: seq<Byte>)
    | ClaimStored(address: Address, claimID: nat, uri: string, totalUnits: nat, timestamp: nat, sender: Address)
    | TransferSingle(address: Address, id: nat, to: Address)
    | TransferBatch(address: Address, ids: seq<nat>, to: Address)
    | ValueTransfer(address: Address, claimID: nat, fromTokenID: nat, toTokenID: nat, value: nat)
    | BatchValueTransfer(address: Address, claimIDs: seq<nat>, fromTokenIDs: seq<nat>,
                         toTokenIDs: seq<nat>, values: seq<nat>)
    | Unhandled(address: Address)  // ApprovalForAll, Initialized, LeafClaimed, OwnershipTransferred, URI

  /** One movement of units: the five numbers a value transfer carries. */
  datatype Row = Row(contract: Address, claimID: nat, fromID: nat, toID: nat, value: nat)

  predicate Touches(r: Row, c: Address, t: nat) { r.contract == c && (r.fromID == t || r.toID == t) }

  // ------------------------------------------------------------------- keys

  function GetID(tokenID: nat, contract: Address): (id: string) {
    "0x" + Hex(contract) + ("-" + Decimal(tokenID))
  }

  lemma KeyParts(hex: string, decimal: string)
    requires |hex| == 40
    ensures ("0x" + hex + ("-" + decimal))[2..42] == hex
    ensures ("0x" + hex + ("-" + decimal))[43..] == decimal
  {
  }

  lemma GetIDInjective(t1: nat, c1: Address, t2: nat, c2: Address)
    requires GetID(t1, c1) == GetID(t2, c2)
    ensures t1 == t2 && c1 == c2
  {
    KeyParts(Hex(c1), Decimal(t1));
    KeyParts(Hex(c2), Decimal(t2));
    HexInjective(c1, c2);
    DecimalInjective(t1, t2);
  }

  // ------------------------------------------------------ one row of values

  function Ensure(tokens: Tokens, claimID: nat, tokenID: nat, contract: Address, ownerOf: OwnerOf): (r: Tokens)
    ensures GetID(tokenID, contract) in r
    ensures r.Keys == tokens.Keys + {GetID(tokenID, contract)}
    ensures forall id :: id in tokens ==> r[id] == tokens[id]
  {
    var id := GetID(tokenID, contract);
    if id in tokens then tokens
    else tokens[id := ClaimToken(id, ownerOf(contract, tokenID), GetID(claimID, contract), tokenID, 0)]
  }

  function EnsureBoth(tokens: Tokens, r: Row, ownerOf: OwnerOf): Tokens {
    Ensure(Ensure(tokens, r.claimID, r.fromID, r.contract, ownerOf), r.claimID, r.toID, r.contract, ownerOf)
  }

  function FromKey(r: Row): string { GetID(r.fromID, r.contract) }

  function ToKey(r: Row): string { GetID(r.toID, r.contract) }

  /** The two loaded copies after a mint, a transfer, a burn, or a row that touches neither. */
  function Moved(from: ClaimToken, to: ClaimToken, value: nat): (m: (ClaimToken, ClaimToken))
    ensures m.0.(units := 0) == from.(units := 0) && m.1.(units := 0) == to.(units := 0)
    ensures from.tokenID == 0 ==> m.0 == from
    ensures to.tokenID == 0 ==> m.1 == to
  {
    if from.tokenID == 0 && to.tokenID != 0 then (from, to.(units := value))
    else if from.tokenID != 0 && to.tokenID != 0 then
      (from.(units := from.units - value), to.(units := to.units + value))
    else if from.tokenID != 0 then (from.(units := from.units - value), to)
    else (from, to)
  }

  /** Both copies are loaded before either is changed; `from` is written back before `to`. */
  function ApplyRow(tokens: Tokens, r: Row, ownerOf: OwnerOf): Tokens {
    var loaded := EnsureBoth(tokens, r, ownerOf);
    var m := Moved(loaded[FromKey(r)], loaded[ToKey(r)], r.value);
    loaded[FromKey(r) := m.0][ToKey(r) := m.1]
  }

  function ApplyRows(tokens: Tokens, rows: seq<Row>, ownerOf: OwnerOf): Tokens {
    if rows == [] then tokens
    else ApplyRow(ApplyRows(tokens, rows[..|rows| - 1], ownerOf), rows[|rows| - 1], ownerOf)
  }

  // ----------------------------------------------------------- whole events

  function Min(a: nat, b: nat): nat { if a < b then a else b }

  /** The rows a batch handler completes before it runs past the end of one of the arrays. */
  function CompleteRows(e: Event): (n: nat)
    requires e.BatchValueTransfer?
    ensures n <= |e.claimIDs| && n <= |e.fromTokenIDs| && n <= |e.toTokenIDs| && n <= |e.values|
    ensures n == |e.claimIDs| || n == |e.fromTokenIDs| || n == |e.toTokenIDs| || n == |e.values|
  {
    Min(Min(|e.claimIDs|, |e.fromTokenIDs|), Min(|e.toTokenIDs|, |e.values|))
  }

  /** The handler traps exactly when it must read an array element that is not there. */
  predicate Traps(e: Event) {
    e.BatchValueTransfer? && CompleteRows(e) < |e.claimIDs|
  }

  function RowsOf(e: Event): seq<Row> {
    match e
    case ValueTransfer(c, claimID, from, to, value) => [Row(c, claimID, from, to, value)]
    case BatchValueTransfer(c, claimIDs, froms, tos, values) =>
      seq(CompleteRows(e), i requires 0 <= i < CompleteRows(e) => Row(c, claimIDs[i], froms[i], tos[i], values[i]))
    case _ => []
  }

  /** Entities that a trapping batch has already created for the row it could not finish. */
  function Dangling(tokens: Tokens, e: Event, ownerOf: OwnerOf): Tokens
    requires Traps(e)
  {
    var n := CompleteRows(e);
    if n >= |e.fromTokenIDs| then tokens
    else
      var t := Ensure(tokens, e.claimIDs[n], e.fromTokenIDs[n], e.address, ownerOf);
      if n >= |e.toTokenIDs| then t
      else Ensure(t, e.claimIDs[n], e.toTokenIDs[n], e.address, ownerOf)
  }

  function StepTokens(tokens: Tokens, e: Event, ownerOf: OwnerOf): Tokens {
    match e
    case TransferSingle(c, id, to) =>
      var key := GetID(id, c);
      if key in tokens then tokens[key := tokens[key].(owner := to)] else tokens
    case _ =>
      var t := ApplyRows(tokens, RowsOf(e), ownerOf);
      if Traps(e) then Dangling(t, e, ownerOf) else t
  }

  function StepClaims(claims: map<string, Claim>, e: Event): map<string, Claim> {
    match e
    case ClaimStored(c, claimID, uri, totalUnits, timestamp, sender) =>
      var id := GetID(claimID, c);
      var claim := if id in claims then claims[id]
                   else Claim(id, timestamp, claimID, "0x" + Hex(c), None, None, None, None);
      claims[id := claim.(uri := Some(uri), creator := Some(sender), owner := Some(sender),
                          totalUnits := Some(totalUnits))]
    case _ => claims
  }

  function StepAllowlists(lists: map<string, Allowlist>, e: Event): map<string, Allowlist> {
    match e
    case AllowlistCreated(c, tokenID, root) =>
      var id := GetID(tokenID, c);
      if id in lists then lists else lists[id := Allowlist(id, root, GetID(tokenID, c))]
    case _ => lists
  }

  function Step(s: Store, e: Event, ownerOf: OwnerOf): Store {
    Store(StepAllowlists(s.allowlists, e), StepClaims(s.claims, e), StepTokens(s.tokens, e, ownerOf))
  }

  /** One handler call: the event and what the contract answers meanwhile. */
  datatype Call = Call(event: Event, ownerOf: OwnerOf)

  function Run(s: Store, log: seq<Call>): Store {
    if log == [] then s
    else Step(Run(s, log[..|log| - 1]), log[|log| - 1].event, log[|log| - 1].ownerOf)
  }

  lemma {:induction false} RunConcat(s: Store, a: seq<Call>, b: seq<Call>)
    ensures Run(s, a + b) == Run(Run(s, a), b)
  {
    if b == [] {
      assert a + b == a;
    } else {
      assert (a + b)[..|a + b| - 1] == a + b[..|b| - 1];
      RunConcat(s, a, b[..|b| - 1]);
    }
  }

  // -------------------------------------------------------------- well-formed

  /** Every entity sits under its own key, and token zero never holds units. */
  ghost predicate Indexed(tokens: Tokens) {
    && (forall id :: id in tokens ==> tokens[id].id == id)
    && (forall c: Address, t: nat :: GetID(t, c) in tokens ==>
          tokens[GetID(t, c)].tokenID == t && (t == 0 ==> tokens[GetID(t, c)].units == 0))
  }

  /** Units on record for a token; a token without an entity holds none. */
  function Units(tokens: Tokens, c: Address, t: nat): int {
    var id := GetID(t, c);
    if id in tokens then tokens[id].units else 0
  }

  /** `b` has every entity of `a`, with the same identity and claim. */
  ghost predicate Extends(a: Tokens, b: Tokens) {
    forall id :: id in a ==> id in b && b[id].tokenID == a[id].tokenID && b[id].claim == a[id].claim
  }

  lemma EnsureKeepsIndexed(tokens: Tokens, claimID: nat, tokenID: nat, c: Address, ownerOf: OwnerOf)
    requires Indexed(tokens)
    ensures Indexed(Ensure(tokens, claimID, tokenID, c, ownerOf))
  {
    var r := Ensure(tokens, claimID, tokenID, c, ownerOf);
    forall c2: Address, t2: nat | GetID(t2, c2) in r
      ensures r[GetID(t2, c2)].tokenID == t2 && (t2 == 0 ==> r[GetID(t2, c2)].units == 0)
    {
      if GetID(t2, c2) == GetID(tokenID, c) { GetIDInjective(t2, c2, tokenID, c); }
    }
  }

  lemma EnsureBothKeepsIndexed(tokens: Tokens, r: Row, ownerOf: OwnerOf)
    requires Indexed(tokens)
    ensures Indexed(EnsureBoth(tokens, r, ownerOf))
  {
    EnsureKeepsIndexed(tokens, r.claimID, r.fromID, r.contract, ownerOf);
    EnsureKeepsIndexed(Ensure(tokens, r.claimID, r.fromID, r.contract, ownerOf),
                       r.claimID, r.toID, r.contract, ownerOf);
  }

  /** `after` differs from `loaded` in units only, and not where the token id is zero. */
  ghost predicate RewritesUnits(loaded: Tokens, after: Tokens) {
    && after.Keys == loaded.Keys
    && (forall id :: id in after ==> after[id].(units := 0) == loaded[id].(units := 0))
    && (forall id :: id in after && loaded[id].tokenID == 0 ==> after[id].units == loaded[id].units)
  }

  ghost predicate KeepsOwners(a: Tokens, b: Tokens) {
    forall id :: id in a ==> id in b && b[id].owner == a[id].owner
  }

  lemma RowRewritesUnits(tokens: Tokens, r: Row, ownerOf: OwnerOf)
    ensures RewritesUnits(EnsureBoth(tokens, r, ownerOf), ApplyRow(tokens, r, ownerOf))
  {
  }

  lemma RewriteKeepsIndexed(loaded: Tokens, after: Tokens)
    requires Indexed(loaded) && RewritesUnits(loaded, after)
    ensures Indexed(after)
  {
    forall id | id in after
      ensures after[id].id == id
    {
      assert after[id].(units := 0) == loaded[id].(units := 0);
    }
    forall c: Address, t: nat | GetID(t, c) in after
      ensures after[GetID(t, c)].tokenID == t && (t == 0 ==> after[GetID(t, c)].units == 0)
    {
      assert after[GetID(t, c)].(units := 0) == loaded[GetID(t, c)].(units := 0);
    }
  }

  lemma RewriteExtends(tokens: Tokens, loaded: Tokens, after: Tokens)
    requires forall id :: id in tokens ==> id in loaded && loaded[id] == tokens[id]
    requires RewritesUnits(loaded, after)
    ensures Extends(tokens, after) && KeepsOwners(tokens, after)
  {
    forall id | id in tokens
      ensures id in after && after[id].tokenID == tokens[id].tokenID && after[id].claim == tokens[id].claim
      ensures after[id].owner == tokens[id].owner
    {
      assert id in loaded && id in after.Keys;
      assert after[id].(units := 0) == loaded[id].(units := 0);
    }
  }

  lemma RowKeepsIndexed(tokens: Tokens, r: Row, ownerOf: OwnerOf)
    requires Indexed(tokens)
    ensures Indexed(ApplyRow(tokens, r, ownerOf))
    ensures Extends(tokens, ApplyRow(tokens, r, ownerOf))
    ensures KeepsOwners(tokens, ApplyRow(tokens, r, ownerOf))
  {
    EnsureBothKeepsIndexed(tokens, r, ownerOf);
    RowRewritesUnits(tokens, r, ownerOf);
    RewriteKeepsIndexed(EnsureBoth(tokens, r, ownerOf), ApplyRow(tokens, r, ownerOf));
    RewriteExtends(tokens, EnsureBoth(tokens, r, ownerOf), ApplyRow(tokens, r, ownerOf));
  }

  lemma {:induction false} RowsKeepIndexed(tokens: Tokens, rows: seq<Row>, ownerOf: OwnerOf)
    requires Indexed(tokens)
    ensures Indexed(ApplyRows(tokens, rows, ownerOf))
    ensures Extends(tokens, ApplyRows(tokens, rows, ownerOf))
    ensures KeepsOwners(tokens, ApplyRows(tokens, rows, ownerOf))
  {
    if rows == [] {
    } else {
      RowsKeepIndexed(tokens, rows[..|rows| - 1], ownerOf);
      RowKeepsIndexed(ApplyRows(tokens, rows[..|rows| - 1], ownerOf), rows[|rows| - 1], ownerOf);
    }
  }

  lemma DanglingKeepsIndexed(tokens: Tokens, e: Event, ownerOf: OwnerOf)
    requires Indexed(tokens) && Traps(e)
    ensures Indexed(Dangling(tokens, e, ownerOf))
    ensures forall id :: id in tokens ==>
              id in Dangling(tokens, e, ownerOf) && Dangling(tokens, e, ownerOf)[id] == tokens[id]
  {
    var n := CompleteRows(e);
    if n < |e.fromTokenIDs| {
      EnsureKeepsIndexed(tokens, e.claimIDs[n], e.fromTokenIDs[n], e.address, ownerOf);
      if n < |e.toTokenIDs| {
        EnsureKeepsIndexed(Ensure(tokens, e.claimIDs[n], e.fromTokenIDs[n], e.address, ownerOf),
                           e.claimIDs[n], e.toTokenIDs[n], e.address, ownerOf);
      }
    }
  }

  lemma StepKeepsIndexed(tokens: Tokens, e: Event, ownerOf: OwnerOf)
    requires Indexed(tokens)
    ensures Indexed(StepTokens(tokens, e, ownerOf))
    ensures Extends(tokens, StepTokens(tokens, e, ownerOf))
  {
    if e.TransferSingle? {
      var after := StepTokens(tokens, e, ownerOf);
      assert after.Keys == tokens.Keys;
    } else {
      RowsKeepIndexed(tokens, RowsOf(e), ownerOf);
      if Traps(e) { DanglingKeepsIndexed(ApplyRows(tokens, RowsOf(e), ownerOf), e, ownerOf); }
    }
  }

  /** Every table is keyed by the ids of its entities, and the tokens are well indexed. */
  ghost predicate WellFormed(s: Store) {
    && Indexed(s.tokens)
    && (forall id :: id in s.claims ==> s.claims[id].id == id)
    && (forall id :: id in s.allowlists ==> s.allowlists[id].id == id)
  }

  lemma StepKeepsWellFormed(s: Store, e: Event, ownerOf: OwnerOf)
    requires WellFormed(s)
    ensures WellFormed(Step(s, e, ownerOf))
  {
    StepKeepsIndexed(s.tokens, e, ownerOf);
  }

  /** In every reachable store each entity carries the token id of its key and token zero holds no units. */
  lemma {:induction false} ReachableIndexed(s: Store, log: seq<Call>)
    requires Indexed(s.tokens)
    ensures Indexed(Run(s, log).tokens)
    ensures Extends(s.tokens, Run(s, log).tokens)
  {
    if log == [] {
    } else {
      var front := log[..|log| - 1];
      ReachableIndexed(s, front);
      StepKeepsIndexed(Run(s, front).tokens, log[|log| - 1].event, log[|log| - 1].ownerOf);
    }
  }

  /** Once created, an entity stays, under the same token id and the same claim, whatever comes after. */
  lemma TokensNeverReassigned(earlier: seq<Call>, later: seq<Call>, id: string)
    requires id in Run(EMPTY, earlier).tokens
    ensures var before, after := Run(EMPTY, earlier).tokens, Run(EMPTY, earlier + later).tokens;
            id in after && after[id].tokenID == before[id].tokenID && after[id].claim == before[id].claim
  {
    RunConcat(EMPTY, earlier, later);
    ReachableIndexed(EMPTY, earlier);
    ReachableIndexed(Run(EMPTY, earlier), later);
  }
}
