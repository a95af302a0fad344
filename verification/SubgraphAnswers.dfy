/** What the subgraph can answer, and what that spares the programs that ask it. */
module SubgraphAnswers {
  import opened SubgraphRegistry
  import opened SubgraphStore
  import opened Sums
  import opened Text

  import AllowlistCache
  import HypercertAccounting
  import HypercertShares

  /** The claims of some stored allowlists, as a query for allowlists lists them. */
  function Listing(lists: map<string, Allowlist>, ids: seq<string>): (claims: seq<string>)
    requires forall id :: id in ids ==> id in lists
    ensures |claims| == |ids| && forall i :: 0 <= i < |ids| ==> claims[i] == lists[ids[i]].claim
  {
    seq(|ids|, i requires 0 <= i < |ids| => lists[ids[i]].claim)
  }

  /** What a query can answer: no allowlist of the index twice. */
  ghost predicate Queried(log: seq<Call>, ids: seq<string>) {
    Distinct(ids) && forall id :: id in ids ==> id in Run(EMPTY, log).allowlists
  }

  /** No claim is listed twice. */
  lemma ListingDistinct(log: seq<Call>, ids: seq<string>)
    requires Queried(log, ids)
    ensures Distinct(Listing(Run(EMPTY, log).allowlists, ids))
  {
    forall id | id in ids ensures Run(EMPTY, log).allowlists[id].claim == id { AllowlistNamesOwnClaim(log, id); }
  }

  /** A listing that the subgraph can give. */
  ghost predicate FromIndex(list: seq<string>) {
    exists log, ids :: Queried(log, ids) && list == Listing(Run(EMPTY, log).allowlists, ids)
  }

  lemma FromIndexDistinct(list: seq<string>)
    requires FromIndex(list)
    ensures Distinct(list)
  {
    var log, ids :| Queried(log, ids) && list == Listing(Run(EMPTY, log).allowlists, ids);
    ListingDistinct(log, ids);
  }

  /** The subgraph never lists a claim twice, so its listings keep the file's claim ids distinct. */
  lemma IndexedUpdatesAppend(updates: seq<HypercertAccounting.Update>)
    requires forall u :: u in updates ==> FromIndex(u.list)
    ensures forall u, existing :: u in updates ==> HypercertAccounting.ListedOnce(u.list, existing, u.world)
    ensures Distinct(HypercertAccounting.Ids(HypercertAccounting.RunUpdates(updates)))
  {
    hide FromIndex;
    forall u | u in updates ensures Distinct(u.list) { FromIndexDistinct(u.list); }
    HypercertAccounting.UpdatesAppend(updates);
  }

  /**
   * The subgraph hands out owners in lower-case hex, so a token of its answer is found however its owner is
   * capitalised, and under no other name.
   */
  lemma IndexedTokenFound(t: ClaimToken, tokens: seq<HypercertShares.Token>, name: string)
    requires t.units >= 0 && HypercertShares.Token("0x" + Hex(t.owner), t.units) in tokens
    ensures HypercertShares.Token("0x" + Hex(t.owner), t.units) in HypercertShares.TokensFor(tokens, name)
            <==> SameButForCase(name, "0x" + Hex(t.owner))
  {
    hide Lower;
    LowerHex(t.owner);
    LowerEqualIff(name, "0x" + Hex(t.owner));
    HypercertShares.TokensForIff(tokens, name, HypercertShares.Token("0x" + Hex(t.owner), t.units));
  }

  /** The cache and the subgraph name a claim alike: the contract in hex, a dash, the claim's number. */
  lemma SameClaimIds(claimID: nat, contract: Address)
    ensures GetID(claimID, contract) == AllowlistCache.FormatClaimId("0x" + Hex(contract), claimID)
    ensures GetID(claimID, contract) == "0x" + Hex(contract) + "-" + Decimal(claimID)
  {
  }
}
