/** Claims and allowlists: which parts of an entity the first event fixes and which the last one sets. */
module SubgraphRegistry {
  import opened Options
  import opened Text
  import opened SubgraphStore

  predicate Stores(e: Event, c: Address, id: nat) { e.ClaimStored? && e.address == c && e.claimID == id }

  predicate Lists(e: Event, c: Address, id: nat) { e.AllowlistCreated? && e.address == c && e.tokenID == id }

  function First(log: seq<Call>, p: Event -> bool): (r: Option<Event>)
    ensures r.Some? ==> p(r.value)
  {
    if log == [] then None
    else
      var earlier := First(log[..|log| - 1], p);
      if earlier.None? && p(log[|log| - 1].event) then Some(log[|log| - 1].event) else earlier
  }

  function Last(log: seq<Call>, p: Event -> bool): (r: Option<Event>)
    ensures r.Some? ==> p(r.value)
  {
    if log == [] then None
    else if p(log[|log| - 1].event) then Some(log[|log| - 1].event)
    else Last(log[..|log| - 1], p)
  }

  /** Nothing before the first such event is one. */
  lemma {:induction false} FirstAt(log: seq<Call>, p: Event -> bool) returns (i: nat)
    requires First(log, p).Some?
    ensures i < |log| && log[i].event == First(log, p).value && forall j :: 0 <= j < i ==> !p(log[j].event)
  {
    var front := log[..|log| - 1];
    FirstIffLast(front, p);
    if First(front, p).Some? {
      i := FirstAt(front, p);
      assert forall j :: 0 <= j < i ==> log[j] == front[j];
    } else {
      i := |front|;
      forall j | 0 <= j < i ensures !p(log[j].event) { assert log[j] == front[j] && front[j] in front; }
    }
  }

  /** Nothing after the last such event is one. */
  lemma {:induction false} LastAt(log: seq<Call>, p: Event -> bool) returns (i: nat)
    requires Last(log, p).Some?
    ensures i < |log| && log[i].event == Last(log, p).value && forall j :: i < j < |log| ==> !p(log[j].event)
  {
    if p(log[|log| - 1].event) {
      i := |log| - 1;
    } else {
      var front := log[..|log| - 1];
      i := LastAt(front, p);
      assert forall j :: i <= j < |front| ==> log[j] == front[j];
    }
  }

  lemma {:induction false} FirstIffLast(log: seq<Call>, p: Event -> bool)
    ensures First(log, p).Some? <==> Last(log, p).Some?
    ensures First(log, p).Some? <==> exists call :: call in log && p(call.event)
  {
    if log == [] {
    } else {
      FirstIffLast(log[..|log| - 1], p);
      assert log[|log| - 1] in log;
    }
  }

  /**
   * A claim is in the store exactly if a ClaimStored event named it.  Its creation time is that of the
   * first such event and never changes; its uri, creator, owner and total units are those of the last.
   */
  lemma {:induction false} ClaimHistory(log: seq<Call>, c: Address, id: nat)
    ensures var p := (e: Event) => Stores(e, c, id);
            var first, last, claims := First(log, p), Last(log, p), Run(EMPTY, log).claims;
            && (first.Some? <==> last.Some?)
            && (GetID(id, c) in claims <==> first.Some?)
            && (first.Some? ==>
                  claims[GetID(id, c)] ==
                  Claim(GetID(id, c), first.value.timestamp, id, "0x" + Hex(c), Some(last.value.uri),
                        Some(last.value.sender), Some(last.value.sender), Some(last.value.totalUnits)))
  {
    FirstIffLast(log, (e: Event) => Stores(e, c, id));
    if log == [] {
    } else {
      ClaimHistory(log[..|log| - 1], c, id);
      var e := log[|log| - 1].event;
      if e.ClaimStored? && GetID(e.claimID, e.address) == GetID(id, c) { GetIDInjective(e.claimID, e.address, id, c); }
    }
  }

  /** An allowlist keeps the root of the first event that created it, whatever follows. */
  lemma {:induction false} AllowlistHistory(log: seq<Call>, c: Address, id: nat)
    ensures var p := (e: Event) => Lists(e, c, id);
            var first, lists := First(log, p), Run(EMPTY, log).allowlists;
            && (GetID(id, c) in lists <==> first.Some?)
            && (first.Some? ==> lists[GetID(id, c)] == Allowlist(GetID(id, c), first.value.root, GetID(id, c)))
  {
    if log == [] {
    } else {
      AllowlistHistory(log[..|log| - 1], c, id);
      var e := log[|log| - 1].event;
      if e.AllowlistCreated? && GetID(e.tokenID, e.address) == GetID(id, c) {
        GetIDInjective(e.tokenID, e.address, id, c);
      }
    }
  }

  /** Every allowlist names the claim of its own token. */
  lemma {:induction false} AllowlistNamesOwnClaim(log: seq<Call>, id: string)
    requires id in Run(EMPTY, log).allowlists
    ensures Run(EMPTY, log).allowlists[id].claim == id
  {
    var front := log[..|log| - 1];
    if id in Run(EMPTY, front).allowlists { AllowlistNamesOwnClaim(front, id); }
  }
}
