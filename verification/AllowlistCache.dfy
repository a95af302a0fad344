/**
 * The cache of claimable fractions: one table, filled when an allowlist is created and emptied when
 * its holders mint.  The three handlers run one at a time but in no fixed order.
 */
module AllowlistCache {
  import opened Options
  import opened Text
  import opened Sums

  datatype CacheRow = CacheRow(address: string, claimId: string, fractionCounter: nat)

  /** A transaction log: not of this contract's interface, or an event and the arguments used here. */
  datatype Log = Unparsed | Parsed(name: string, tokenID: nat, claimIDs: seq<nat>)

  /**
   * What Defender hands to a handler.  `receipt` is the status in the awaited receipt, if waiting for it
   * succeeds; the library's wait rejects for a reverted transaction.
   */
  datatype Trigger = Trigger(isBlock: bool, contract: string, from: string, logs: Option<seq<Log>>,
                             txFound: bool, receipt: Option<nat>)

  datatype Outcome = Done | NotImplemented | MissingData | Failed

  // ------------------------------------------------------------- claim ids

  function FormatClaimId(contract: string, claimID: nat): string {
    contract + "-" + Decimal(claimID)
  }

  lemma FormatClaimIdInjective(contract: string, a: nat, b: nat)
    requires FormatClaimId(contract, a) == FormatClaimId(contract, b)
    ensures a == b
  {
    assert FormatClaimId(contract, a)[|contract| + 1..] == Decimal(a);
    assert FormatClaimId(contract, b)[|contract| + 1..] == Decimal(b);
    DecimalInjective(a, b);
  }

  /** The inserting handler does not lower-case the id and the deleting ones do: same string. */
  lemma SameFormat(contract: string, claimID: nat)
    ensures contract + "-" + Lower(Decimal(claimID)) == FormatClaimId(contract, claimID)
  {
    LowerDecimal(claimID);
  }

  // ------------------------------------------------------------ operations

  /** A handler run that reaches the table. */
  datatype Op =
    | Created(contract: string, tokenID: nat, addresses: seq<string>)
    | Minted(contract: string, from: string, claimIDs: seq<nat>)

  function BuildRows(claimId: string, addresses: seq<string>): (rows: seq<CacheRow>)
    ensures |rows| == |addresses|
    ensures forall i :: 0 <= i < |rows| ==> rows[i] == CacheRow(Lower(addresses[i]), claimId, i)
  {
    seq(|addresses|, i requires 0 <= i < |addresses| => CacheRow(Lower(addresses[i]), claimId, i))
  }

  function Ids(contract: string, claimIDs: seq<nat>): set<string> {
    set i | 0 <= i < |claimIDs| :: FormatClaimId(contract, claimIDs[i])
  }

  /** Without the rows of the address under any of the claim ids. */
  function Delete(rows: seq<CacheRow>, from: string, ids: set<string>): (r: seq<CacheRow>) {
    if rows == [] then []
    else
      var last := rows[|rows| - 1];
      Delete(rows[..|rows| - 1], from, ids) + if last.address == from && last.claimId in ids then [] else [last]
  }

  function Step(rows: seq<CacheRow>, op: Op): seq<CacheRow> {
    match op
    case Created(contract, tokenID, addresses) => rows + BuildRows(FormatClaimId(contract, tokenID), addresses)
    case Minted(contract, from, claimIDs) => Delete(rows, from, Ids(contract, claimIDs))
  }

  function Run(rows: seq<CacheRow>, ops: seq<Op>): seq<CacheRow> {
    if ops == [] then rows else Step(Run(rows, ops[..|ops| - 1]), ops[|ops| - 1])
  }

  // ------------------------------------------- what the cache should hold

  /** The allowlist created by `op` has r.address (in lower case) at position r.fractionCounter. */
  predicate Lists(op: Op, r: CacheRow) {
    && op.Created? && r.claimId == FormatClaimId(op.contract, op.tokenID)
    && r.fractionCounter < |op.addresses| && r.address == Lower(op.addresses[r.fractionCounter])
  }

  predicate MintsOn(op: Op, claimId: string) {
    op.Minted? && exists id :: id in op.claimIDs && claimId == FormatClaimId(op.contract, id)
  }

  /** `op` is a successful mint on r's claim by r.address, however its sender is capitalised. */
  predicate Claims(op: Op, r: CacheRow) { MintsOn(op, r.claimId) && Lower(op.from) == r.address }

  /** The same with the sender spelled as in the row, which is what the handler's query asks for. */
  predicate Deletes(op: Op, r: CacheRow) { MintsOn(op, r.claimId) && op.from == r.address }

  predicate Claimed(ops: seq<Op>, r: CacheRow) {
    exists op :: op in ops && Claims(op, r)
  }

  predicate Deleted(ops: seq<Op>, r: CacheRow) {
    exists op :: op in ops && Deletes(op, r)
  }

  function Listing(r: CacheRow): Op -> int { op => if Lists(op, r) then 1 else 0 }

  /** Once per listing while nobody has claimed it, and gone after that. */
  function Ideal(ops: seq<Op>, r: CacheRow): int {
    if Claimed(ops, r) then 0 else Total(ops, Listing(r))
  }

  ghost predicate Exact(rows: seq<CacheRow>, ops: seq<Op>) {
    forall r :: multiset(rows)[r] == Ideal(ops, r)
  }

  // ------------------------------------------------------------ one step

  lemma {:induction false} DeleteCount(rows: seq<CacheRow>, from: string, ids: set<string>, r: CacheRow)
    ensures multiset(Delete(rows, from, ids))[r]
            == if r.address == from && r.claimId in ids then 0 else multiset(rows)[r]
  {
    if rows == [] {
    } else {
      assert rows == rows[..|rows| - 1] + [rows[|rows| - 1]];
      DeleteCount(rows[..|rows| - 1], from, ids, r);
    }
  }

  lemma {:induction false} BuildRowsCount(claimId: string, addresses: seq<string>, r: CacheRow)
    ensures multiset(BuildRows(claimId, addresses))[r]
            == if r.claimId == claimId && r.fractionCounter < |addresses|
                  && r.address == Lower(addresses[r.fractionCounter]) then 1 else 0
  {
    if addresses == [] {
      assert BuildRows(claimId, addresses) == [];
    } else {
      var n := |addresses| - 1;
      BuildRowsCount(claimId, addresses[..n], r);
      assert BuildRows(claimId, addresses)
             == BuildRows(claimId, addresses[..n]) + [CacheRow(Lower(addresses[n]), claimId, n)];
    }
  }

  lemma StepCount(rows: seq<CacheRow>, op: Op, r: CacheRow)
    ensures multiset(Step(rows, op))[r]
            == if Deletes(op, r) then 0 else multiset(rows)[r] + Listing(r)(op)
  {
    match op
    case Created(contract, tokenID, addresses) =>
      BuildRowsCount(FormatClaimId(contract, tokenID), addresses, r);
    case Minted(contract, from, claimIDs) =>
      DeleteCount(rows, from, Ids(contract, claimIDs), r);
  }

  // ------------------------------------------------------- exactness, order

  predicate DeletedAfter(ops: seq<Op>, j: nat, r: CacheRow)
    requires j < |ops|
  {
    Deleted(ops[j + 1..], r)
  }

  /** Every listing of the row is followed by a claim under its own spelling. */
  ghost predicate Settled(ops: seq<Op>, r: CacheRow) {
    forall j :: 0 <= j < |ops| && Lists(ops[j], r) ==> DeletedAfter(ops, j, r)
  }

  lemma DeletedAppend(ops: seq<Op>, op: Op, r: CacheRow)
    ensures Deleted(ops + [op], r) <==> Deleted(ops, r) || Deletes(op, r)
  {
    if Deletes(op, r) { assert op in ops + [op]; }
    if q :| q in ops && Deletes(q, r) { assert q in ops + [op]; }
  }

  lemma SettledAppend(ops: seq<Op>, op: Op, r: CacheRow)
    ensures Settled(ops + [op], r) <==> Deletes(op, r) || (Settled(ops, r) && !Lists(op, r))
  {
    var all := ops + [op];
    forall j | 0 <= j < |ops|
      ensures DeletedAfter(all, j, r) <==> DeletedAfter(ops, j, r) || Deletes(op, r)
    {
      assert all[j + 1..] == ops[j + 1..] + [op];
      DeletedAppend(ops[j + 1..], op, r);
    }
    assert forall j :: 0 <= j < |ops| ==> all[j] == ops[j];
    assert all[|ops|] == op && all[|ops| + 1..] == [];
    assert !DeletedAfter(all, |ops|, r);
    assert !(Deletes(op, r) && Lists(op, r));
  }

  lemma {:induction false} RunCount(ops: seq<Op>, r: CacheRow)
    ensures multiset(Run([], ops))[r] == 0 <==> Settled(ops, r)
    ensures !Deleted(ops, r) ==> multiset(Run([], ops))[r] == Total(ops, Listing(r))
  {
    if ops == [] {
    } else {
      var front, last := ops[..|ops| - 1], ops[|ops| - 1];
      assert ops == front + [last];
      RunCount(front, r);
      StepCount(Run([], front), last, r);
      SettledAppend(front, last, r);
      DeletedAppend(front, last, r);
    }
  }

  lemma {:induction false} ListedLower(ops: seq<Op>, r: CacheRow)
    ensures Lower(r.address) != r.address ==> Total(ops, Listing(r)) == 0
  {
    if Lower(r.address) != r.address {
      forall op | op in ops ensures Listing(r)(op) == 0 {
        if Lists(op, r) { LowerIdempotent(op.addresses[r.fractionCounter]); }
      }
      TotalZero(ops, Listing(r));
    }
  }

  lemma DeletedIsClaimed(ops: seq<Op>, r: CacheRow)
    requires Lower(r.address) == r.address && Deleted(ops, r)
    ensures Claimed(ops, r)
  {
    var op :| op in ops && Deletes(op, r);
    assert Claims(op, r);
  }

  /**
   * The cache is exact exactly when every listing of a claimed row is followed by a claim whose sender
   * is in lower case: then it holds row (a, c, i) iff allowlist c lists a at position i and a, however
   * capitalised, has not successfully minted on c.
   */
  lemma ExactIffSettled(ops: seq<Op>)
    ensures Exact(Run([], ops), ops) <==> forall r :: Claimed(ops, r) ==> Settled(ops, r)
  {
    forall r ensures multiset(Run([], ops))[r] == Ideal(ops, r) <==> (Claimed(ops, r) ==> Settled(ops, r)) {
      RunCount(ops, r);
      if !Claimed(ops, r) {
        ListedLower(ops, r);
        if Lower(r.address) == r.address {
          if Deleted(ops, r) { DeletedIsClaimed(ops, r); }
        } else {
          UnlistedSettled(ops, r);
        }
      }
    }
  }

  /** Rows with capital letters are never in the cache. */
  lemma UnlistedSettled(ops: seq<Op>, r: CacheRow)
    requires Lower(r.address) != r.address
    ensures Settled(ops, r)
  {
    forall j | 0 <= j < |ops| ensures !Lists(ops[j], r) {
      if Lists(ops[j], r) { LowerIdempotent(ops[j].addresses[r.fractionCounter]); }
    }
  }

  /** Each claim's allowlist is inserted before any mint on that claim is handled. */
  predicate InOrder(ops: seq<Op>) {
    forall i, j :: 0 <= i < j < |ops| && ops[j].Created? ==>
      !MintsOn(ops[i], FormatClaimId(ops[j].contract, ops[j].tokenID))
  }

  predicate Listed(ops: seq<Op>, r: CacheRow) { exists op :: op in ops && Lists(op, r) }

  lemma InOrderSettled(ops: seq<Op>, r: CacheRow)
    requires InOrder(ops)
    ensures Settled(ops, r) <==> Listed(ops, r) ==> Deleted(ops, r)
  {
    if Deleted(ops, r) {
      forall j | 0 <= j < |ops| && Lists(ops[j], r) ensures DeletedAfter(ops, j, r) {
        var op :| op in ops && Deletes(op, r);
        var i :| 0 <= i < |ops| && ops[i] == op;
        assert i > j;
        assert ops[j + 1..][i - j - 1] == op;
      }
    } else if op :| op in ops && Lists(op, r) {
      var j :| 0 <= j < |ops| && ops[j] == op;
      if q :| q in ops[j + 1..] && Deletes(q, r) { assert q in ops; }
    }
  }

  /** With insertions first, all that is left to go wrong is a claim with capital letters in its sender. */
  lemma InOrderExactIff(ops: seq<Op>)
    requires InOrder(ops)
    ensures Exact(Run([], ops), ops) <==> forall r :: Claimed(ops, r) && Listed(ops, r) ==> Deleted(ops, r)
  {
    ExactIffSettled(ops);
    forall r ensures Settled(ops, r) <==> Listed(ops, r) ==> Deleted(ops, r) { InOrderSettled(ops, r); }
  }

  lemma InOrderIsExact(ops: seq<Op>)
    requires InOrder(ops)
    requires forall op :: op in ops && op.Minted? ==> Lower(op.from) == op.from
    ensures Exact(Run([], ops), ops)
  {
    InOrderExactIff(ops);
    forall r | Claimed(ops, r) ensures Deleted(ops, r) {
      var op :| op in ops && Claims(op, r);
      assert Deletes(op, r);
    }
  }

  lemma InOrderCount(ops: seq<Op>, r: CacheRow)
    requires InOrder(ops)
    ensures multiset(Run([], ops))[r] == if Deleted(ops, r) then 0 else Total(ops, Listing(r))
  {
    RunCount(ops, r);
    InOrderSettled(ops, r);
  }

  /** Any two orders of the same handler runs that respect insertion before mints give the same cache. */
  lemma OrdersConverge(ops1: seq<Op>, ops2: seq<Op>)
    requires multiset(ops1) == multiset(ops2) && InOrder(ops1) && InOrder(ops2)
    ensures multiset(Run([], ops1)) == multiset(Run([], ops2))
  {
    forall r ensures multiset(Run([], ops1))[r] == multiset(Run([], ops2))[r] {
      InOrderCount(ops1, r);
      InOrderCount(ops2, r);
      assert forall op :: op in ops1 <==> op in multiset(ops1);
      assert forall op :: op in ops2 <==> op in multiset(ops2);
      TotalPermute(ops1, ops2, Listing(r));
    }
  }

  /** A mint handled before its allowlist leaves the minter's row in the cache, whoever it is. */
  lemma LateInsertIsStale(contract: string, claimID: nat, from: string)
    ensures var ops := [Minted(contract, from, [claimID]), Created(contract, claimID, [from])];
            var r := CacheRow(Lower(from), FormatClaimId(contract, claimID), 0);
            Claimed(ops, r) && r in multiset(Run([], ops))
  {
    var mint, create := Minted(contract, from, [claimID]), Created(contract, claimID, [from]);
    var r := CacheRow(Lower(from), FormatClaimId(contract, claimID), 0);
    assert claimID in mint.claimIDs;
    assert mint in [mint, create] && Claims(mint, r) && Lists(create, r);
    assert [mint, create][2..] == [] && [mint, create][1] == create;
    RunCount([mint, create], r);
  }

  // ------------------------------------------------------- batch and single

  function SingleMints(op: Op): (ops: seq<Op>)
    requires op.Minted?
    ensures |ops| == |op.claimIDs|
  {
    seq(|op.claimIDs|, i requires 0 <= i < |op.claimIDs| => Minted(op.contract, op.from, [op.claimIDs[i]]))
  }

  lemma {:induction false} DeleteTwice(rows: seq<CacheRow>, from: string, a: set<string>, b: set<string>)
    ensures Delete(Delete(rows, from, a), from, b) == Delete(rows, from, a + b)
  {
    if rows == [] {
    } else {
      var front, last := rows[..|rows| - 1], rows[|rows| - 1];
      DeleteTwice(front, from, a, b);
      var d := Delete(front, from, a);
      if last.address == from && last.claimId in a {
        assert Delete(rows, from, a) == d;
      } else {
        assert (d + [last])[..|d|] == d;
      }
    }
  }

  lemma {:induction false} DeleteNone(rows: seq<CacheRow>, from: string)
    ensures Delete(rows, from, {}) == rows
  {
    if rows == [] {
    } else {
      DeleteNone(rows[..|rows| - 1], from);
    }
  }

  /** One batch delete is the single deletes for its claim ids, one after the other. */
  lemma {:induction false} BatchIsSingles(rows: seq<CacheRow>, contract: string, from: string, claimIDs: seq<nat>)
    ensures Step(rows, Minted(contract, from, claimIDs)) == Run(rows, SingleMints(Minted(contract, from, claimIDs)))
  {
    var batch := Minted(contract, from, claimIDs);
    if claimIDs == [] {
      assert Ids(contract, claimIDs) == {};
      DeleteNone(rows, from);
    } else {
      var front, last := claimIDs[..|claimIDs| - 1], claimIDs[|claimIDs| - 1];
      BatchIsSingles(rows, contract, from, front);
      assert SingleMints(batch)[..|front|] == SingleMints(Minted(contract, from, front));
      assert Ids(contract, claimIDs) == Ids(contract, front) + Ids(contract, [last]) by {
        assert forall i :: 0 <= i < |front| ==> front[i] == claimIDs[i];
        assert [last][0] == last;
      }
      DeleteTwice(rows, from, Ids(contract, front), Ids(contract, [last]));
    }
  }

  // --------------------------------------------------- addresses and their case

  lemma {:induction false} CachedAddressesLower(ops: seq<Op>)
    ensures forall r :: r in Run([], ops) ==> Lower(r.address) == r.address
  {
    if ops == [] {
    } else {
      var front, last := ops[..|ops| - 1], ops[|ops| - 1];
      CachedAddressesLower(front);
      forall r | r in Run([], ops) ensures Lower(r.address) == r.address {
        assert multiset(Run([], ops))[r] > 0;
        StepCount(Run([], front), last, r);
        if Lists(last, r) {
          LowerIdempotent(last.addresses[r.fractionCounter]);
        } else {
          assert r in multiset(Run([], front));
        }
      }
    }
  }

  /**
   * Rows are inserted under lower-case addresses but deleted under the sender's address as given.  So
   * a mint removes just the rows it means to, exactly when the sender's address comes in lower case
   * or there is nothing to remove.
   */
  lemma DeleteIffLowerCase(ops: seq<Op>, op: Op)
    requires op.Minted?
    ensures (forall r :: r in multiset(Run([], ops)) ==> (r in multiset(Step(Run([], ops), op)) <==> !Claims(op, r)))
            <==> (Lower(op.from) == op.from || forall r :: r in multiset(Run([], ops)) ==> !Claims(op, r))
  {
    var rows := Run([], ops);
    CachedAddressesLower(ops);
    forall r | r in multiset(rows)
      ensures (r in multiset(Step(rows, op)) <==> !Deletes(op, r)) && Lower(r.address) == r.address
      ensures Lower(op.from) == op.from ==> (Deletes(op, r) <==> Claims(op, r))
      ensures Lower(op.from) != op.from ==> !Deletes(op, r)
    {
      StepCount(rows, op, r);
      assert r in rows;
    }
  }

  /** Every sender with a capital letter leaves its own row behind. */
  lemma ChecksummedSenderKeepsRow(contract: string, claimID: nat, from: string)
    requires Lower(from) != from
    ensures var ops := [Created(contract, claimID, [from]), Minted(contract, from, [claimID])];
            var r := CacheRow(Lower(from), FormatClaimId(contract, claimID), 0);
            InOrder(ops) && Claimed(ops, r) && r in multiset(Run([], ops))
  {
    var create, mint := Created(contract, claimID, [from]), Minted(contract, from, [claimID]);
    var ops, r := [create, mint], CacheRow(Lower(from), FormatClaimId(contract, claimID), 0);
    assert claimID in mint.claimIDs && ops[0] == create && ops[1] == mint;
    assert mint in ops && Claims(mint, r) && Lists(create, r);
    assert !DeletedAfter(ops, 0, r);
    RunCount(ops, r);
  }

  // --------------------------------------------------------------- handlers

  function Named(logs: seq<Log>, name: string): (r: seq<Log>)
    ensures forall l :: l in r <==> l in logs && l.Parsed? && l.name == name
  {
    if logs == [] then []
    else
      var l := logs[|logs| - 1];
      Named(logs[..|logs| - 1], name) + if l.Parsed? && l.name == name then [l] else []
  }

  /** Position i holds an event of this name, and no other position does. */
  predicate OnlyEvent(logs: seq<Log>, name: string, i: nat) {
    && i < |logs| && logs[i].Parsed? && logs[i].name == name
    && forall j :: 0 <= j < |logs| && j != i ==> !(logs[j].Parsed? && logs[j].name == name)
  }

  ghost predicate HasOnlyEvent(logs: seq<Log>, name: string) { exists i: nat :: OnlyEvent(logs, name, i) }

  lemma {:induction false} NamedNone(logs: seq<Log>, name: string)
    ensures Named(logs, name) == [] <==> forall l :: l in logs ==> !(l.Parsed? && l.name == name)
  {
    if logs == [] {
    } else {
      NamedNone(logs[..|logs| - 1], name);
      assert logs == logs[..|logs| - 1] + [logs[|logs| - 1]];
    }
  }

  lemma OnlyEventLast(front: seq<Log>, last: Log, name: string, i: nat)
    requires last.Parsed? && last.name == name
    ensures OnlyEvent(front + [last], name, i)
            <==> i == |front| && forall l :: l in front ==> !(l.Parsed? && l.name == name)
  {
    var logs := front + [last];
    if OnlyEvent(logs, name, i) {
      assert logs[|front|] == last;
      forall l | l in front ensures !(l.Parsed? && l.name == name) {
        var j :| 0 <= j < |front| && front[j] == l;
        assert logs[j] == l;
      }
    }
  }

  lemma OnlyEventEarlier(front: seq<Log>, last: Log, name: string, i: nat)
    requires !(last.Parsed? && last.name == name)
    ensures OnlyEvent(front + [last], name, i) <==> OnlyEvent(front, name, i)
  {
    var logs := front + [last];
    assert forall j :: 0 <= j < |front| ==> logs[j] == front[j];
    assert logs[|front|] == last;
  }

  /** One match means exactly one position, and the match is what is there. */
  lemma {:induction false} NamedOnce(logs: seq<Log>, name: string)
    ensures |Named(logs, name)| == 1 <==> HasOnlyEvent(logs, name)
    ensures forall i: nat :: OnlyEvent(logs, name, i) ==> Named(logs, name) == [logs[i]]
  {
    if logs == [] {
    } else {
      var front, last := logs[..|logs| - 1], logs[|logs| - 1];
      assert logs == front + [last];
      NamedNone(front, name);
      if last.Parsed? && last.name == name {
        forall i: nat ensures OnlyEvent(logs, name, i)
                              <==> i == |front| && forall l :: l in front ==> !(l.Parsed? && l.name == name)
        {
          OnlyEventLast(front, last, name, i);
        }
        if Named(front, name) == [] { assert OnlyEvent(logs, name, |front|); }
      } else {
        NamedOnce(front, name);
        forall i: nat ensures OnlyEvent(logs, name, i) <==> OnlyEvent(front, name, i) {
          OnlyEventEarlier(front, last, name, i);
        }
      }
    }
  }

  class Cache {
    var rows: seq<CacheRow>

    constructor ()
      ensures rows == []
    {
      rows := [];
    }

    /** `tree` is the published allowlist, if it can be fetched; `stored` whether the insert succeeds. */
    method OnAllowlistCreated(t: Trigger, tree: Option<seq<(string, nat)>>, stored: bool) returns (outcome: Outcome)
      modifies this
      ensures outcome == NotImplemented <==> !t.isBlock
      ensures outcome == MissingData <==> t.isBlock && !(t.contract != "" && t.logs.Some?
                                                         && HasOnlyEvent(t.logs.value, "AllowlistCreated"))
      ensures outcome == Done <==> && t.isBlock && t.contract != "" && t.logs.Some?
                                   && HasOnlyEvent(t.logs.value, "AllowlistCreated") && tree.Some? && stored
      ensures outcome != Done ==> rows == old(rows)
      ensures outcome == Done ==>
                forall i: nat :: OnlyEvent(t.logs.value, "AllowlistCreated", i) ==>
                  && rows == Step(old(rows),
                                  Created(t.contract, t.logs.value[i].tokenID,
                                          seq(|tree.value|, k requires 0 <= k < |tree.value| => tree.value[k].0)))
                  && |rows| == |old(rows)| + |tree.value| && old(rows) <= rows
                  && forall k :: 0 <= k < |tree.value| ==>
                       rows[|old(rows)| + k]
                       == CacheRow(Lower(tree.value[k].0), t.contract + "-" + Decimal(t.logs.value[i].tokenID), k)
    {
      hide BuildRows, FormatClaimId, Named, OnlyEvent, HasOnlyEvent, Lower, Decimal;
      if !t.isBlock {
        return NotImplemented;
      }
      if t.contract == "" || t.logs.None? {
        return MissingData;
      }
      var events := Named(t.logs.value, "AllowlistCreated");
      NamedOnce(t.logs.value, "AllowlistCreated");
      if |events| != 1 {
        return MissingData;
      }
      var tokenID := events[0].tokenID;
      if tree.None? {
        return Failed;
      }
      var addresses: seq<string> := [];
      for i := 0 to |tree.value|
        invariant |addresses| == i
        invariant forall k :: 0 <= k < i ==> addresses[k] == tree.value[k].0
      {
        addresses := addresses + [tree.value[i].0];
      }
      assert addresses == seq(|tree.value|, i requires 0 <= i < |tree.value| => tree.value[i].0);
      if !stored {
        return Failed;
      }
      rows := rows + BuildRows(FormatClaimId(t.contract, tokenID), addresses);
      CreatedRows(old(rows), t.contract, tokenID, tree.value);
      return Done;
    }

    /** Only the first claim id of the event counts here. */
    method MintClaim(t: Trigger) returns (outcome: Outcome)
      modifies this
      ensures outcome == NotImplemented <==> !t.isBlock
      ensures outcome == MissingData <==> t.isBlock && !HasMint(t)
      ensures outcome == Done <==> && t.isBlock && HasMint(t) && t.receipt.Some?
                                   && forall i: nat :: OnlyEvent(t.logs.value, "BatchValueTransfer", i) ==>
                                        t.logs.value[i].claimIDs != []
      ensures outcome != Done || t.receipt != Some(1) ==> rows == old(rows)
      ensures outcome == Done && t.receipt == Some(1) ==>
                forall i: nat :: OnlyEvent(t.logs.value, "BatchValueTransfer", i) ==>
                  && t.logs.value[i].claimIDs != []
                  && rows == Step(old(rows), Minted(t.contract, t.from, [t.logs.value[i].claimIDs[0]]))
                  && forall r :: multiset(rows)[r] ==
                       if r.address == t.from && r.claimId == t.contract + "-" + Decimal(t.logs.value[i].claimIDs[0])
                       then 0 else multiset(old(rows))[r]
    {
      if !t.isBlock {
        return NotImplemented;
      }
      if t.contract == "" || t.from == "" || t.logs.None? || !t.txFound {
        return MissingData;
      }
      var events := Named(t.logs.value, "BatchValueTransfer");
      NamedOnce(t.logs.value, "BatchValueTransfer");
      if |events| != 1 {
        return MissingData;
      }
      if events[0].claimIDs == [] {
        return Failed;
      }
      var claimID := events[0].claimIDs[0];
      var formatted := t.contract + "-" + Lower(Decimal(claimID));
      SameFormat(t.contract, claimID);
      if t.receipt.None? {
        return Failed;
      }
      if t.receipt.value == 1 {
        OneId(t.contract, claimID);
        forall r { DeleteCount(rows, t.from, {formatted}, r); }
        rows := Delete(rows, t.from, {formatted});
      }
      return Done;
    }

    method BatchMintClaims(t: Trigger) returns (outcome: Outcome)
      modifies this
      ensures outcome == NotImplemented <==> !t.isBlock
      ensures outcome == MissingData <==> t.isBlock && !HasMint(t)
      ensures outcome == Done <==> t.isBlock && HasMint(t) && t.receipt.Some?
      ensures outcome != Done || t.receipt != Some(1) ==> rows == old(rows)
      ensures outcome == Done && t.receipt == Some(1) ==>
                forall i: nat :: OnlyEvent(t.logs.value, "BatchValueTransfer", i) ==>
                  && rows == Step(old(rows), Minted(t.contract, t.from, t.logs.value[i].claimIDs))
                  && forall r :: multiset(rows)[r] ==
                       if r.address == t.from
                          && exists id :: id in t.logs.value[i].claimIDs && r.claimId == t.contract + "-" + Decimal(id)
                       then 0 else multiset(old(rows))[r]
    {
      if !t.isBlock {
        return NotImplemented;
      }
      if t.contract == "" || t.from == "" || t.logs.None? || !t.txFound {
        return MissingData;
      }
      var events := Named(t.logs.value, "BatchValueTransfer");
      NamedOnce(t.logs.value, "BatchValueTransfer");
      if |events| != 1 {
        return MissingData;
      }
      var claimIDs := events[0].claimIDs;
      var formatted := seq(|claimIDs|, i requires 0 <= i < |claimIDs| =>
        t.contract + "-" + Lower(Decimal(claimIDs[i])));
      var unique := set i | 0 <= i < |formatted| :: formatted[i];
      if t.receipt.None? {
        return Failed;
      }
      if t.receipt.value == 1 {
        FormattedIds(t.contract, claimIDs, formatted);
        forall r { DeleteCount(rows, t.from, unique, r); }
        rows := Delete(rows, t.from, unique);
      }
      return Done;
    }
  }

  /** One row per leaf, after the rows that are there. */
  lemma CreatedRows(rows: seq<CacheRow>, contract: string, tokenID: nat, tree: seq<(string, nat)>)
    ensures var addresses := seq(|tree|, k requires 0 <= k < |tree| => tree[k].0);
            var after := Step(rows, Created(contract, tokenID, addresses));
            && |after| == |rows| + |tree| && rows <= after
            && forall k :: 0 <= k < |tree| ==>
                 after[|rows| + k] == CacheRow(Lower(tree[k].0), contract + "-" + Decimal(tokenID), k)
  {
    hide Lower, Decimal;
  }

  /** The trigger names a contract, a sender and a known transaction with exactly one transfer event. */
  ghost predicate HasMint(t: Trigger) {
    && t.contract != "" && t.from != "" && t.logs.Some? && t.txFound
    && HasOnlyEvent(t.logs.value, "BatchValueTransfer")
  }

  lemma FormattedIds(contract: string, claimIDs: seq<nat>, formatted: seq<string>)
    requires |formatted| == |claimIDs|
    requires forall i :: 0 <= i < |claimIDs| ==> formatted[i] == contract + "-" + Lower(Decimal(claimIDs[i]))
    ensures (set i | 0 <= i < |formatted| :: formatted[i]) == Ids(contract, claimIDs)
    ensures forall s :: s in Ids(contract, claimIDs)
                        <==> exists id :: id in claimIDs && s == contract + "-" + Decimal(id)
  {
    forall i | 0 <= i < |claimIDs| ensures formatted[i] == FormatClaimId(contract, claimIDs[i]) {
      SameFormat(contract, claimIDs[i]);
    }
    forall id | id in claimIDs ensures FormatClaimId(contract, id) in Ids(contract, claimIDs) {
      var i :| 0 <= i < |claimIDs| && claimIDs[i] == id;
    }
    forall s | s in Ids(contract, claimIDs) ensures exists id :: id in claimIDs && s == contract + "-" + Decimal(id) {
      var i :| 0 <= i < |claimIDs| && s == FormatClaimId(contract, claimIDs[i]);
      assert claimIDs[i] in claimIDs;
    }
  }

  lemma OneId(contract: string, claimID: nat)
    ensures Ids(contract, [claimID]) == {FormatClaimId(contract, claimID)}
  {
    var ids := [claimID];
    assert ids[0] == claimID;
    assert forall i :: 0 <= i < |ids| ==> ids[i] == claimID;
  }
}
