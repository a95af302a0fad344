/**
 * The accounting script: page through the graph, keep an append-only file of claim records, and
 * reconcile allowlists, claims and the cache table address by address.
 */
module HypercertAccounting {
  import opened Options
  import opened Sums

  datatype UserClaim = UserClaim(owner: string, units: int)

  datatype Listed = Listed(address: string, units: int)

  datatype Record = Record(claimId: string, creator: string, name: string, allowlist: seq<Listed>,
                           userClaims: seq<UserClaim>, supabaseList: seq<string>)

  /** What the services answer for one claim: metadata and allowlist may be irretrievable. */
  datatype Remote = Remote(creator: string, metadata: Option<string>, allowlist: Option<seq<Listed>>,
                           userClaims: seq<UserClaim>, supabaseList: seq<string>)

  type World = string -> Remote

  // ---------------------------------------------------------------- paging

  const RATE_LIMIT: nat := 1000

  /** The server's page: at most RATE_LIMIT claims from `offset` on. */
  function GetClaims(server: seq<UserClaim>, offset: nat): (page: seq<UserClaim>)
    ensures |page| <= 1000
    ensures forall i :: 0 <= i < |page| ==> offset + i < |server| && page[i] == server[offset + i]
    ensures |page| < 1000 ==> offset + |page| >= |server|
  {
    if offset >= |server| then []
    else if offset + RATE_LIMIT <= |server| then server[offset..offset + RATE_LIMIT]
    else server[offset..]
  }

  /** A full page may be the last one, so one more is asked for; every claim comes once, in order. */
  method CollectClaims(server: seq<UserClaim>) returns (all: seq<UserClaim>)
    ensures all == server
  {
    var userClaims := GetClaims(server, 0);
    all := userClaims;
    var offset := 0;
    while |userClaims| == RATE_LIMIT
      invariant offset <= |server|
      invariant userClaims == GetClaims(server, offset)
      invariant all == server[..offset] + userClaims
      decreases |server| - offset
    {
      offset := offset + RATE_LIMIT;
      userClaims := GetClaims(server, offset);
      all := all + userClaims;
    }
  }

  // --------------------------------------------------------------- records

  predicate Retrievable(r: Remote) { r.metadata.Some? && r.allowlist.Some? }

  function RecordOf(id: string, r: Remote): Record
    requires Retrievable(r)
  {
    Record(id, r.creator, r.metadata.value, r.allowlist.value, r.userClaims, r.supabaseList)
  }

  method CreateClaimRecord(id: string, world: World) returns (record: Option<Record>)
    ensures record == if Retrievable(world(id)) then Some(RecordOf(id, world(id))) else None
    ensures record.Some? <==> world(id).metadata.Some? && world(id).allowlist.Some?
    ensures record.Some? ==>
              var r, remote := record.value, world(id);
              && r.claimId == id && r.creator == remote.creator && Some(r.name) == remote.metadata
              && Some(r.allowlist) == remote.allowlist && r.userClaims == remote.userClaims
              && r.supabaseList == remote.supabaseList
  {
    var remote := world(id);
    if remote.metadata.None? {
      return None;
    }
    if remote.allowlist.None? {
      return None;
    }
    var all := CollectClaims(remote.userClaims);
    return Some(Record(id, remote.creator, remote.metadata.value, remote.allowlist.value, all, remote.supabaseList));
  }

  /** Records for the listed claims that are not stored yet and can be retrieved. */
  function NewRecords(list: seq<string>, existing: seq<string>, world: World): seq<Record> {
    if list == [] then []
    else
      var earlier, id := NewRecords(list[..|list| - 1], existing, world), list[|list| - 1];
      if id !in existing && Retrievable(world(id)) then earlier + [RecordOf(id, world(id))] else earlier
  }

  method ParseClaims(list: seq<string>, existing: seq<string>, world: World) returns (claims: seq<Record>)
    ensures claims == NewRecords(list, existing, world)
  {
    claims := [];
    for i := 0 to |list|
      invariant claims == NewRecords(list[..i], existing, world)
    {
      assert list[..i + 1][..i] == list[..i];
      if list[i] !in existing {
        var record := CreateClaimRecord(list[i], world);
        if record.Some? {
          claims := claims + [record.value];
        }
      }
    }
    assert list[..|list|] == list;
  }

  function Ids(data: seq<Record>): (ids: seq<string>)
    ensures |ids| == |data| && forall i :: 0 <= i < |data| ==> ids[i] == data[i].claimId
  {
    seq(|data|, i requires 0 <= i < |data| => data[i].claimId)
  }

  /** The file after one run; a missing file counts as empty. */
  function Updated(data: seq<Record>, list: seq<string>, world: World): seq<Record> {
    data + NewRecords(list, Ids(data), world)
  }

  class AccountingFile {
    var stored: Option<seq<Record>>

    constructor ()
      ensures stored == None
    {
      stored := None;
    }

    method Update(list: seq<string>, world: World)
      modifies this
      ensures stored == Some(Updated(if old(stored).Some? then old(stored).value else [], list, world))
    {
      if stored.None? {
        var claims := ParseClaims(list, [], world);
        assert Ids([]) == [] && [] + claims == claims;
        stored := Some(claims);
      } else {
        var existing := Ids(stored.value);
        var claims := ParseClaims(list, existing, world);
        stored := Some(stored.value + claims);
      }
    }
  }

  /** No claim is listed twice that would be stored. */
  predicate ListedOnce(list: seq<string>, existing: seq<string>, world: World) {
    forall i, j :: 0 <= i < j < |list| && list[i] == list[j] ==> list[i] in existing || !Retrievable(world(list[i]))
  }

  predicate IsNew(id: string, list: seq<string>, existing: seq<string>, world: World) {
    id in list && id !in existing && Retrievable(world(id))
  }

  lemma {:induction false} NewIds(list: seq<string>, existing: seq<string>, world: World, id: string)
    ensures id in Ids(NewRecords(list, existing, world)) <==> IsNew(id, list, existing, world)
  {
    if list == [] {
    } else {
      var front, last := list[..|list| - 1], list[|list| - 1];
      assert list == front + [last];
      NewIds(front, existing, world, id);
      var records := NewRecords(front, existing, world);
      if last !in existing && Retrievable(world(last)) {
        assert Ids(NewRecords(list, existing, world)) == Ids(records) + [last];
      }
    }
  }

  lemma {:induction false} NewDistinct(list: seq<string>, existing: seq<string>, world: World)
    ensures Distinct(Ids(NewRecords(list, existing, world))) <==> ListedOnce(list, existing, world)
  {
    if list == [] {
    } else {
      var front, last := list[..|list| - 1], list[|list| - 1];
      assert list == front + [last];
      NewDistinct(front, existing, world);
      ListedOnceAppend(front, last, existing, world);
      if last !in existing && Retrievable(world(last)) {
        NewIds(front, existing, world, last);
        assert Ids(NewRecords(list, existing, world)) == Ids(NewRecords(front, existing, world)) + [last];
        DistinctAppend(Ids(NewRecords(front, existing, world)), last);
      }
    }
  }

  lemma ListedOnceAppend(front: seq<string>, last: string, existing: seq<string>, world: World)
    ensures ListedOnce(front + [last], existing, world) <==>
              ListedOnce(front, existing, world) && !IsNew(last, front, existing, world)
  {
    var list := front + [last];
    assert forall i :: 0 <= i < |front| ==> list[i] == front[i];
    if ListedOnce(list, existing, world) && last in front {
      var i :| 0 <= i < |front| && front[i] == last;
      assert list[i] == list[|front|];
    }
  }

  lemma {:induction false} DistinctConcat(a: seq<string>, b: seq<string>)
    requires Distinct(a) && forall id :: id in b ==> id !in a
    ensures Distinct(a + b) <==> Distinct(b)
  {
    if b == [] {
      assert a + b == a;
    } else {
      var front, last := b[..|b| - 1], b[|b| - 1];
      assert b == front + [last] && a + b == a + front + [last];
      DistinctConcat(a, front);
      DistinctAppend(a + front, last);
      DistinctAppend(front, last);
    }
  }

  /**
   * One run keeps what was stored, in place, and stores every listed claim that it can retrieve.
   * The claim ids stay distinct exactly when the graph lists no such claim twice: a repetition within
   * one list is not noticed.
   */
  lemma UpdateAppends(data: seq<Record>, list: seq<string>, world: World)
    requires Distinct(Ids(data))
    ensures data <= Updated(data, list, world)
    ensures forall id :: id in Ids(Updated(data, list, world)) <==> id in Ids(data) || IsNew(id, list, Ids(data), world)
    ensures Distinct(Ids(Updated(data, list, world))) <==> ListedOnce(list, Ids(data), world)
  {
    var existing := Ids(data);
    var records := NewRecords(list, existing, world);
    assert Ids(data + records) == existing + Ids(records);
    forall id ensures id in Ids(records) <==> IsNew(id, list, existing, world) { NewIds(list, existing, world, id); }
    NewDistinct(list, existing, world);
    DistinctConcat(existing, Ids(records));
  }

  lemma NewRecordsAppend(front: seq<string>, id: string, existing: seq<string>, world: World)
    ensures NewRecords(front + [id], existing, world)
            == NewRecords(front, existing, world)
               + if id !in existing && Retrievable(world(id)) then [RecordOf(id, world(id))] else []
  {
    assert (front + [id])[..|front|] == front;
  }

  /** Listings are taken one after the other, each claim for itself. */
  lemma {:induction false} NewRecordsInOrder(a: seq<string>, b: seq<string>, existing: seq<string>, world: World)
    ensures NewRecords(a + b, existing, world) == NewRecords(a, existing, world) + NewRecords(b, existing, world)
  {
    if b == [] {
      assert a + b == a;
    } else {
      hide NewRecords;
      var front, last := b[..|b| - 1], b[|b| - 1];
      assert b == front + [last] && a + b == (a + front) + [last];
      NewRecordsInOrder(a, front, existing, world);
      NewRecordsAppend(front, last, existing, world);
      NewRecordsAppend(a + front, last, existing, world);
    }
  }

  /** A listed claim is recorded if it is not there yet and its metadata and allowlist can be retrieved. */
  lemma OneNewRecord(id: string, existing: seq<string>, world: World)
    ensures var records, remote := NewRecords([id], existing, world), world(id);
            if id !in existing && remote.metadata.Some? && remote.allowlist.Some? then
              records == [Record(id, remote.creator, remote.metadata.value, remote.allowlist.value,
                                 remote.userClaims, remote.supabaseList)]
            else records == []
  {
    assert [id][..0] == [];
  }

  /** One scheduled run: what the graph lists and what the services answer. */
  datatype Update = Update(list: seq<string>, world: World)

  function RunUpdates(updates: seq<Update>): seq<Record> {
    if updates == [] then []
    else Updated(RunUpdates(updates[..|updates| - 1]), updates[|updates| - 1].list, updates[|updates| - 1].world)
  }

  /** Over any number of runs on lists without repetitions the file only grows and has each claim once. */
  lemma {:induction false} UpdatesAppend(updates: seq<Update>)
    requires forall u :: u in updates ==> Distinct(u.list)
    ensures Distinct(Ids(RunUpdates(updates)))
    ensures forall k :: 0 <= k <= |updates| ==> RunUpdates(updates[..k]) <= RunUpdates(updates)
  {
    if updates == [] {
    } else {
      var front, last := updates[..|updates| - 1], updates[|updates| - 1];
      assert last in updates;
      UpdatesAppend(front);
      UpdateAppends(RunUpdates(front), last.list, last.world);
      forall k | 0 <= k <= |updates| ensures RunUpdates(updates[..k]) <= RunUpdates(updates) {
        if k == |updates| { assert updates[..k] == updates; } else { assert updates[..k] == front[..k]; }
      }
    }
  }

  lemma {:induction false} NewRecordsAre(list: seq<string>, existing: seq<string>, world: World, r: Record)
    requires r in NewRecords(list, existing, world)
    ensures r.claimId in list && r.claimId !in existing
    ensures Retrievable(world(r.claimId)) && r == RecordOf(r.claimId, world(r.claimId))
  {
    var front, last := list[..|list| - 1], list[|list| - 1];
    assert list == front + [last];
    if r in NewRecords(front, existing, world) { NewRecordsAre(front, existing, world, r); }
  }

  /**
   * Every stored record holds, field by field, what the services answered in the run that stored it: a
   * run that listed the claim when it was not in the file yet.
   */
  lemma {:induction false} RecordsKeepAnswers(updates: seq<Update>, r: Record)
    requires r in RunUpdates(updates)
    ensures exists k ::
              && 0 <= k < |updates|
              && r.claimId in updates[k].list && r.claimId !in Ids(RunUpdates(updates[..k]))
              && var remote := updates[k].world(r.claimId);
                 && r.creator == remote.creator && Some(r.name) == remote.metadata
                 && Some(r.allowlist) == remote.allowlist && r.userClaims == remote.userClaims
                 && r.supabaseList == remote.supabaseList
  {
    var n := |updates| - 1;
    var front, last := updates[..n], updates[n];
    if r in RunUpdates(front) {
      RecordsKeepAnswers(front, r);
      var k :| && 0 <= k < n
               && r.claimId in front[k].list && r.claimId !in Ids(RunUpdates(front[..k]))
               && var remote := front[k].world(r.claimId);
                  && r.creator == remote.creator && Some(r.name) == remote.metadata
                  && Some(r.allowlist) == remote.allowlist && r.userClaims == remote.userClaims
                  && r.supabaseList == remote.supabaseList;
      assert updates[k] == front[k] && updates[..k] == front[..k];
    } else {
      NewRecordsAre(last.list, Ids(RunUpdates(front)), last.world, r);
      assert updates[..n] == front;
    }
  }

  /** Whatever any run listed and could retrieve is in the file. */
  lemma {:induction false} ListedIsStored(updates: seq<Update>, u: Update, id: string)
    requires u in updates && id in u.list && Retrievable(u.world(id))
    ensures id in Ids(RunUpdates(updates))
  {
    var front, last := updates[..|updates| - 1], updates[|updates| - 1];
    var data := RunUpdates(front);
    assert Ids(RunUpdates(updates)) == Ids(data) + Ids(NewRecords(last.list, Ids(data), last.world));
    if u in front {
      ListedIsStored(front, u, id);
    } else {
      assert updates == front + [last];
      NewIds(last.list, Ids(data), last.world, id);
    }
  }

  /** A claim listed twice in one answer is stored twice. */
  lemma RepeatedListingStoredTwice(id: string, world: World)
    requires Retrievable(world(id))
    ensures Ids(Updated([], [id, id], world)) == [id, id]
  {
    assert [id, id][..1] == [id] && [id][..0] == [] && Ids([]) == [];
    assert NewRecords([id], [], world) == [RecordOf(id, world(id))];
    assert NewRecords([id, id], [], world) == [RecordOf(id, world(id)), RecordOf(id, world(id))];
  }

  // --------------------------------------------------------- reconciliation

  datatype Entry = Entry(address: string, claimId: string, claimName: string, creator: bool, units: int,
                         claimed: int, supabase: bool, slots: int)

  function AddressOf(l: Listed): string { l.address }

  function UnitsOf(l: Listed): int { l.units }

  function One(l: Listed): int { 1 }

  function OwnerOf(c: UserClaim): string { c.owner }

  function ClaimedBy(c: UserClaim): int { c.units }

  function Names(allowlist: seq<Listed>, userClaims: seq<UserClaim>): (names: seq<string>)
    ensures |names| == |allowlist| + |userClaims|
  {
    seq(|allowlist|, i requires 0 <= i < |allowlist| => allowlist[i].address)
    + seq(|userClaims|, i requires 0 <= i < |userClaims| => userClaims[i].owner)
  }

  /** What the lists say about one address. */
  function EntryFor(claim: Record, allowlist: seq<Listed>, userClaims: seq<UserClaim>, supabase: seq<string>,
                    address: string): Entry
  {
    Entry(address, claim.claimId, claim.name, claim.creator == address,
          ByKey(allowlist, AddressOf, UnitsOf)(address), ByKey(userClaims, OwnerOf, ClaimedBy)(address),
          address in supabase, ByKey(allowlist, AddressOf, One)(address))
  }

  /** One entry for each name, in the order in which a Python dict meets them. */
  function Entries(claim: Record): (entries: seq<Entry>)
    ensures |entries| == |Uniq(Names(claim.allowlist, claim.userClaims))|
  {
    var keys := Uniq(Names(claim.allowlist, claim.userClaims));
    seq(|keys|, i requires 0 <= i < |keys| =>
      EntryFor(claim, claim.allowlist, claim.userClaims, claim.supabaseList, keys[i]))
  }

  /** The dict while it is filled from the first parts of the three lists. */
  ghost predicate Filled(claim: Record, dict: map<string, Entry>, order: seq<string>,
                         allowlist: seq<Listed>, userClaims: seq<UserClaim>, supabase: seq<string>) {
    && order == Uniq(Names(allowlist, userClaims))
    && (forall a :: a in dict <==> a in order)
    && (forall a :: a in dict ==> dict[a] == EntryFor(claim, allowlist, userClaims, supabase, a))
  }

  lemma NamesAppendListed(allowlist: seq<Listed>, l: Listed)
    ensures Names(allowlist + [l], []) == Names(allowlist, []) + [l.address]
  {
  }

  lemma NamesAppendClaim(allowlist: seq<Listed>, userClaims: seq<UserClaim>, c: UserClaim)
    ensures Names(allowlist, userClaims + [c]) == Names(allowlist, userClaims) + [c.owner]
  {
  }

  function CreateEntry(claim: Record, address: string, units: int, slots: int): Entry {
    Entry(address, claim.claimId, claim.name, claim.creator == address, units, 0, false, slots)
  }

  lemma AbsentEntry(claim: Record, allowlist: seq<Listed>, userClaims: seq<UserClaim>, a: string)
    requires a !in Names(allowlist, userClaims)
    ensures EntryFor(claim, allowlist, userClaims, [], a) == CreateEntry(claim, a, 0, 0)
  {
    var names := Names(allowlist, userClaims);
    assert forall i :: 0 <= i < |allowlist| ==> names[i] == allowlist[i].address;
    assert forall i :: 0 <= i < |userClaims| ==> names[|allowlist| + i] == userClaims[i].owner;
    ByKeyAbsent(allowlist, AddressOf, UnitsOf, a);
    ByKeyAbsent(allowlist, AddressOf, One, a);
    ByKeyAbsent(userClaims, OwnerOf, ClaimedBy, a);
  }

  lemma EntryAfterListed(claim: Record, allowlist: seq<Listed>, l: Listed, a: string)
    ensures var e := EntryFor(claim, allowlist, [], [], a);
            EntryFor(claim, allowlist + [l], [], [], a)
            == if l.address == a then e.(units := e.units + l.units, slots := e.slots + 1) else e
  {
    ByKeyAppend(allowlist, l, AddressOf, UnitsOf, a);
    ByKeyAppend(allowlist, l, AddressOf, One, a);
  }

  lemma EntryAfterClaim(claim: Record, allowlist: seq<Listed>, userClaims: seq<UserClaim>, c: UserClaim, a: string)
    ensures var e := EntryFor(claim, allowlist, userClaims, [], a);
            EntryFor(claim, allowlist, userClaims + [c], [], a)
            == if c.owner == a then e.(claimed := e.claimed + c.units) else e
  {
    ByKeyAppend(userClaims, c, OwnerOf, ClaimedBy, a);
  }

  method AddListed(claim: Record, dict0: map<string, Entry>, order0: seq<string>, ghost done: seq<Listed>, l: Listed)
    returns (dict: map<string, Entry>, order: seq<string>)
    requires Filled(claim, dict0, order0, done, [], [])
    ensures Filled(claim, dict, order, done + [l], [], [])
  {
    hide EntryFor, Names, Uniq;
    dict, order := dict0, order0;
    NamesAppendListed(done, l);
    UniqAppend(Names(done, []), l.address);
    forall a { EntryAfterListed(claim, done, l, a); }
    if l.address in dict {
      dict := dict[l.address := dict[l.address].(units := dict[l.address].units + l.units)];
      dict := dict[l.address := dict[l.address].(slots := dict[l.address].slots + 1)];
    } else {
      AbsentEntry(claim, done, [], l.address);
      dict := dict[l.address := CreateEntry(claim, l.address, l.units, 1)];
      order := order + [l.address];
    }
  }

  method AddClaim(claim: Record, dict0: map<string, Entry>, order0: seq<string>, ghost allowlist: seq<Listed>,
                  ghost done: seq<UserClaim>, c: UserClaim)
    returns (dict: map<string, Entry>, order: seq<string>)
    requires Filled(claim, dict0, order0, allowlist, done, [])
    ensures Filled(claim, dict, order, allowlist, done + [c], [])
  {
    hide EntryFor, Names, Uniq;
    dict, order := dict0, order0;
    NamesAppendClaim(allowlist, done, c);
    UniqAppend(Names(allowlist, done), c.owner);
    forall a { EntryAfterClaim(claim, allowlist, done, c, a); }
    if c.owner !in dict {
      AbsentEntry(claim, allowlist, done, c.owner);
      dict := dict[c.owner := CreateEntry(claim, c.owner, 0, 0)];
      order := order + [c.owner];
    }
    dict := dict[c.owner := dict[c.owner].(claimed := dict[c.owner].claimed + c.units)];
  }

  lemma EntryAfterCached(claim: Record, done: seq<string>, address: string, a: string)
    ensures var e := EntryFor(claim, claim.allowlist, claim.userClaims, done, a);
            EntryFor(claim, claim.allowlist, claim.userClaims, done + [address], a)
            == if address == a then e.(supabase := true) else e
  {
  }

  /** The supabase flag, only for addresses that are there already. */
  method MarkCached(claim: Record, dict0: map<string, Entry>, ghost order: seq<string>)
    returns (dict: map<string, Entry>)
    requires Filled(claim, dict0, order, claim.allowlist, claim.userClaims, [])
    ensures Filled(claim, dict, order, claim.allowlist, claim.userClaims, claim.supabaseList)
  {
    hide EntryFor, Names, Uniq;
    dict := dict0;
    for i := 0 to |claim.supabaseList|
      invariant Filled(claim, dict, order, claim.allowlist, claim.userClaims, claim.supabaseList[..i])
    {
      var address := claim.supabaseList[i];
      assert claim.supabaseList[..i + 1] == claim.supabaseList[..i] + [address];
      forall a { EntryAfterCached(claim, claim.supabaseList[..i], address, a); }
      if address in dict {
        dict := dict[address := dict[address].(supabase := true)];
      }
    }
    assert claim.supabaseList[..|claim.supabaseList|] == claim.supabaseList;
  }

  method ReconcileClaim(claim: Record) returns (entries: seq<Entry>)
    ensures entries == Entries(claim)
  {
    hide EntryFor;
    var dict: map<string, Entry>, order: seq<string> := map[], [];
    assert Names([], []) == [];
    for i := 0 to |claim.allowlist|
      invariant Filled(claim, dict, order, claim.allowlist[..i], [], [])
    {
      dict, order := AddListed(claim, dict, order, claim.allowlist[..i], claim.allowlist[i]);
      assert claim.allowlist[..i + 1] == claim.allowlist[..i] + [claim.allowlist[i]];
    }
    assert claim.allowlist[..|claim.allowlist|] == claim.allowlist;
    for i := 0 to |claim.userClaims|
      invariant Filled(claim, dict, order, claim.allowlist, claim.userClaims[..i], [])
    {
      dict, order := AddClaim(claim, dict, order, claim.allowlist, claim.userClaims[..i], claim.userClaims[i]);
      assert claim.userClaims[..i + 1] == claim.userClaims[..i] + [claim.userClaims[i]];
    }
    assert claim.userClaims[..|claim.userClaims|] == claim.userClaims;
    dict := MarkCached(claim, dict, order);
    entries := Values(dict, order);
  }

  method Values(dict: map<string, Entry>, order: seq<string>) returns (entries: seq<Entry>)
    requires forall a :: a in order ==> a in dict
    ensures |entries| == |order| && forall i :: 0 <= i < |order| ==> entries[i] == dict[order[i]]
  {
    entries := [];
    for i := 0 to |order|
      invariant |entries| == i && forall k :: 0 <= k < i ==> entries[k] == dict[order[k]]
    {
      entries := entries + [dict[order[i]]];
    }
  }

  function Reconciled(data: seq<Record>, hidden: seq<string>): seq<Entry> {
    if data == [] then []
    else
      var earlier, claim := Reconciled(data[..|data| - 1], hidden), data[|data| - 1];
      if claim.claimId in hidden then earlier else earlier + Entries(claim)
  }

  method ReconcileClaims(data: seq<Record>, hidden: seq<string>) returns (results: seq<Entry>)
    ensures results == Reconciled(data, hidden)
  {
    results := [];
    for i := 0 to |data|
      invariant results == Reconciled(data[..i], hidden)
    {
      assert data[..i + 1][..i] == data[..i];
      if data[i].claimId in hidden {
        continue;
      }
      var entries := ReconcileClaim(data[i]);
      results := results + entries;
    }
    assert data[..|data|] == data;
  }

  /** The flag of the error report. */
  predicate HasError(e: Entry) { !e.supabase && e.claimed == 0 }

  function EntryUnits(e: Entry): int { e.units }

  function EntrySlots(e: Entry): int { e.slots }

  function EntryClaimed(e: Entry): int { e.claimed }

  lemma {:induction false} TotalOverEntries(entries: seq<Entry>, keys: seq<string>, f: Entry -> int, g: string -> int)
    requires |entries| == |keys| && forall i :: 0 <= i < |keys| ==> f(entries[i]) == g(keys[i])
    ensures Total(entries, f) == Total(keys, g)
  {
    if keys == [] {
    } else {
      TotalOverEntries(entries[..|keys| - 1], keys[..|keys| - 1], f, g);
    }
  }

  lemma {:induction false} CountOnes(s: seq<Listed>)
    ensures Total(s, One) == |s|
  {
    if s == [] {
    } else {
      CountOnes(s[..|s| - 1]);
    }
  }

  predicate Mentioned(claim: Record, a: string) {
    (exists l :: l in claim.allowlist && l.address == a) || (exists c :: c in claim.userClaims && c.owner == a)
  }

  predicate HasEntry(entries: seq<Entry>, a: string) { exists e :: e in entries && e.address == a }

  lemma NamesCover(claim: Record)
    ensures forall a :: a in Names(claim.allowlist, claim.userClaims) <==> Mentioned(claim, a)
  {
    var names, n := Names(claim.allowlist, claim.userClaims), |claim.allowlist|;
    assert forall i :: 0 <= i < n ==> names[i] == claim.allowlist[i].address;
    assert forall i :: 0 <= i < |claim.userClaims| ==> names[n + i] == claim.userClaims[i].owner;
    forall a | a in names ensures Mentioned(claim, a) {
      var i :| 0 <= i < |names| && names[i] == a;
      if i < n {
        assert claim.allowlist[i] in claim.allowlist;
      } else {
        assert claim.userClaims[i - n] in claim.userClaims;
      }
    }
    forall l | l in claim.allowlist ensures l.address in names {
      var i :| 0 <= i < n && claim.allowlist[i] == l;
      assert names[i] == l.address;
    }
    forall c | c in claim.userClaims ensures c.owner in names {
      var i :| 0 <= i < |claim.userClaims| && claim.userClaims[i] == c;
      assert names[n + i] == c.owner;
    }
  }

  /** One entry for each address on the allowlist or among the claimants, and for no other. */
  lemma OneEntryPerAddress(claim: Record)
    ensures forall i, j :: 0 <= i < j < |Entries(claim)| ==> Entries(claim)[i].address != Entries(claim)[j].address
    ensures forall a :: HasEntry(Entries(claim), a) <==> Mentioned(claim, a)
  {
    NamesCover(claim);
    var entries, keys := Entries(claim), Uniq(Names(claim.allowlist, claim.userClaims));
    assert forall i :: 0 <= i < |keys| ==> entries[i].address == keys[i];
    forall a ensures HasEntry(entries, a) <==> a in keys {
      if a in keys {
        var i :| 0 <= i < |keys| && keys[i] == a;
        assert entries[i] in entries;
      }
      if e :| e in entries && e.address == a {
        var i :| 0 <= i < |entries| && entries[i] == e;
      }
    }
  }

  function UnitsListed(a: string): Listed -> int { (l: Listed) => if l.address == a then l.units else 0 }

  function TimesListed(a: string): Listed -> int { (l: Listed) => if l.address == a then 1 else 0 }

  function UnitsClaimed(a: string): UserClaim -> int { (c: UserClaim) => if c.owner == a then c.units else 0 }

  lemma KeyedTotals(claim: Record, a: string)
    ensures ByKey(claim.allowlist, AddressOf, UnitsOf)(a) == Total(claim.allowlist, UnitsListed(a))
    ensures ByKey(claim.allowlist, AddressOf, One)(a) == Total(claim.allowlist, TimesListed(a))
    ensures ByKey(claim.userClaims, OwnerOf, ClaimedBy)(a) == Total(claim.userClaims, UnitsClaimed(a))
  {
    forall l: Listed
      ensures Only(a, AddressOf, UnitsOf)(l) == UnitsListed(a)(l) && Only(a, AddressOf, One)(l) == TimesListed(a)(l)
    {
      assert AddressOf(l) == l.address && UnitsOf(l) == l.units && One(l) == 1;
    }
    forall c: UserClaim ensures Only(a, OwnerOf, ClaimedBy)(c) == UnitsClaimed(a)(c) {
      assert OwnerOf(c) == c.owner && ClaimedBy(c) == c.units;
    }
    TotalSame(claim.allowlist, Only(a, AddressOf, UnitsOf), UnitsListed(a));
    TotalSame(claim.allowlist, Only(a, AddressOf, One), TimesListed(a));
    TotalSame(claim.userClaims, Only(a, OwnerOf, ClaimedBy), UnitsClaimed(a));
  }

  /** What a line of the report says of its claim and its address. */
  lemma EntryContents(claim: Record, e: Entry)
    requires e in Entries(claim)
    ensures e.claimId == claim.claimId && e.claimName == claim.name
    ensures e.creator <==> e.address == claim.creator
    ensures e.supabase <==> e.address in claim.supabaseList
    ensures e.units == Total(claim.allowlist, UnitsListed(e.address))
    ensures e.slots == Total(claim.allowlist, TimesListed(e.address))
    ensures e.claimed == Total(claim.userClaims, UnitsClaimed(e.address))
  {
    hide Total, ByKey;
    var i :| 0 <= i < |Entries(claim)| && Entries(claim)[i] == e;
    KeyedTotals(claim, e.address);
  }

  lemma EntriesTotals(claim: Record)
    ensures var entries, keys := Entries(claim), Uniq(Names(claim.allowlist, claim.userClaims));
            && Total(entries, EntryUnits) == Total(keys, ByKey(claim.allowlist, AddressOf, UnitsOf))
            && Total(entries, EntrySlots) == Total(keys, ByKey(claim.allowlist, AddressOf, One))
            && Total(entries, EntryClaimed) == Total(keys, ByKey(claim.userClaims, OwnerOf, ClaimedBy))
  {
    hide Total, Uniq, Names, ByKey;
    var entries, keys := Entries(claim), Uniq(Names(claim.allowlist, claim.userClaims));
    TotalOverEntries(entries, keys, EntryUnits, ByKey(claim.allowlist, AddressOf, UnitsOf));
    TotalOverEntries(entries, keys, EntrySlots, ByKey(claim.allowlist, AddressOf, One));
    TotalOverEntries(entries, keys, EntryClaimed, ByKey(claim.userClaims, OwnerOf, ClaimedBy));
  }

  /** Reconciling moves nothing: units, slots and claimed units add up to those of the lists. */
  lemma ReconcileConserves(claim: Record)
    ensures Total(Entries(claim), EntryUnits) == Total(claim.allowlist, UnitsOf)
    ensures Total(Entries(claim), EntrySlots) == |claim.allowlist|
    ensures Total(Entries(claim), EntryClaimed) == Total(claim.userClaims, ClaimedBy)
  {
    hide Total, Uniq, Names, ByKey, Entries;
    NamesCover(claim);
    var keys := Uniq(Names(claim.allowlist, claim.userClaims));
    assert forall l :: l in claim.allowlist ==> Mentioned(claim, l.address);
    assert forall c :: c in claim.userClaims ==> Mentioned(claim, c.owner);
    EntriesTotals(claim);
    TotalByKey(claim.allowlist, keys, AddressOf, UnitsOf);
    TotalByKey(claim.allowlist, keys, AddressOf, One);
    TotalByKey(claim.userClaims, keys, OwnerOf, ClaimedBy);
    CountOnes(claim.allowlist);
  }

  lemma {:induction false} ZeroSum(claims: seq<UserClaim>, a: string)
    requires forall c :: c in claims ==> c.units >= 0
    ensures ByKey(claims, OwnerOf, ClaimedBy)(a) >= 0
    ensures ByKey(claims, OwnerOf, ClaimedBy)(a) == 0 <==> forall c :: c in claims && c.owner == a ==> c.units == 0
  {
    if claims == [] {
    } else {
      var front, last := claims[..|claims| - 1], claims[|claims| - 1];
      assert claims == front + [last] && last in claims;
      ZeroSum(front, a);
      ByKeyAppend(front, last, OwnerOf, ClaimedBy, a);
    }
  }

  // -------------------------------------------------------- the whole report

  function Shown(data: seq<Record>, hidden: seq<string>): seq<Record> {
    if data == [] then []
    else
      var earlier, claim := Shown(data[..|data| - 1], hidden), data[|data| - 1];
      if claim.claimId in hidden then earlier else earlier + [claim]
  }

  function AllowlistUnits(r: Record): int { Total(r.allowlist, UnitsOf) }

  function AllowlistLength(r: Record): int { |r.allowlist| }

  function ClaimedUnits(r: Record): int { Total(r.userClaims, ClaimedBy) }

  lemma {:induction false} ShownIff(data: seq<Record>, hidden: seq<string>)
    ensures forall r :: r in Shown(data, hidden) <==> r in data && r.claimId !in hidden
  {
    if data == [] {
    } else {
      assert data == data[..|data| - 1] + [data[|data| - 1]];
      ShownIff(data[..|data| - 1], hidden);
    }
  }

  lemma ReconciledLast(front: seq<Record>, claim: Record, hidden: seq<string>)
    ensures var data := front + [claim];
            if claim.claimId in hidden then
              Reconciled(data, hidden) == Reconciled(front, hidden) && Shown(data, hidden) == Shown(front, hidden)
            else
              && Reconciled(data, hidden) == Reconciled(front, hidden) + Entries(claim)
              && Shown(data, hidden) == Shown(front, hidden) + [claim]
  {
    assert (front + [claim])[..|front|] == front;
  }

  /** The report goes through the data in order, and a claim's lines are its entries, or none if it is hidden. */
  lemma {:induction false} ReportInOrder(a: seq<Record>, b: seq<Record>, hidden: seq<string>)
    ensures Reconciled(a + b, hidden) == Reconciled(a, hidden) + Reconciled(b, hidden)
    ensures |a| == 1 ==> Reconciled(a, hidden) == if a[0].claimId in hidden then [] else Entries(a[0])
  {
    if |a| == 1 { assert a[..0] == []; }
    if b == [] {
      assert a + b == a;
    } else {
      hide Reconciled, Entries, Shown;
      var front, last := b[..|b| - 1], b[|b| - 1];
      assert b == front + [last] && a + b == (a + front) + [last];
      ReportInOrder(a, front, hidden);
      ReconciledLast(front, last, hidden);
      ReconciledLast(a + front, last, hidden);
    }
  }

  /** Units, slots and claimed units of the report are those of the claims that are not hidden. */
  lemma {:induction false} ReportConserves(data: seq<Record>, hidden: seq<string>)
    ensures Total(Reconciled(data, hidden), EntryUnits) == Total(Shown(data, hidden), AllowlistUnits)
    ensures Total(Reconciled(data, hidden), EntrySlots) == Total(Shown(data, hidden), AllowlistLength)
    ensures Total(Reconciled(data, hidden), EntryClaimed) == Total(Shown(data, hidden), ClaimedUnits)
  {
    if data == [] {
    } else {
      hide Total, Reconciled, Shown, Entries;
      var front, claim := data[..|data| - 1], data[|data| - 1];
      assert data == front + [claim];
      ReportConserves(front, hidden);
      ReconciledLast(front, claim, hidden);
      if claim.claimId !in hidden {
        EntriesAdd(Reconciled(front, hidden), claim);
        TotalAppend(Shown(front, hidden), claim, AllowlistUnits);
        TotalAppend(Shown(front, hidden), claim, AllowlistLength);
        TotalAppend(Shown(front, hidden), claim, ClaimedUnits);
      }
    }
  }

  lemma EntriesAdd(before: seq<Entry>, claim: Record)
    ensures Total(before + Entries(claim), EntryUnits) == Total(before, EntryUnits) + AllowlistUnits(claim)
    ensures Total(before + Entries(claim), EntrySlots) == Total(before, EntrySlots) + AllowlistLength(claim)
    ensures Total(before + Entries(claim), EntryClaimed) == Total(before, EntryClaimed) + ClaimedUnits(claim)
  {
    hide Total, Entries;
    TotalConcat(before, Entries(claim), EntryUnits);
    TotalConcat(before, Entries(claim), EntrySlots);
    TotalConcat(before, Entries(claim), EntryClaimed);
    ReconcileConserves(claim);
  }

  ghost predicate EntryOf(data: seq<Record>, hidden: seq<string>, claimId: string, address: string) {
    exists r :: r in data && r.claimId == claimId && claimId !in hidden && Mentioned(r, address)
  }

  predicate Reports(entries: seq<Entry>, claimId: string, address: string) {
    exists e :: e in entries && e.claimId == claimId && e.address == address
  }

  predicate OncePerPair(entries: seq<Entry>) {
    forall i, j :: 0 <= i < j < |entries| ==>
      entries[i].claimId != entries[j].claimId || entries[i].address != entries[j].address
  }

  lemma EntriesOfClaim(claim: Record)
    ensures forall e :: e in Entries(claim) ==> e.claimId == claim.claimId
    ensures OncePerPair(Entries(claim))
    ensures forall a :: Reports(Entries(claim), claim.claimId, a) <==> Mentioned(claim, a)
  {
    OneEntryPerAddress(claim);
    var entries := Entries(claim);
    forall e | e in entries ensures e.claimId == claim.claimId {
      var i :| 0 <= i < |entries| && entries[i] == e;
    }
    hide Entries, Mentioned;
    forall a ensures Reports(entries, claim.claimId, a) <==> Mentioned(claim, a) {
      assert HasEntry(entries, a) <==> Mentioned(claim, a);
    }
  }

  lemma ReportsConcat(a: seq<Entry>, b: seq<Entry>, claimId: string, address: string)
    ensures Reports(a + b, claimId, address) <==> Reports(a, claimId, address) || Reports(b, claimId, address)
  {
    if e :| e in a && e.claimId == claimId && e.address == address { assert e in a + b; }
    if e :| e in b && e.claimId == claimId && e.address == address { assert e in a + b; }
  }

  lemma EntryOfAppend(front: seq<Record>, claim: Record, hidden: seq<string>, claimId: string, address: string)
    ensures EntryOf(front + [claim], hidden, claimId, address)
            <==> EntryOf(front, hidden, claimId, address)
                 || (claim.claimId == claimId && claimId !in hidden && Mentioned(claim, address))
  {
    hide Mentioned;
    assert forall r :: r in front + [claim] <==> r in front || r == claim;
  }

  lemma OncePerPairConcat(a: seq<Entry>, b: seq<Entry>, claimId: string)
    requires OncePerPair(a) && OncePerPair(b)
    requires forall e :: e in a ==> e.claimId != claimId
    requires forall e :: e in b ==> e.claimId == claimId
    ensures OncePerPair(a + b)
  {
    var all := a + b;
    forall i, j | 0 <= i < j < |all|
      ensures all[i].claimId != all[j].claimId || all[i].address != all[j].address
    {
      if i < |a| <= j { assert all[i] in a && all[j] in b; }
    }
  }

  lemma ReportedClaims(data: seq<Record>, hidden: seq<string>, entries: seq<Entry>)
    requires forall c, a :: Reports(entries, c, a) <==> EntryOf(data, hidden, c, a)
    ensures forall e :: e in entries ==> e.claimId in Ids(data)
  {
    hide Mentioned;
    forall e | e in entries ensures e.claimId in Ids(data) {
      assert Reports(entries, e.claimId, e.address);
      var r :| r in data && r.claimId == e.claimId;
      var i :| 0 <= i < |data| && data[i] == r;
      assert Ids(data)[i] == e.claimId;
    }
  }

  /**
   * The report of data with distinct claim ids has one line for each claim that is not hidden and each
   * address on its allowlist or among its claimants, and no other line.
   */
  lemma {:induction false} OneLinePerPair(data: seq<Record>, hidden: seq<string>)
    requires Distinct(Ids(data))
    ensures OncePerPair(Reconciled(data, hidden))
    ensures forall c, a :: Reports(Reconciled(data, hidden), c, a) <==> EntryOf(data, hidden, c, a)
  {
    if data == [] {
    } else {
      hide Entries, Mentioned, Reconciled, Shown, Reports, EntryOf, OncePerPair;
      var front, claim := data[..|data| - 1], data[|data| - 1];
      assert data == front + [claim] && Ids(data) == Ids(front) + [claim.claimId];
      DistinctAppend(Ids(front), claim.claimId);
      OneLinePerPair(front, hidden);
      ReconciledLast(front, claim, hidden);
      EntriesOfClaim(claim);
      if claim.claimId !in hidden {
        ReportedClaims(front, hidden, Reconciled(front, hidden));
        OncePerPairConcat(Reconciled(front, hidden), Entries(claim), claim.claimId);
      }
      forall c, a ensures Reports(Reconciled(data, hidden), c, a) <==> EntryOf(data, hidden, c, a) {
        ReportsConcat(Reconciled(front, hidden), Entries(claim), c, a);
        EntryOfAppend(front, claim, hidden, c, a);
        OnlyOwnClaim(claim, c, a);
      }
    }
  }

  lemma OnlyOwnClaim(claim: Record, claimId: string, address: string)
    ensures Reports(Entries(claim), claimId, address) <==> claimId == claim.claimId && Mentioned(claim, address)
  {
    hide Entries, Mentioned;
    EntriesOfClaim(claim);
  }

  /** An address is reported exactly if it holds no claimed units and the cache table does not list it. */
  lemma ReportedIff(claim: Record, e: Entry)
    requires e in Entries(claim)
    requires forall c :: c in claim.userClaims ==> c.units >= 0
    ensures HasError(e) <==>
              && e.address !in claim.supabaseList
              && forall c :: c in claim.userClaims && c.owner == e.address ==> c.units == 0
  {
    ZeroSum(claim.userClaims, e.address);
    var i :| 0 <= i < |Entries(claim)| && Entries(claim)[i] == e;
  }
}
