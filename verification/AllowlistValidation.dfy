/**
 * Validation of an allowlist against a total supply, and the hook that parses, adds up and validates.
 * Which strings are addresses is the library's business: an arbitrary predicate here.
 */
module AllowlistValidation {
  import opened AllowlistParsing
  import opened Options
  import opened Sums

  datatype Problem = UnitsMismatch(expected: int, got: int) | UnitsZero | BadAddresses(addresses: seq<string>)

  datatype Errors = Thrown | Found(problems: map<string, Problem>)

  /** What the hook hands on: the list, its supply, and whether both may be minted. */
  datatype Update = Update(list: seq<Entry>, totalSupply: int, valid: bool, errors: Errors)

  function Rejected(data: seq<Entry>, isAddress: string -> bool): seq<string> {
    if data == [] then []
    else
      var e := data[|data| - 1];
      Rejected(data[..|data| - 1], isAddress) + if isAddress(e.address) then [] else [e.address]
  }

  lemma {:induction false} RejectedNone(data: seq<Entry>, isAddress: string -> bool)
    ensures Rejected(data, isAddress) == [] <==> forall e :: e in data ==> isAddress(e.address)
  {
    if data == [] {
    } else {
      assert data == data[..|data| - 1] + [data[|data| - 1]];
      RejectedNone(data[..|data| - 1], isAddress);
    }
  }

  lemma RejectedAppend(front: seq<Entry>, e: Entry, isAddress: string -> bool)
    ensures Rejected(front + [e], isAddress)
            == Rejected(front, isAddress) + if isAddress(e.address) then [] else [e.address]
  {
    assert (front + [e])[..|front|] == front;
  }

  /** The addresses are reported in the order of the list, once for each entry that has one of them. */
  lemma {:induction false} RejectedInOrder(a: seq<Entry>, b: seq<Entry>, isAddress: string -> bool)
    ensures Rejected(a + b, isAddress) == Rejected(a, isAddress) + Rejected(b, isAddress)
    ensures |a| == 1 ==> Rejected(a, isAddress) == if isAddress(a[0].address) then [] else [a[0].address]
  {
    assert Rejected([], isAddress) == [];
    hide Rejected;
    if |a| == 1 {
      assert a == [] + [a[0]];
      RejectedAppend([], a[0], isAddress);
    }
    if b == [] {
      assert a + b == a;
    } else {
      var front, last := b[..|b| - 1], b[|b| - 1];
      assert b == front + [last] && a + b == (a + front) + [last];
      RejectedInOrder(a, front, isAddress);
      RejectedAppend(front, last, isAddress);
      RejectedAppend(a + front, last, isAddress);
    }
  }

  /** The units are numbers that add up to the supply, which is not zero, and every address is one. */
  ghost predicate Valid(data: seq<Entry>, units: int, isAddress: string -> bool) {
    && AllInts(data)
    && Total(data, UnitsOf) == units != 0
    && forall e :: e in data ==> isAddress(e.address)
  }

  /** No result if a unit is not a number, which the big-number library refuses. */
  method ValidateAllowlist(data: seq<Entry>, units: int, isAddress: string -> bool)
    returns (valid: bool, errors: Option<map<string, Problem>>)
    ensures errors.Some? <==> AllInts(data)
    ensures valid <==> Valid(data, units, isAddress)
    ensures errors.Some? ==>
              var total, problems := Total(data, UnitsOf), errors.value;
              && ("units" in problems <==> total != units || total == 0)
              && (total == 0 ==> problems["units"] == UnitsZero)
              && (total != 0 && total != units ==> problems["units"] == UnitsMismatch(units, total))
              && ("address" in problems <==> exists e :: e in data && !isAddress(e.address))
              && ("address" in problems ==> problems["address"] == BadAddresses(Rejected(data, isAddress)))
              && problems.Keys <= {"units", "address"}
  {
    SumUnitsTotal(data);
    var totalUnits := SumUnits(data);
    if totalUnits.NaN? {
      return false, None;
    }
    var problems: map<string, Problem> := map[];
    if totalUnits.n != units {
      problems := problems["units" := UnitsMismatch(units, totalUnits.n)];
    }
    if totalUnits.n == 0 {
      problems := problems["units" := UnitsZero];
    }
    var filtered := Rejected(data, isAddress);
    RejectedNone(data, isAddress);
    if |filtered| > 0 {
      problems := problems["address" := BadAddresses(filtered)];
    }
    assert "units" in problems || "address" in problems <==> problems != map[] by {
      if problems != map[] { var k :| k in problems; }
    }
    return problems == map[], Some(problems);
  }

  // --------------------------------------------------------- accepted lists

  lemma {:induction false} CsvAddresses(rows: seq<CsvRow>, a: string)
    ensures Lists(CsvEntries(rows), a) <==> exists r :: r in rows && Normal(r.address) == a
  {
    if rows == [] {
    } else {
      var front, last := rows[..|rows| - 1], rows[|rows| - 1];
      assert rows == front + [last];
      CsvAddresses(front, a);
      ListsAppend(CsvEntries(front), Entry(Normal(last.address), last.fractions), a);
    }
  }

  lemma {:induction false} AddedAddresses(add: seq<Added>, shares: Option<seq<real>>, a: string)
    requires shares.Some? ==> |shares.value| == |add|
    ensures Lists(AddedEntries(add, shares), a) <==> exists x :: x in add && Normal(x.address) == a
  {
    if add == [] {
    } else {
      var n := |add| - 1;
      var rest := if shares.Some? then Some(shares.value[..n]) else None;
      assert add == add[..n] + [add[n]];
      AddedAddresses(add[..n], rest, a);
      ListsAppend(AddedEntries(add[..n], rest),
                  Entry(Normal(add[n].address), if shares.Some? then Int(shares.value[n].Floor) else NaN), a);
    }
  }

  lemma CombineAddresses(csv: seq<Entry>, added: seq<Entry>, deduplicate: bool, a: string)
    ensures Lists(Combine(csv, added, deduplicate), a) <==> Lists(csv, a) || Lists(added, a)
  {
    DeduplicateGroups(csv + added);
    if e :| e in csv && e.address == a { assert e in csv + added; }
    if e :| e in added && e.address == a { assert e in csv + added; }
    if e :| e in csv + added && e.address == a { assert e in csv || e in added; }
  }

  lemma {:induction false} SharesNonNegative(supply: real, add: seq<Added>)
    requires supply >= 0.0 && forall x :: x in add ==> x.percentage >= 0.0
    ensures forall i :: 0 <= i < |add| ==> Shares(supply, add)[i] >= 0.0
  {
    if add == [] {
    } else {
      SharesNonNegative(supply, add[..|add| - 1]);
      assert add[|add| - 1] in add;
      MulMono(0.0, add[|add| - 1].percentage, supply);
    }
  }

  lemma {:induction false} AddedNonNegative(add: seq<Added>, shares: seq<real>)
    requires |shares| == |add| && forall i :: 0 <= i < |add| ==> shares[i] >= 0.0
    ensures SumUnits(AddedEntries(add, Some(shares))).Int? && SumUnits(AddedEntries(add, Some(shares))).n >= 0
  {
    if add == [] {
    } else {
      var n := |add| - 1;
      AddedNonNegative(add[..n], shares[..n]);
      assert AddedEntries(add, Some(shares))[..n] == AddedEntries(add[..n], Some(shares[..n]));
    }
  }

  lemma SupplyPositive(csv: int, p: real, add: seq<Added>) returns (got: int)
    requires csv > 0 && p == SumPercent(add) < 1.0 && forall x :: x in add ==> x.percentage >= 0.0
    ensures SumUnits(AddedEntries(add, Some(Shares(TotalSupply(csv, 1.0 - p), add)))) == Int(got)
    ensures got >= 0
  {
    hide Shares, AddedEntries, SumUnits, SumPercent;
    SharesNonNegative(TotalSupply(csv, 1.0 - p), add);
    AddedNonNegative(add, Shares(TotalSupply(csv, 1.0 - p), add));
    got := SumUnits(AddedEntries(add, Some(Shares(TotalSupply(csv, 1.0 - p), add)))).n;
  }

  /** An accepted list has numbers exactly if its CSV has, and then a positive total. */
  lemma AcceptedTotal(rows: seq<CsvRow>, deduplicate: bool, add: seq<Added>)
    requires Accepts(rows, false, add)
    ensures var csv, list := CsvEntries(rows), AcceptedList(rows, deduplicate, add);
            && (AllInts(list) <==> AllInts(csv))
            && (AllInts(csv) ==> Total(list, UnitsOf) >= Total(csv, UnitsOf) > 0)
  {
    hide CsvEntries, AddedEntries, Shares, TotalSupply, SumPercent, SumUnits, Combine, Total;
    var csv := CsvEntries(rows);
    SumUnitsTotal(csv);
    var added := AddedEntries(add, ScaledShares(SumUnits(csv), add));
    CombineSum(csv, added, deduplicate);
    SumUnitsTotal(Combine(csv, added, deduplicate));
    if AllInts(csv) {
      var got := SupplyPositive(Total(csv, UnitsOf), SumPercent(add), add);
    }
  }

  predicate Names(rows: seq<CsvRow>, add: seq<Added>, a: string) {
    (exists r :: r in rows && Normal(r.address) == a) || (exists x :: x in add && Normal(x.address) == a)
  }

  lemma AcceptedAddresses(rows: seq<CsvRow>, deduplicate: bool, add: seq<Added>, a: string)
    requires SumPercent(add) < 1.0
    ensures Lists(AcceptedList(rows, deduplicate, add), a) <==> Names(rows, add, a)
  {
    hide CsvEntries, AddedEntries, ScaledShares, SumPercent, SumUnits, Combine;
    var shares := ScaledShares(SumUnits(CsvEntries(rows)), add);
    CsvAddresses(rows, a);
    AddedAddresses(add, shares, a);
    CombineAddresses(CsvEntries(rows), AddedEntries(add, shares), deduplicate, a);
  }

  predicate AllValid(rows: seq<CsvRow>, add: seq<Added>, isAddress: string -> bool) {
    && (forall r :: r in rows ==> isAddress(Normal(r.address)))
    && (forall x :: x in add ==> isAddress(Normal(x.address)))
  }

  /**
   * Every list the parser accepts, deduplicated or not, passes validation against its own supply
   * exactly when all fractions in the CSV are numbers and all addresses, from the CSV and added, are valid.
   */
  lemma AcceptedIsValid(rows: seq<CsvRow>, deduplicate: bool, add: seq<Added>, isAddress: string -> bool)
    requires Accepts(rows, false, add)
    ensures var list := AcceptedList(rows, deduplicate, add);
            Valid(list, Total(list, UnitsOf), isAddress)
            <==> AllInts(CsvEntries(rows)) && AllValid(rows, add, isAddress)
  {
    AcceptedTotal(rows, deduplicate, add);
    hide Accepts, AcceptedList, CsvEntries, Normal, Total, Names, AllValid;
    var list := AcceptedList(rows, deduplicate, add);
    forall a ensures Lists(list, a) <==> Names(rows, add, a) {
      AcceptedAddresses(rows, deduplicate, add, a);
    }
    AllAddresses(list, rows, add, isAddress);
  }

  lemma AllAddresses(list: seq<Entry>, rows: seq<CsvRow>, add: seq<Added>, isAddress: string -> bool)
    requires forall a :: Lists(list, a) <==> Names(rows, add, a)
    ensures (forall e :: e in list ==> isAddress(e.address)) <==> AllValid(rows, add, isAddress)
  {
    hide Normal;
    if forall e :: e in list ==> isAddress(e.address) {
      forall r | r in rows ensures isAddress(Normal(r.address)) { assert Names(rows, add, Normal(r.address)); }
      forall x | x in add ensures isAddress(Normal(x.address)) { assert Names(rows, add, Normal(x.address)); }
    } else {
      var e :| e in list && !isAddress(e.address);
      assert Lists(list, e.address);
    }
  }

  // --------------------------------------------------------------- the hook

  const DEFAULT_ALLOWLIST_PERCENTAGE := 50.0

  function Fraction(percentage: Option<real>): real {
    (if percentage.Some? then percentage.value else DEFAULT_ALLOWLIST_PERCENTAGE) / 100.0
  }

  /** The creator is added with what the CSV does not get. */
  function Creator(address: string, percentage: Option<real>): seq<Added> {
    [Added(address, 1.0 - Fraction(percentage))]
  }

  /** The CSV can be scaled: it parses, all fractions are numbers, and it gets part of the supply. */
  predicate Usable(rows: seq<CsvRow>, csvErrors: bool, percentage: Option<real>) {
    && !csvErrors && AllInts(CsvEntries(rows)) && Total(CsvEntries(rows), UnitsOf) > 0
    && 0.0 < Fraction(percentage) <= 1.0
  }

  lemma CreatorIs(address: string, percentage: Option<real>)
    ensures var q := if percentage.Some? then percentage.value else 50.0;
            Creator(address, percentage) == [Added(address, 1.0 - q / 100.0)]
  {
  }

  lemma CreatorPercent(address: string, percentage: Option<real>)
    ensures SumPercent(Creator(address, percentage)) == 1.0 - Fraction(percentage)
  {
    assert Creator(address, percentage)[..0] == [];
  }

  lemma UsableIff(rows: seq<CsvRow>, csvErrors: bool, address: string, percentage: Option<real>)
    ensures Usable(rows, csvErrors, percentage)
            <==> Accepts(rows, csvErrors, Creator(address, percentage)) && AllInts(CsvEntries(rows))
  {
    hide CsvEntries, SumPercent, SumUnits, Total;
    SumUnitsTotal(CsvEntries(rows));
    CreatorPercent(address, percentage);
    assert Creator(address, percentage)[0] in Creator(address, percentage);
  }

  /** With the creator as the only added entry the supply is S rounded down, nothing less. */
  lemma CreatorSupply(csv: int, f: real, supply: int)
    requires 0.0 < f <= 1.0 && 1.0 - f < 1.0 && WithinBounds(csv, supply, 1.0 - f, 1)
    ensures supply == (csv as real / f).Floor
  {
    var s := csv as real / f;
    assert TotalSupply(csv, 1.0 - (1.0 - f)) == s;
    FloorUnique(s, supply);
  }

  lemma FloorUnique(s: real, n: int)
    requires n as real <= s < n as real + 1.0
    ensures n == s.Floor
  {
  }

  /** The address holds no more than the part p of all units. */
  predicate WithinPercent(s: seq<Entry>, address: string, p: real) {
    Total(s, For(address)) as real <= p * Total(s, UnitsOf) as real
  }

  /** What the CSV gives to an address. */
  function FractionsFor(address: string): CsvRow -> int {
    (r: CsvRow) => if Normal(r.address) == address then FractionsOf(r) else 0
  }

  lemma EntryFor(r: CsvRow, address: string)
    ensures For(address)(Entry(Normal(r.address), r.fractions)) == FractionsFor(address)(r)
  {
    hide Normal;
  }

  lemma {:induction false} CsvTotalFor(rows: seq<CsvRow>, address: string)
    ensures Total(CsvEntries(rows), For(address)) == Total(rows, FractionsFor(address))
  {
    if rows == [] {
    } else {
      hide Normal, CsvEntries, Total, For, FractionsFor;
      var front, last := rows[..|rows| - 1], rows[|rows| - 1];
      assert rows == front + [last];
      EntryFor(last, address);
      CsvTotalFor(front, address);
      CsvAppend(front, last);
      TotalAppend(CsvEntries(front), Entry(Normal(last.address), last.fractions), For(address));
      TotalAppend(front, last, FractionsFor(address));
    }
  }

  lemma OneEntry(a: string, n: int)
    ensures SumUnits([Entry(a, Int(n))]) == Int(n) && Total([Entry(a, Int(n))], For(a)) == n
  {
    assert [Entry(a, Int(n))][..0] == [];
  }

  /** Deduplicated or not, an address gets the units of all its entries. */
  lemma CombinedFor(csv: seq<Entry>, added: seq<Entry>, deduplicate: bool, a: string)
    requires AllInts(csv) && AllInts(added) && AllInts(Combine(csv, added, deduplicate))
    ensures Total(Combine(csv, added, deduplicate), For(a)) == Total(csv, For(a)) + Total(added, For(a))
  {
    hide Combine, Total;
    CombineUnitsAt(csv, added, deduplicate, a);
    UnitsAtTotal(csv, a);
    UnitsAtTotal(added, a);
    UnitsAtTotal(Combine(csv, added, deduplicate), a);
  }

  /** The creator's added entry, and what the creator holds with it. */
  lemma CreatorUnits(rows: seq<CsvRow>, deduplicate: bool, creator: string, percentage: Option<real>) returns (got: int)
    requires Usable(rows, false, percentage)
    requires SumPercent(Creator(creator, percentage)) == 1.0 - Fraction(percentage)
    ensures var csv, list := CsvEntries(rows), AcceptedList(rows, deduplicate, Creator(creator, percentage));
            && AllInts(list) && Total(list, UnitsOf) == Total(csv, UnitsOf) + got
            && Total(list, For(Normal(creator))) == Total(csv, For(Normal(creator))) + got
  {
    hide Normal, CsvEntries, Total, SumPercent, SumUnits, Combine, TotalSupply;
    var csv, add, a := CsvEntries(rows), Creator(creator, percentage), Normal(creator);
    SumUnitsTotal(csv);
    var shares := ScaledShares(SumUnits(csv), add);
    AddedEntryAt(add, shares, 0);
    got := shares.value[0].Floor;
    var added := [Entry(a, Int(got))];
    assert AddedEntries(add, shares) == added;
    OneEntry(a, got);
    ListTotal(csv, added, deduplicate, got);
    CombinedFor(csv, added, deduplicate, a);
  }

  /** What the hook can use, read off the CSV and the percentage asked for, 50 if none is. */
  lemma UsableInput(rows: seq<CsvRow>, csvErrors: bool, percentage: Option<real>)
    ensures var q := if percentage.Some? then percentage.value else 50.0;
            Usable(rows, csvErrors, percentage)
            <==> !csvErrors && Numeric(rows) && Total(rows, FractionsOf) > 0 && 0.0 < q <= 100.0
  {
    hide CsvEntries, Total, AllInts, Numeric;
    CsvTotals(rows);
  }

  lemma Rates(csv: int, q: real)
    requires q > 0.0
    ensures csv as real / (q / 100.0) == 100.0 * csv as real / q
  {
    var x := 100.0 * csv as real / q;
    assert x * q == 100.0 * csv as real;
    assert x * (q / 100.0) == csv as real;
  }

  /**
   * The hook's list for a usable CSV and the percentage q that it gets: the supply is what makes the CSV
   * q percent of it, rounded down, and the creator gets the rest on top of what the CSV gives the creator.
   * Hence the creator stays within the rest exactly if the CSV gives the creator nothing.
   */
  lemma HookList(rows: seq<CsvRow>, deduplicate: bool, creator: string, q: real)
    requires Numeric(rows) && Total(rows, FractionsOf) > 0 && 0.0 < q <= 100.0
    ensures var r := ParseAllowlist(rows, false, deduplicate, [Added(creator, 1.0 - q / 100.0)]);
            && r.Accepted? && AllInts(r.list)
            && (var supply, a := (100.0 * Total(rows, FractionsOf) as real / q).Floor, Normal(creator);
                && Total(r.list, UnitsOf) == supply
                && Total(r.list, For(a)) == Total(rows, FractionsFor(a)) + supply - Total(rows, FractionsOf)
                && (WithinPercent(r.list, a, 1.0 - q / 100.0) <==> Total(rows, FractionsFor(a)) <= 0))
  {
    hide Normal, CsvEntries, Total, SumPercent, SumUnits, AcceptedList, ParseAllowlist, TotalSupply, Numeric, AllInts;
    var add, csv := Creator(creator, Some(q)), Total(rows, FractionsOf);
    UsableInput(rows, false, Some(q));
    CreatorPercent(creator, Some(q));
    UsableIff(rows, false, creator, Some(q));
    ParseResult(rows, false, deduplicate, add);
    CsvTotals(rows);
    CsvTotalFor(rows, Normal(creator));
    var got := CreatorUnits(rows, deduplicate, creator, Some(q));
    SupplyBounds(rows, deduplicate, add);
    CreatorSupply(csv, q / 100.0, csv + got);
    Rates(csv, q);
  }

  /** 90 units as 90 percent: a supply of 100, of which the creator gets 10. */
  lemma NinetyPercent(holder: string, creator: string)
    ensures ParseAllowlist([CsvRow(holder, Int(90))], false, false, Creator(creator, Some(90.0)))
            == Accepted([Entry(Normal(holder), Int(90)), Entry(Normal(creator), Int(10))])
  {
    OneRowList(holder, 90, creator, Some(90.0), 0.1, 10);
  }

  /** 50 units and no percentage: half, so the creator gets 50 as well. */
  lemma NoPercentage(holder: string, creator: string)
    ensures ParseAllowlist([CsvRow(holder, Int(50))], false, false, Creator(creator, None))
            == Accepted([Entry(Normal(holder), Int(50)), Entry(Normal(creator), Int(50))])
  {
    OneRowList(holder, 50, creator, None, 0.5, 50);
  }

  lemma OneRowList(holder: string, units: int, creator: string, percentage: Option<real>, p: real, got: int)
    requires units > 0 && 0.0 <= p < 1.0 && Creator(creator, percentage) == [Added(creator, p)]
    requires got == (TotalSupply(units, 1.0 - p) * p).Floor
    ensures ParseAllowlist([CsvRow(holder, Int(units))], false, false, Creator(creator, percentage))
            == Accepted([Entry(Normal(holder), Int(units)), Entry(Normal(creator), Int(got))])
  {
    hide Normal, TotalSupply;
    var rows, add := [CsvRow(holder, Int(units))], [Added(creator, p)];
    assert rows[..0] == [] && add[..0] == [];
    assert CsvEntries(rows) == [Entry(Normal(holder), Int(units))];
    OneEntry(Normal(holder), units);
    assert SumPercent(add) == p;
    var shares := ScaledShares(Int(units), add);
    assert shares.value == Shares(TotalSupply(units, 1.0 - p), add);
    ShareAt(TotalSupply(units, 1.0 - p), add, 0);
    AddedEntryAt(add, shares, 0);
    assert shares.value[0].Floor == got;
    assert AddedEntries(add, shares)[0] == Entry(Normal(creator), Int(got));
    assert AddedEntries(add, shares) == [Entry(Normal(creator), Int(got))];
  }

  /** A CSV of one unit for the creator, who asks for half: everything goes to the creator. */
  lemma ListedCreatorExceeds(creator: string, deduplicate: bool)
    ensures var r := ParseAllowlist([CsvRow(creator, Int(1))], false, deduplicate, Creator(creator, Some(50.0)));
            r.Accepted? && !WithinPercent(r.list, Normal(creator), 0.5)
  {
    hide Normal, ParseAllowlist, WithinPercent;
    var rows := [CsvRow(creator, Int(1))];
    assert rows[..0] == [];
    assert Total(rows, FractionsOf) == 1 == Total(rows, FractionsFor(Normal(creator)));
    HookList(rows, deduplicate, creator, 50.0);
  }

  /**
   * Parse, add up, validate.  With q the percentage asked for, 50 if none is: valid exactly when the CSV
   * parses into numbers with a positive total, 0 < q <= 100, and every address in it and the creator's are
   * valid; anything unusable ends as an exception and yields an empty list.
   */
  method GetAndUpdateAllowlist(rows: seq<CsvRow>, csvErrors: bool, creator: string, percentage: Option<real>,
                               deduplicate: bool, isAddress: string -> bool)
    returns (u: Update)
    ensures var q := if percentage.Some? then percentage.value else 50.0;
            var usable := !csvErrors && Numeric(rows) && Total(rows, FractionsOf) > 0 && 0.0 < q <= 100.0;
            && (u.errors.Thrown? <==> !usable)
            && (u.valid <==> && usable && isAddress(Normal(creator))
                             && forall r :: r in rows ==> isAddress(Normal(r.address)))
    ensures u.errors.Thrown? ==> u.list == [] && u.totalSupply == 0
    ensures u.errors.Found? ==>
              var q := if percentage.Some? then percentage.value else 50.0;
              && q > 0.0
              && ParseAllowlist(rows, false, deduplicate, [Added(creator, 1.0 - q / 100.0)]) == Accepted(u.list)
              && AllInts(u.list) && Total(u.list, UnitsOf) == u.totalSupply
              && u.totalSupply == (100.0 * Total(rows, FractionsOf) as real / q).Floor
              && Total(u.list, For(Normal(creator)))
                 == Total(rows, FractionsFor(Normal(creator))) + u.totalSupply - Total(rows, FractionsOf)
    ensures u.errors.Found? ==>
              && ("address" in u.errors.problems <==> !u.valid) && u.errors.problems.Keys <= {"address"}
              && (!u.valid ==> u.errors.problems["address"] == BadAddresses(Rejected(u.list, isAddress)))
  {
    hide CsvEntries, Normal, Total, ParseAllowlist, AcceptedList, SumPercent, SumUnits, Numeric, WithinPercent;
    hide For, FractionsFor, AllInts, Rejected, Fraction;
    var add := Creator(creator, percentage);
    ghost var q := if percentage.Some? then percentage.value else 50.0;
    assert add == [Added(creator, 1.0 - q / 100.0)] by { CreatorIs(creator, percentage); }
    var parsed := ParseAllowlist(rows, csvErrors, deduplicate, add);
    ParseResult(rows, csvErrors, deduplicate, add);
    UsableIff(rows, csvErrors, creator, percentage);
    UsableInput(rows, csvErrors, percentage);
    if !parsed.Accepted? {
      return Update([], 0, false, Thrown);
    }
    AcceptedTotal(rows, deduplicate, add);
    AcceptedIsValid(rows, deduplicate, add, isAddress);
    SumUnitsTotal(parsed.list);
    var total := SumUnits(parsed.list);
    if total.NaN? {
      return Update([], 0, false, Thrown);
    }
    HookList(rows, deduplicate, creator, q);
    var valid, errors := ValidateAllowlist(parsed.list, total.n, isAddress);
    return Update(parsed.list, total.n, valid, Found(errors.value));
  }

  /**
   * The parser refuses totals of at most zero, but a CSV with a fraction that is not a number has no
   * total to refuse: it is always accepted, and no supply makes the list valid.
   */
  lemma ParserAcceptsNaN(rows: seq<CsvRow>, deduplicate: bool, add: seq<Added>, units: int, isAddress: string -> bool)
    requires !Numeric(rows)
    requires 0.0 <= SumPercent(add) < 1.0 && forall x :: x in add ==> 0.0 <= x.percentage < 1.0
    ensures ParseAllowlist(rows, false, deduplicate, add).Accepted?
    ensures !Valid(ParseAllowlist(rows, false, deduplicate, add).list, units, isAddress)
  {
    hide CsvEntries, AcceptedList, SumPercent, SumUnits, Total, ParseAllowlist, Numeric;
    ParseResult(rows, false, deduplicate, add);
    CsvTotals(rows);
    SumUnitsTotal(CsvEntries(rows));
    AcceptedTotal(rows, deduplicate, add);
  }
}
