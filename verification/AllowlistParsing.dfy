/**
 * From the rows of an allowlist CSV to an allowlist.  Entries added by percentage are scaled so that
 * the CSV rows keep the rest of the supply.  Percentages are exact reals, units are integers or NaN.
 */
module AllowlistParsing {
  import opened Options
  import opened Sums
  import opened Text

  /** A JavaScript number as it occurs here: parseInt of a non-number is NaN, and NaN spreads. */
  datatype Num = NaN | Int(n: int)

  function Plus(a: Num, b: Num): Num {
    if a.Int? && b.Int? then Int(a.n + b.n) else NaN
  }

  /** A tokenised CSV row; `fractions` is what parseInt makes of that column. */
  datatype CsvRow = CsvRow(address: string, fractions: Num)

  datatype Entry = Entry(address: string, units: Num)

  datatype Added = Added(address: string, percentage: real)

  datatype Parsed = Accepted(list: seq<Entry>) | InvalidData | OutOfBounds

  function Normal(address: string): string { Lower(Trim(address)) }

  function SumUnits(s: seq<Entry>): Num {
    if s == [] then Int(0) else Plus(SumUnits(s[..|s| - 1]), s[|s| - 1].units)
  }

  function SumPercent(add: seq<Added>): real {
    if add == [] then 0.0 else SumPercent(add[..|add| - 1]) + add[|add| - 1].percentage
  }

  function CsvEntries(rows: seq<CsvRow>): seq<Entry> {
    if rows == [] then []
    else
      var last := rows[|rows| - 1];
      CsvEntries(rows[..|rows| - 1]) + [Entry(Normal(last.address), last.fractions)]
  }

  /** CSV total over what percentage of the supply the CSV keeps. */
  function TotalSupply(csvTotal: int, csvPercent: real): real
    requires csvPercent > 0.0
  {
    csvTotal as real / csvPercent
  }

  /** Each added entry's part of the total supply. */
  function Shares(supply: real, add: seq<Added>): (s: seq<real>)
    ensures |s| == |add|
  {
    if add == [] then []
    else Shares(supply, add[..|add| - 1]) + [supply * add[|add| - 1].percentage]
  }

  /** Shares rounded down; without shares the supply was not a number, and neither are they. */
  function AddedEntries(add: seq<Added>, shares: Option<seq<real>>): (s: seq<Entry>)
    requires shares.Some? ==> |shares.value| == |add|
    ensures |s| == |add|
  {
    if add == [] then []
    else
      var n := |add| - 1;
      var rest := if shares.Some? then Some(shares.value[..n]) else None;
      AddedEntries(add[..n], rest)
      + [Entry(Normal(add[n].address), if shares.Some? then Int(shares.value[n].Floor) else NaN)]
  }

  function IndexOf(s: seq<Entry>, address: string): (k: nat)
    ensures k <= |s|
    ensures k < |s| ==> s[k].address == address
    ensures forall i :: 0 <= i < k ==> s[i].address != address
  {
    if s == [] || s[0].address == address then 0 else 1 + IndexOf(s[1..], address)
  }

  /** Group by address, adding up the units; groups in order of first occurrence. */
  function Deduplicate(s: seq<Entry>): seq<Entry> {
    if s == [] then []
    else
      var d, last := Deduplicate(s[..|s| - 1]), s[|s| - 1];
      var k := IndexOf(d, last.address);
      if k < |d| then d[k := Entry(last.address, Plus(d[k].units, last.units))] else d + [last]
  }

  function Combine(csv: seq<Entry>, added: seq<Entry>, deduplicate: bool): seq<Entry> {
    if deduplicate then Deduplicate(csv + added) else csv + added
  }

  /** Shares of the scaled supply, unless the CSV total is not a number. */
  function ScaledShares(csvTotal: Num, add: seq<Added>): (s: Option<seq<real>>)
    requires SumPercent(add) < 1.0
    ensures s.Some? ==> |s.value| == |add|
  {
    if csvTotal.Int? then Some(Shares(TotalSupply(csvTotal.n, 1.0 - SumPercent(add)), add)) else None
  }

  function AcceptedList(rows: seq<CsvRow>, deduplicate: bool, add: seq<Added>): seq<Entry>
    requires SumPercent(add) < 1.0
  {
    var csv := CsvEntries(rows);
    Combine(csv, AddedEntries(add, ScaledShares(SumUnits(csv), add)), deduplicate)
  }

  /** No total of at most zero, and percentages in [0, 1) each and together. */
  predicate Accepts(rows: seq<CsvRow>, csvErrors: bool, add: seq<Added>) {
    var csvTotal := SumUnits(CsvEntries(rows));
    && !csvErrors
    && (csvTotal.Int? ==> csvTotal.n > 0)
    && 0.0 <= SumPercent(add) < 1.0
    && forall x :: x in add ==> 0.0 <= x.percentage < 1.0
  }

  function ParseAllowlist(rows: seq<CsvRow>, csvErrors: bool, deduplicate: bool, add: seq<Added>): Parsed {
    var csvTotal, percent := SumUnits(CsvEntries(rows)), SumPercent(add);
    if csvErrors then InvalidData
    else if csvTotal.Int? && csvTotal.n <= 0 then InvalidData
    else if percent < 0.0 || percent >= 1.0 then OutOfBounds
    else if exists x :: x in add && (x.percentage < 0.0 || x.percentage >= 1.0) then OutOfBounds
    else Accepted(AcceptedList(rows, deduplicate, add))
  }

  lemma ParseResult(rows: seq<CsvRow>, csvErrors: bool, deduplicate: bool, add: seq<Added>)
    ensures var r := ParseAllowlist(rows, csvErrors, deduplicate, add);
            && (r.Accepted? <==> Accepts(rows, csvErrors, add))
            && (r.Accepted? ==> r.list == AcceptedList(rows, deduplicate, add))
  {
    hide AcceptedList, SumUnits, SumPercent, CsvEntries;
  }

  // ----------------------------------------------------------- adding up

  /** All units are numbers. */
  predicate AllInts(s: seq<Entry>) { forall e :: e in s ==> e.units.Int? }

  function UnitsOf(e: Entry): int { if e.units.Int? then e.units.n else 0 }

  lemma {:induction false} SumUnitsTotal(s: seq<Entry>)
    ensures SumUnits(s) == if AllInts(s) then Int(Total(s, UnitsOf)) else NaN
  {
    if s == [] {
    } else {
      SumUnitsTotal(s[..|s| - 1]);
      assert s == s[..|s| - 1] + [s[|s| - 1]];
      assert AllInts(s) <==> AllInts(s[..|s| - 1]) && s[|s| - 1].units.Int?;
    }
  }

  lemma {:induction false} SumUnitsConcat(a: seq<Entry>, b: seq<Entry>)
    ensures SumUnits(a + b) == Plus(SumUnits(a), SumUnits(b))
  {
    if b == [] {
      assert a + b == a;
    } else {
      assert (a + b)[..|a + b| - 1] == a + b[..|b| - 1];
      SumUnitsConcat(a, b[..|b| - 1]);
    }
  }

  // ------------------------------------------------------ supply and shares

  function SumReals(ys: seq<real>): real {
    if ys == [] then 0.0 else SumReals(ys[..|ys| - 1]) + ys[|ys| - 1]
  }

  lemma SumRealsAppend(ys: seq<real>, y: real)
    ensures SumReals(ys + [y]) == SumReals(ys) + y
  {
    assert (ys + [y])[..|ys|] == ys;
  }

  lemma SharesAppend(supply: real, front: seq<Added>, last: Added)
    ensures SumReals(Shares(supply, front + [last])) == SumReals(Shares(supply, front)) + supply * last.percentage
    ensures SumPercent(front + [last]) == SumPercent(front) + last.percentage
  {
    assert (front + [last])[..|front|] == front;
    SumRealsAppend(Shares(supply, front), supply * last.percentage);
  }

  predicate IsPart(sum: real, whole: real, percent: real) { sum == whole * percent }

  lemma IsPartStep(sum: real, whole: real, percent: real, more: real)
    requires IsPart(sum, whole, percent)
    ensures IsPart(sum + whole * more, whole, percent + more)
  {
    Distribute(whole, percent, more);
  }

  lemma {:induction false} SharesTotal(supply: real, add: seq<Added>)
    ensures IsPart(SumReals(Shares(supply, add)), supply, SumPercent(add))
  {
    if add == [] {
    } else {
      hide Shares, SumReals, SumPercent, IsPart;
      var front, last := add[..|add| - 1], add[|add| - 1];
      assert add == front + [last];
      SharesTotal(supply, front);
      SharesAppend(supply, front, last);
      IsPartStep(SumReals(Shares(supply, front)), supply, SumPercent(front), last.percentage);
    }
  }

  /** Rounding down loses less than one unit for each entry. */
  lemma {:induction false} AddedTotal(add: seq<Added>, shares: seq<real>)
    requires |shares| == |add|
    ensures SumUnits(AddedEntries(add, Some(shares))).Int?
    ensures var got, exact := SumUnits(AddedEntries(add, Some(shares))).n as real, SumReals(shares);
            got <= exact && (if add == [] then got == exact else exact - got < |add| as real)
  {
    if add == [] {
    } else {
      AddedTotal(add[..|add| - 1], shares[..|add| - 1]);
      assert AddedEntries(add, Some(shares))[..|add| - 1] == AddedEntries(add[..|add| - 1], Some(shares[..|add| - 1]));
    }
  }

  lemma Distribute(s: real, a: real, b: real)
    ensures s * (a + b) == s * a + s * b
  {
  }

  lemma MulMono(a: real, b: real, k: real)
    requires a <= b && k >= 0.0
    ensures a * k <= b * k
  {
  }

  /** If s units are split so that csv keeps 1 - p of them, the rest is p of them. */
  lemma Rescale(csv: real, p: real)
    requires p < 1.0
    ensures csv / (1.0 - p) == csv + csv / (1.0 - p) * p
  {
    var s := csv / (1.0 - p);
    assert s * (1.0 - p) == csv;
    Distribute(s, 1.0, -p);
  }

  /** The part p of what rounding loses. */
  lemma Loss(p: real, short: real) returns (loss: real)
    requires 0.0 <= p < 1.0 && short >= 0.0
    ensures loss == p * short && 0.0 <= loss <= short
  {
    loss := p * short;
    MulMono(p, 1.0, short);
    MulMono(0.0, p, short);
  }

  /** Given `got` out of the exact s * p units: the share of csv + got that they are. */
  lemma ShareBounds(s: real, csv: real, got: real, p: real, k: real)
    requires 0.0 <= p < 1.0 && s == csv + s * p
    requires got <= s * p && s * p - got < k
    ensures got <= p * (csv + got) && p * (csv + got) - got < k
  {
    var short := s * p - got;
    var loss := Loss(p, short);
    calc {
      p * (csv + got);
    ==
      p * (s - short);
    == { Distribute(p, s, -short); }
      s * p - loss;
    }
  }

  /**
   * A supply next to S, the CSV total over what the CSV keeps, when k entries were added for the
   * percentage p: at most S, short of it by less than k (by nothing for k = 0); and the added entries
   * together hold no more than p of the supply, and less than k units below it.
   */
  ghost predicate WithinBounds(csv: int, supply: int, p: real, k: nat)
    requires p < 1.0
  {
    var s, got := TotalSupply(csv, 1.0 - p), (supply - csv) as real;
    && supply as real <= s
    && (if k == 0 then supply as real == s else s - supply as real < k as real)
    && got <= p * supply as real
    && (k > 0 ==> p * supply as real - got < k as real)
  }

  /** `got` is p of S, each of the k entries rounded down. */
  ghost predicate RoundedShare(csv: int, got: int, p: real, k: nat)
    requires p < 1.0
  {
    var exact := TotalSupply(csv, 1.0 - p) * p;
    got as real <= exact && (if k == 0 then got as real == exact else exact - got as real < k as real)
  }

  lemma BoundsOf(csv: int, got: int, p: real, k: nat)
    requires 0.0 <= p < 1.0 && RoundedShare(csv, got, p, k)
    ensures WithinBounds(csv, csv + got, p, k)
  {
    Rescale(csv as real, p);
    ShareBounds(TotalSupply(csv, 1.0 - p), csv as real, got as real, p, if k == 0 then 1.0 else k as real);
  }

  lemma AddedShare(csv: int, p: real, add: seq<Added>) returns (got: int)
    requires p == SumPercent(add) < 1.0
    ensures SumUnits(AddedEntries(add, Some(Shares(TotalSupply(csv, 1.0 - p), add)))) == Int(got)
    ensures RoundedShare(csv, got, p, |add|)
  {
    hide Shares, AddedEntries, SumUnits, SumPercent, SumReals, TotalSupply;
    var shares := Shares(TotalSupply(csv, 1.0 - p), add);
    SharesTotal(TotalSupply(csv, 1.0 - p), add);
    AddedTotal(add, shares);
    got := SumUnits(AddedEntries(add, Some(shares))).n;
  }

  lemma ListTotal(csv: seq<Entry>, added: seq<Entry>, deduplicate: bool, got: int)
    requires AllInts(csv) && SumUnits(added) == Int(got)
    ensures AllInts(Combine(csv, added, deduplicate))
    ensures Total(Combine(csv, added, deduplicate), UnitsOf) == Total(csv, UnitsOf) + got
  {
    SumUnitsTotal(csv);
    CombineSum(csv, added, deduplicate);
    SumUnitsTotal(Combine(csv, added, deduplicate));
  }

  /** The supply of every accepted list of numbers, with or without deduplication. */
  lemma SupplyBounds(rows: seq<CsvRow>, deduplicate: bool, add: seq<Added>)
    requires Accepts(rows, false, add) && AllInts(CsvEntries(rows))
    ensures AllInts(AcceptedList(rows, deduplicate, add))
    ensures WithinBounds(Total(CsvEntries(rows), UnitsOf), Total(AcceptedList(rows, deduplicate, add), UnitsOf),
                         SumPercent(add), |add|)
  {
    hide WithinBounds, RoundedShare, TotalSupply, Shares, AddedEntries, Combine;
    hide CsvEntries, SumPercent, SumUnits, Total;
    var csvList, p := CsvEntries(rows), SumPercent(add);
    var csv := Total(csvList, UnitsOf);
    SumUnitsTotal(csvList);
    var got := AddedShare(csv, p, add);
    ListTotal(csvList, AddedEntries(add, Some(Shares(TotalSupply(csv, 1.0 - p), add))), deduplicate, got);
    BoundsOf(csv, got, p, |add|);
  }

  lemma CombineSum(csv: seq<Entry>, added: seq<Entry>, deduplicate: bool)
    ensures SumUnits(Combine(csv, added, deduplicate)) == Plus(SumUnits(csv), SumUnits(added))
  {
    SumUnitsConcat(csv, added);
    DeduplicateSum(csv + added);
  }

  // ------------------------------------------------------------ deduplication

  predicate DistinctAddresses(d: seq<Entry>) {
    forall i, j :: 0 <= i < j < |d| ==> d[i].address != d[j].address
  }

  function UnitsAt(s: seq<Entry>, address: string): Num {
    if s == [] then Int(0)
    else
      var rest := UnitsAt(s[..|s| - 1], address);
      if s[|s| - 1].address == address then Plus(rest, s[|s| - 1].units) else rest
  }

  predicate Lists(s: seq<Entry>, address: string) { exists e :: e in s && e.address == address }

  /** `d` has each address of `s` once, with all its units. */
  ghost predicate Groups(s: seq<Entry>, d: seq<Entry>) {
    && DistinctAddresses(d)
    && (forall a :: Lists(d, a) <==> Lists(s, a))
    && (forall e :: e in d ==> e.units == UnitsAt(s, e.address))
  }

  lemma ListsAppend(s: seq<Entry>, e: Entry, a: string)
    ensures Lists(s + [e], a) <==> Lists(s, a) || e.address == a
  {
    if e.address == a { assert e in s + [e]; }
    if q :| q in s && q.address == a { assert q in s + [e]; }
  }

  lemma {:induction false} UnitsAtAbsent(s: seq<Entry>, a: string)
    requires !Lists(s, a)
    ensures UnitsAt(s, a) == Int(0)
  {
    if s == [] {
    } else {
      assert s == s[..|s| - 1] + [s[|s| - 1]];
      ListsAppend(s[..|s| - 1], s[|s| - 1], a);
      UnitsAtAbsent(s[..|s| - 1], a);
    }
  }

  lemma GroupsMerge(s: seq<Entry>, d: seq<Entry>, e: Entry, k: nat)
    requires Groups(s, d) && k < |d| && d[k].address == e.address
    ensures Groups(s + [e], d[k := Entry(e.address, Plus(d[k].units, e.units))])
  {
    var d2 := d[k := Entry(e.address, Plus(d[k].units, e.units))];
    assert (s + [e])[..|s|] == s;
    assert forall i :: 0 <= i < |d| ==> d2[i].address == d[i].address;
    forall a ensures Lists(d2, a) <==> Lists(s + [e], a) {
      ListsAppend(s, e, a);
      if q :| q in d2 && q.address == a {
        var i :| 0 <= i < |d2| && d2[i] == q;
        assert d[i] in d;
      }
      if q :| q in d && q.address == a {
        var i :| 0 <= i < |d| && d[i] == q;
        assert d2[i] in d2;
      }
      assert d[k] in d;
    }
    forall x | x in d2 ensures x.units == UnitsAt(s + [e], x.address) {
      var i :| 0 <= i < |d2| && d2[i] == x;
      assert d[i] in d;
    }
  }

  lemma UnitsAtAppend(s: seq<Entry>, e: Entry, a: string)
    ensures UnitsAt(s + [e], a) == if e.address == a then Plus(UnitsAt(s, a), e.units) else UnitsAt(s, a)
  {
    assert (s + [e])[..|s|] == s;
  }

  lemma GroupsExtend(s: seq<Entry>, d: seq<Entry>, e: Entry)
    requires Groups(s, d) && !Lists(d, e.address)
    ensures Groups(s + [e], d + [e])
  {
    UnitsAtAbsent(s, e.address);
    forall x | x in d + [e] ensures x.units == UnitsAt(s + [e], x.address) {
      UnitsAtAppend(s, e, x.address);
      assert x in d ==> x.address != e.address;
    }
    forall a ensures Lists(d + [e], a) <==> Lists(s + [e], a) {
      ListsAppend(s, e, a);
      ListsAppend(d, e, a);
    }
    DistinctAddressesAppend(d, e);
  }

  lemma DistinctAddressesAppend(d: seq<Entry>, e: Entry)
    requires DistinctAddresses(d) && !Lists(d, e.address)
    ensures DistinctAddresses(d + [e])
  {
    assert forall i :: 0 <= i < |d| ==> d[i] in d;
  }

  /** Each address once, each with the units of all its entries. */
  lemma {:induction false} DeduplicateGroups(s: seq<Entry>)
    ensures Groups(s, Deduplicate(s))
  {
    if s == [] {
    } else {
      var front, last := s[..|s| - 1], s[|s| - 1];
      var d := Deduplicate(front);
      DeduplicateGroups(front);
      assert s == front + [last];
      var k := IndexOf(d, last.address);
      if k < |d| { GroupsMerge(front, d, last, k); } else { GroupsExtend(front, d, last); }
    }
  }

  lemma {:induction false} SumUnitsUpdate(d: seq<Entry>, k: nat, e: Entry)
    requires k < |d|
    ensures SumUnits(d[k := Entry(e.address, Plus(d[k].units, e.units))]) == Plus(SumUnits(d), e.units)
  {
    var d2 := d[k := Entry(e.address, Plus(d[k].units, e.units))];
    if k < |d| - 1 {
      SumUnitsUpdate(d[..|d| - 1], k, e);
      assert d2[..|d| - 1] == d[..|d| - 1][k := d2[k]];
    } else {
      assert d2[..|d| - 1] == d[..|d| - 1];
    }
  }

  /** The total is what it was, not a number included. */
  lemma {:induction false} DeduplicateSum(s: seq<Entry>)
    ensures SumUnits(Deduplicate(s)) == SumUnits(s)
  {
    if s == [] {
    } else {
      var front, last := s[..|s| - 1], s[|s| - 1];
      var d := Deduplicate(front);
      DeduplicateSum(front);
      var k := IndexOf(d, last.address);
      if k < |d| { SumUnitsUpdate(d, k, last); } else { assert (d + [last])[..|d|] == d; }
    }
  }

  /** Grouping by address has one result, up to the order of the groups. */
  lemma GroupsUnique(s: seq<Entry>, d1: seq<Entry>, d2: seq<Entry>)
    requires Groups(s, d1) && Groups(s, d2)
    ensures multiset(d1) == multiset(d2)
  {
    forall e ensures multiset(d1)[e] == multiset(d2)[e] {
      DistinctCount(d1, e);
      DistinctCount(d2, e);
      if e in d1 { GroupsSubset(s, d1, d2, e); }
      if e in d2 { GroupsSubset(s, d2, d1, e); }
    }
  }

  lemma GroupsSubset(s: seq<Entry>, d1: seq<Entry>, d2: seq<Entry>, e: Entry)
    requires Groups(s, d1) && Groups(s, d2) && e in d1
    ensures e in d2
  {
    assert Lists(d1, e.address);
    var f :| f in d2 && f.address == e.address;
    assert f == e;
  }

  lemma {:induction false} DistinctCount(d: seq<Entry>, e: Entry)
    requires DistinctAddresses(d)
    ensures multiset(d)[e] == if e in d then 1 else 0
  {
    if d == [] {
    } else {
      DistinctCount(d[..|d| - 1], e);
      assert d == d[..|d| - 1] + [d[|d| - 1]];
    }
  }

  /** Deduplicating again changes nothing. */
  lemma {:induction false} DeduplicateFixed(d: seq<Entry>)
    requires DistinctAddresses(d)
    ensures Deduplicate(d) == d
  {
    if d == [] {
    } else {
      DeduplicateFixed(d[..|d| - 1]);
      assert d == d[..|d| - 1] + [d[|d| - 1]];
    }
  }

  lemma DeduplicateIdempotent(s: seq<Entry>)
    ensures Deduplicate(Deduplicate(s)) == Deduplicate(s)
  {
    DeduplicateGroups(s);
    DeduplicateFixed(Deduplicate(s));
  }

  lemma {:induction false} UnitsAtConcat(a: seq<Entry>, b: seq<Entry>, address: string)
    ensures UnitsAt(a + b, address) == Plus(UnitsAt(a, address), UnitsAt(b, address))
  {
    if b == [] {
      assert a + b == a;
    } else {
      assert (a + b)[..|a + b| - 1] == a + b[..|b| - 1];
      UnitsAtConcat(a, b[..|b| - 1], address);
    }
  }

  lemma {:induction false} UnitsAtOnly(d: seq<Entry>, e: Entry)
    requires DistinctAddresses(d) && e in d
    ensures UnitsAt(d, e.address) == e.units
  {
    var front, last := d[..|d| - 1], d[|d| - 1];
    assert d == front + [last];
    UnitsAtAppend(front, last, e.address);
    if e == last {
      UnitsAtAbsent(front, e.address);
    } else {
      UnitsAtOnly(front, e);
    }
  }

  /** Grouping leaves each address what it has. */
  lemma GroupsKeepUnits(s: seq<Entry>, d: seq<Entry>, address: string)
    requires Groups(s, d)
    ensures UnitsAt(d, address) == UnitsAt(s, address)
  {
    if Lists(d, address) {
      var e :| e in d && e.address == address;
      UnitsAtOnly(d, e);
    } else {
      UnitsAtAbsent(d, address);
      UnitsAtAbsent(s, address);
    }
  }

  lemma CombineUnitsAt(csv: seq<Entry>, added: seq<Entry>, deduplicate: bool, address: string)
    ensures UnitsAt(Combine(csv, added, deduplicate), address) == Plus(UnitsAt(csv, address), UnitsAt(added, address))
  {
    UnitsAtConcat(csv, added, address);
    DeduplicateGroups(csv + added);
    GroupsKeepUnits(csv + added, Deduplicate(csv + added), address);
  }

  /** What a list gives to an address. */
  function For(address: string): Entry -> int { (e: Entry) => if e.address == address then UnitsOf(e) else 0 }

  predicate NumericFor(s: seq<Entry>, address: string) { forall e :: e in s && e.address == address ==> e.units.Int? }

  lemma {:induction false} UnitsAtTotal(s: seq<Entry>, address: string)
    ensures UnitsAt(s, address) == if NumericFor(s, address) then Int(Total(s, For(address))) else NaN
  {
    if s == [] {
    } else {
      var front, last := s[..|s| - 1], s[|s| - 1];
      assert s == front + [last] && last in s;
      UnitsAtTotal(front, address);
      assert NumericFor(s, address) <==> NumericFor(front, address) && (last.address == address ==> last.units.Int?);
    }
  }

  // ------------------------------------------------------- the parser's verdict

  function FractionsOf(r: CsvRow): int { if r.fractions.Int? then r.fractions.n else 0 }

  predicate Numeric(rows: seq<CsvRow>) { forall r :: r in rows ==> r.fractions.Int? }

  lemma {:induction false} CsvEntryAt(rows: seq<CsvRow>, i: nat)
    requires i < |rows|
    ensures |CsvEntries(rows)| == |rows|
    ensures CsvEntries(rows)[i] == Entry(Normal(rows[i].address), rows[i].fractions)
  {
    hide Normal;
    var n := |rows| - 1;
    if n == 0 {
    } else {
      CsvEntryAt(rows[..n], if i < n then i else 0);
    }
  }

  lemma CsvAppend(front: seq<CsvRow>, last: CsvRow)
    ensures CsvEntries(front + [last]) == CsvEntries(front) + [Entry(Normal(last.address), last.fractions)]
  {
    hide Normal;
    assert (front + [last])[..|front|] == front;
  }

  lemma {:induction false} CsvTotals(rows: seq<CsvRow>)
    ensures AllInts(CsvEntries(rows)) <==> Numeric(rows)
    ensures Total(CsvEntries(rows), UnitsOf) == Total(rows, FractionsOf)
  {
    if rows == [] {
    } else {
      hide Normal, CsvEntries, Total;
      var front, last := rows[..|rows| - 1], rows[|rows| - 1];
      assert rows == front + [last];
      CsvTotals(front);
      CsvAppend(front, last);
      TotalAppend(CsvEntries(front), Entry(Normal(last.address), last.fractions), UnitsOf);
      TotalAppend(front, last, FractionsOf);
    }
  }

  lemma {:induction false} AddedEntryAt(add: seq<Added>, shares: Option<seq<real>>, j: nat)
    requires j < |add| && (shares.Some? ==> |shares.value| == |add|)
    ensures AddedEntries(add, shares)[j]
            == Entry(Normal(add[j].address), if shares.Some? then Int(shares.value[j].Floor) else NaN)
  {
    hide Normal;
    var n := |add| - 1;
    if j == n {
    } else {
      AddedEntryAt(add[..n], if shares.Some? then Some(shares.value[..n]) else None, j);
    }
  }

  lemma {:induction false} ShareAt(supply: real, add: seq<Added>, j: nat)
    requires j < |add|
    ensures Shares(supply, add)[j] == supply * add[j].percentage
  {
    if j == |add| - 1 {
    } else {
      ShareAt(supply, add[..|add| - 1], j);
    }
  }

  /** The largest number of whole units that is not above the share. */
  predicate WholeUnits(units: Num, share: real) { units.Int? && units.n as real <= share < units.n as real + 1.0 }

  /**
   * Row by row: the CSV's entries as they are, then the added ones, each with its percentage of the
   * supply S in whole units, or without a number if some fraction of the CSV is none.
   */
  ghost predicate ScaledList(rows: seq<CsvRow>, add: seq<Added>, list: seq<Entry>)
    requires SumPercent(add) < 1.0
  {
    && |list| == |rows| + |add|
    && (forall i :: 0 <= i < |rows| ==> list[i] == Entry(Normal(rows[i].address), rows[i].fractions))
    && (forall j :: 0 <= j < |add| ==>
          var e, s := list[|rows| + j], Total(rows, FractionsOf) as real / (1.0 - SumPercent(add));
          && e.address == Normal(add[j].address)
          && (if Numeric(rows) then WholeUnits(e.units, s * add[j].percentage) else e.units.NaN?))
  }

  lemma AcceptedIsScaled(rows: seq<CsvRow>, add: seq<Added>)
    requires SumPercent(add) < 1.0
    ensures ScaledList(rows, add, AcceptedList(rows, false, add))
  {
    hide Normal, SumPercent, CsvEntries, AddedEntries, Shares, Total, SumUnits;
    var total, list := SumUnits(CsvEntries(rows)), AcceptedList(rows, false, add);
    var shares := ScaledShares(total, add);
    CsvTotals(rows);
    SumUnitsTotal(CsvEntries(rows));
    CsvLength(rows);
    assert list == CsvEntries(rows) + AddedEntries(add, shares);
    forall i | 0 <= i < |rows| ensures list[i] == Entry(Normal(rows[i].address), rows[i].fractions) {
      CsvEntryAt(rows, i);
    }
    forall j | 0 <= j < |add|
      ensures list[|rows| + j]
              == Entry(Normal(add[j].address), if total.Int? then Int(shares.value[j].Floor) else NaN)
      ensures total.Int? ==>
                shares.value[j] == TotalSupply(total.n, 1.0 - SumPercent(add)) * add[j].percentage
    {
      AddedEntryAt(add, shares, j);
      if total.Int? { ShareAt(TotalSupply(total.n, 1.0 - SumPercent(add)), add, j); }
    }
  }

  lemma CsvLength(rows: seq<CsvRow>)
    ensures |CsvEntries(rows)| == |rows|
  {
    if rows != [] { CsvEntryAt(rows, 0); }
  }

  /** Each address of the list once, with the total of what the list gives it, and no other address. */
  ghost predicate Merges(list: seq<Entry>, merged: seq<Entry>) {
    && (forall i, j :: 0 <= i < j < |merged| ==> merged[i].address != merged[j].address)
    && (forall a :: Lists(merged, a) <==> Lists(list, a))
    && (forall e :: e in merged ==>
          if forall l :: l in list && l.address == e.address ==> l.units.Int? then
            e.units == Int(Total(list, (l: Entry) => if l.address == e.address then UnitsOf(l) else 0))
          else e.units == NaN)
  }

  lemma DeduplicateMerges(list: seq<Entry>)
    ensures Merges(list, Deduplicate(list))
  {
    hide Deduplicate, UnitsAt, Total;
    DeduplicateGroups(list);
    var merged := Deduplicate(list);
    forall e | e in merged
      ensures if NumericFor(list, e.address) then
                e.units == Int(Total(list, (l: Entry) => if l.address == e.address then UnitsOf(l) else 0))
              else e.units == NaN
    {
      UnitsAtTotal(list, e.address);
      TotalSame(list, For(e.address), (l: Entry) => if l.address == e.address then UnitsOf(l) else 0);
    }
  }

  /** Two addresses are taken for one exactly if, trimmed, they differ in the case of letters at most. */
  lemma NormalEqualIff(a: string, b: string)
    ensures Normal(a) == Normal(b) <==> SameButForCase(Trim(a), Trim(b))
  {
    LowerEqualIff(Trim(a), Trim(b));
  }

  /** Deduplication merges two rows of the CSV exactly if their trimmed addresses are the same but for case. */
  lemma RowsMergedIff(rows: seq<CsvRow>, add: seq<Added>, i: nat, j: nat)
    requires Accepts(rows, false, add) && i < |rows| && j < |rows|
    ensures var merged := AcceptedList(rows, true, add);
            (exists e :: e in merged && e.address == Normal(rows[i].address) == Normal(rows[j].address))
            <==> SameButForCase(Trim(rows[i].address), Trim(rows[j].address))
  {
    hide Normal, SameButForCase, Trim, CsvEntries, SumUnits, AddedEntries, Deduplicate, SumPercent;
    NormalEqualIff(rows[i].address, rows[j].address);
    CsvEntryAt(rows, i);
    CsvLength(rows);
    var plain := AcceptedList(rows, false, add);
    assert plain[i] == CsvEntries(rows)[i] && plain[i] in plain;
    DeduplicateGroups(plain);
    assert AcceptedList(rows, true, add) == Deduplicate(plain);
    assert Lists(plain, Normal(rows[i].address));
    if Normal(rows[i].address) == Normal(rows[j].address) {
      assert Lists(Deduplicate(plain), Normal(rows[i].address));
    }
  }

  /**
   * Whether and what the parser accepts, read off its input: duplicates make no difference to the
   * verdict, and merging them groups the plain list by address.
   */
  lemma ParsedAllowlist(rows: seq<CsvRow>, csvErrors: bool, add: seq<Added>)
    ensures var plain := ParseAllowlist(rows, csvErrors, false, add);
            var merged := ParseAllowlist(rows, csvErrors, true, add);
            && (plain.Accepted? <==> merged.Accepted?) && (!plain.Accepted? ==> merged == plain)
            && (plain == InvalidData <==> csvErrors || (Numeric(rows) && Total(rows, FractionsOf) <= 0))
            && (plain.Accepted? <==> && !csvErrors && (Numeric(rows) ==> Total(rows, FractionsOf) > 0)
                                     && 0.0 <= SumPercent(add) < 1.0
                                     && forall x :: x in add ==> 0.0 <= x.percentage < 1.0)
            && (plain.Accepted? ==> ScaledList(rows, add, plain.list) && Merges(plain.list, merged.list))
  {
    hide SumPercent, CsvEntries, Total, SumUnits, ScaledList, Groups, Merges, AllInts, Numeric;
    CsvTotals(rows);
    SumUnitsTotal(CsvEntries(rows));
    ParseResult(rows, csvErrors, false, add);
    ParseResult(rows, csvErrors, true, add);
    if SumPercent(add) < 1.0 {
      AcceptedIsScaled(rows, add);
      DeduplicateMerges(AcceptedList(rows, false, add));
    }
  }
}
