/** Lists typed into a form, and the comma-separated display values written for them. */
module ListText {
  import opened Options
  import opened Sums
  import opened Text

  datatype Lowercase = All | Addresses

  function IsSeparator(): char -> bool { c => c == ',' || c == '\n' }

  /** Trim every piece and drop the empty ones. */
  function Clean(pieces: seq<string>): seq<string> {
    if pieces == [] then []
    else
      var earlier, item := Clean(pieces[..|pieces| - 1]), Trim(pieces[|pieces| - 1]);
      if item == "" then earlier else earlier + [item]
  }

  predicate IsHexDigit(c: char) { '0' <= c <= '9' || 'a' <= c <= 'f' || 'A' <= c <= 'F' }

  predicate LooksLikeAddress(s: string) {
    |s| == 42 && s[0] == '0' && s[1] == 'x' && forall i :: 2 <= i < 42 ==> IsHexDigit(s[i])
  }

  function LowerItem(item: string, mode: Option<Lowercase>): string {
    match mode
    case None => item
    case Some(All) => Lower(item)
    case Some(Addresses) => if LooksLikeAddress(item) then Lower(item) else item
  }

  function LowerItems(items: seq<string>, mode: Option<Lowercase>): (r: seq<string>)
    ensures |r| == |items| && forall i :: 0 <= i < |r| ==> r[i] == LowerItem(items[i], mode)
  {
    seq(|items|, i requires 0 <= i < |items| => LowerItem(items[i], mode))
  }

  function ParseItems(input: string): seq<string> { Clean(Split(input, IsSeparator())) }

  function ParseList(input: string, mode: Option<Lowercase>, deduplicate: bool): seq<string> {
    var list := LowerItems(ParseItems(input), mode);
    if deduplicate then Uniq(list) else list
  }

  // ------------------------------------------------------------ round trip

  /** What survives printing and parsing: not empty, trimmed, and without separators. */
  predicate CleanItem(item: string) { item != "" && Trimmed(item) && Without(item, IsSeparator()) }

  lemma {:induction false} CleanConcat(a: seq<string>, b: seq<string>)
    ensures Clean(a + b) == Clean(a) + Clean(b)
  {
    if b == [] {
      assert a + b == a;
    } else {
      assert (a + b)[..|a + b| - 1] == a + b[..|b| - 1];
      CleanConcat(a, b[..|b| - 1]);
    }
  }

  lemma CleanOne(piece: string)
    ensures Clean([piece]) == if Trim(piece) == "" then [] else [Trim(piece)]
  {
    assert [piece][..0] == [];
  }

  /** Parsing a concatenation at a separator is parsing its parts. */
  lemma ParseConcat(a: string, c: char, b: string)
    requires c == ',' || c == '\n'
    ensures ParseItems(a + [c] + b) == ParseItems(a) + ParseItems(b)
  {
    SplitAt(a, c, b, IsSeparator());
    CleanConcat(Split(a, IsSeparator()), Split(b, IsSeparator()));
  }

  lemma {:induction false} CleanYieldsClean(pieces: seq<string>)
    requires forall p :: p in pieces ==> Without(p, IsSeparator())
    ensures forall item :: item in Clean(pieces) ==> CleanItem(item)
  {
    if pieces == [] {
    } else {
      var last := pieces[|pieces| - 1];
      assert last in pieces;
      CleanYieldsClean(pieces[..|pieces| - 1]);
      TrimIsTrimmed(last);
    }
  }

  lemma ParseYieldsClean(input: string)
    ensures forall item :: item in ParseItems(input) ==> CleanItem(item)
  {
    SplitPieces(input, IsSeparator());
    CleanYieldsClean(Split(input, IsSeparator()));
  }

  lemma TrimSpaced(item: string, before: string)
    requires item != "" && Trimmed(item) && (before == "" || before == " ")
    ensures Trim(before + item) == item
  {
    TrimIsTrimmed(item);
    if before == " " {
      assert (before + item)[1..] == item;
    } else {
      assert before + item == item;
    }
  }

  lemma ParseOne(item: string, before: string)
    requires CleanItem(item) && (before == "" || before == " ")
    ensures ParseItems(before + item) == [item]
  {
    hide Trim, Trimmed, Split, Clean;
    assert Without(before + item, IsSeparator()) by {
      assert forall c :: c in before + item ==> c in before || c in item;
    }
    SplitWhole(before + item, IsSeparator());
    CleanOne(before + item);
    TrimSpaced(item, before);
  }

  lemma ParseEmpty()
    ensures ParseItems("") == []
  {
    assert Split("", IsSeparator()) == [""];
    CleanOne("");
  }

  lemma {:induction false} ParseJoined(items: seq<string>, space: string)
    requires space == "" || space == " "
    requires forall x :: x in items ==> CleanItem(x)
    ensures ParseItems(Join(items, "," + space)) == items
  {
    hide ParseItems, CleanItem;
    if items == [] {
      ParseEmpty();
    } else {
      var front, last := items[..|items| - 1], items[|items| - 1];
      assert items == front + [last] && last in items;
      if |items| == 1 {
        ParseOne(last, "");
        assert "" + last == last && items == [last];
      } else {
        ParseJoined(front, space);
        JoinAppend(front, last, "," + space);
        JoinedAt(Join(front, "," + space), space, last);
        ParseConcat(Join(front, "," + space), ',', space + last);
        ParseOne(last, space);
      }
    }
  }

  lemma JoinedAt(front: string, space: string, last: string)
    ensures front + ("," + space) + last == front + [','] + (space + last)
  {
  }

  /**
   * A list comes back from its ", " display value, and from a plain comma join, exactly when all its
   * items are non-empty, trimmed and free of commas and line breaks.
   */
  lemma RoundTripIff(items: seq<string>, space: string)
    requires space == "" || space == " "
    ensures ParseItems(Join(items, "," + space)) == items <==> forall x :: x in items ==> CleanItem(x)
  {
    ParseYieldsClean(Join(items, "," + space));
    if forall x :: x in items ==> CleanItem(x) { ParseJoined(items, space); }
  }

  /** What was parsed once can be displayed and parsed again without loss. */
  lemma ParseDisplayParse(input: string)
    ensures ParseItems(Join(ParseItems(input), ", ")) == ParseItems(input)
  {
    hide ParseItems, Join;
    ParseYieldsClean(input);
    ParseJoined(ParseItems(input), " ");
    assert "," + " " == ", ";
  }

  // --------------------------------------------------------- deduplication

  /** The form's test for duplicates: with and without deduplication agree exactly on distinct items. */
  lemma DuplicateTest(input: string, mode: Option<Lowercase>)
    ensures ParseList(input, mode, true) == ParseList(input, mode, false)
            <==> Distinct(LowerItems(ParseItems(input), mode))
  {
    UniqUnchanged(LowerItems(ParseItems(input), mode));
  }

  // ------------------------------------------------------------- pieces and modes

  /** A piece without commas and line breaks is one item, its white space trimmed, or none if it is blank. */
  lemma ParsePiece(a: string, s: string, b: string)
    requires Blank(a) && Blank(b) && Trimmed(s)
    requires forall c :: c in a + s + b ==> c != ',' && c != '\n'
    ensures ParseItems(a + s + b) == if s == "" then [] else [s]
  {
    hide Trim, Trimmed, Blank, Split, Clean;
    TrimPads(a, s, b);
    SplitWhole(a + s + b, IsSeparator());
    CleanOne(a + s + b);
  }

  /** Without a mode items stay as they are; one mode lower-cases all, the other addresses only. */
  lemma ModesOfCase(input: string, i: nat)
    requires i < |ParseItems(input)|
    ensures ParseList(input, None, false) == ParseItems(input)
    ensures var item, all, some := ParseItems(input)[i], ParseList(input, Some(All), false),
                                   ParseList(input, Some(Addresses), false);
            && |all| == |some| == |ParseItems(input)|
            && all[i] == Lower(item)
            && some[i] == if && |item| == 42 && item[0] == '0' && item[1] == 'x'
                             && forall j :: 2 <= j < 42 ==>
                                  '0' <= item[j] <= '9' || 'a' <= item[j] <= 'f' || 'A' <= item[j] <= 'F'
                          then Lower(item) else item
  {
    hide ParseItems, Lower;
    assert ParseList(input, None, false) == ParseItems(input);
  }

  /** Deduplication keeps the first of equal items, after the case has been settled. */
  lemma DeduplicatedList(input: string, mode: Option<Lowercase>)
    ensures ParseList(input, mode, true) == Uniq(ParseList(input, mode, false))
  {
  }
}
