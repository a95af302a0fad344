/** Strings as the services write them: decimal numbers, hex addresses, lower-casing. */
module Text {

  type Byte = b: int | 0 <= b < 256

  /** A 20-byte contract or account address. */
  type Address = a: seq<Byte> | |a| == 20 witness seq(20, i => 0)

  // ---------------------------------------------------------------- decimal

  function Digit(d: nat): (c: char)
    requires d < 10
    ensures '0' <= c <= '9'
    ensures c as int - '0' as int == d
  {
    ('0' as int + d) as char
  }

  function Decimal(n: nat): (s: string)
    ensures |s| >= 1
    ensures forall i :: 0 <= i < |s| ==> '0' <= s[i] <= '9'
  {
    if n < 10 then [Digit(n)] else Decimal(n / 10) + [Digit(n % 10)]
  }

  /** Positional reading of a digit string: the reference that Decimal inverts. */
  ghost function ReadDecimal(s: string): int {
    if s == [] then 0 else ReadDecimal(s[..|s| - 1]) * 10 + (s[|s| - 1] as int - '0' as int)
  }

  lemma {:induction false} ReadDecimalUndoesDecimal(n: nat)
    ensures ReadDecimal(Decimal(n)) == n
  {
    var s := Decimal(n);
    if n < 10 {
      assert s[..|s| - 1] == [];
    } else {
      assert s[..|s| - 1] == Decimal(n / 10);
      ReadDecimalUndoesDecimal(n / 10);
    }
  }

  lemma DecimalInjective(m: nat, n: nat)
    requires Decimal(m) == Decimal(n)
    ensures m == n
  {
    ReadDecimalUndoesDecimal(m);
    ReadDecimalUndoesDecimal(n);
  }

  // -------------------------------------------------------------------- hex

  function HexDigit(d: nat): (c: char)
    requires d < 16
    ensures c as int == if d < 10 then '0' as int + d else 'a' as int + (d - 10)
  {
    if d < 10 then ('0' as int + d) as char else ('a' as int + (d - 10)) as char
  }

  function Hex(bytes: seq<Byte>): (s: string)
    ensures |s| == 2 * |bytes|
  {
    if bytes == [] then "" else [HexDigit(bytes[0] / 16), HexDigit(bytes[0] % 16)] + Hex(bytes[1..])
  }

  lemma {:induction false} HexInjective(a: seq<Byte>, b: seq<Byte>)
    requires Hex(a) == Hex(b)
    ensures a == b
  {
    assert |a| == |b|;
    if a == [] {
    } else {
      assert Hex(a)[0] == HexDigit(a[0] / 16) && Hex(a)[1] == HexDigit(a[0] % 16);
      assert Hex(b)[0] == HexDigit(b[0] / 16) && Hex(b)[1] == HexDigit(b[0] % 16);
      assert Hex(a)[2..] == Hex(a[1..]) && Hex(b)[2..] == Hex(b[1..]);
      HexInjective(a[1..], b[1..]);
      assert a == [a[0]] + a[1..] && b == [b[0]] + b[1..];
    }
  }

  /** What a lower-case hex digit stands for. */
  ghost function HexValue(c: char): int {
    if '0' <= c <= '9' then c as int - '0' as int
    else if 'a' <= c <= 'f' then c as int - 'a' as int + 10
    else -1
  }

  /** Two digits for each byte in order, the high one first: the reference that Hex inverts. */
  lemma {:induction false} HexReadsBack(bytes: seq<Byte>, i: nat)
    requires i < |bytes|
    ensures bytes[i] == 16 * HexValue(Hex(bytes)[2 * i]) + HexValue(Hex(bytes)[2 * i + 1])
    ensures 0 <= HexValue(Hex(bytes)[2 * i]) && 0 <= HexValue(Hex(bytes)[2 * i + 1]) < 16
  {
    if i == 0 {
    } else {
      HexReadsBack(bytes[1..], i - 1);
      assert Hex(bytes)[2..] == Hex(bytes[1..]);
      assert Hex(bytes)[2 * i] == Hex(bytes[1..])[2 * (i - 1)];
      assert Hex(bytes)[2 * i + 1] == Hex(bytes[1..])[2 * (i - 1) + 1];
    }
  }

  // ------------------------------------------------------------- lower case

  function LowerChar(c: char): (r: char)
    ensures !('A' <= r <= 'Z')
    ensures !('A' <= c <= 'Z') ==> r == c
  {
    if 'A' <= c <= 'Z' then (c as int + 32) as char else c
  }

  function Lower(s: string): (r: string)
    ensures |r| == |s|
    ensures forall i :: 0 <= i < |s| ==> r[i] == LowerChar(s[i])
  {
    seq(|s|, i requires 0 <= i < |s| => LowerChar(s[i]))
  }

  lemma LowerAlphabet()
    ensures Lower("ABCDEFGHIJKLMNOPQRSTUVWXYZ") == "abcdefghijklmnopqrstuvwxyz"
  {
  }

  /** The same character, or the two cases of one letter. */
  predicate SameLetter(a: char, b: char) {
    || a == b
    || ('A' <= a <= 'Z' && b as int - 'a' as int == a as int - 'A' as int)
    || ('A' <= b <= 'Z' && a as int - 'a' as int == b as int - 'A' as int)
  }

  predicate SameButForCase(s: string, t: string) {
    |s| == |t| && forall i :: 0 <= i < |s| ==> SameLetter(s[i], t[i])
  }

  lemma LowerCharIff(a: char, b: char)
    ensures LowerChar(a) == LowerChar(b) <==> SameLetter(a, b)
  {
  }

  /** Lower-casing forgets the case of letters and nothing else. */
  lemma LowerEqualIff(s: string, t: string)
    ensures Lower(s) == Lower(t) <==> SameButForCase(s, t)
  {
    if |s| == |t| {
      forall i | 0 <= i < |s| ensures Lower(s)[i] == Lower(t)[i] <==> SameLetter(s[i], t[i]) {
        LowerCharIff(s[i], t[i]);
      }
    }
    if Lower(s) == Lower(t) {
      forall i | 0 <= i < |s| ensures SameLetter(s[i], t[i]) { assert Lower(s)[i] == Lower(t)[i]; }
    }
  }

  /** A string without upper-case letters is its own lower-case form, and only such a string is. */
  lemma LowerFixedPoint(s: string)
    ensures Lower(s) == s <==> forall i :: 0 <= i < |s| ==> !('A' <= s[i] <= 'Z')
  {
    if forall i :: 0 <= i < |s| ==> !('A' <= s[i] <= 'Z') {
      assert forall i :: 0 <= i < |s| ==> Lower(s)[i] == s[i];
    } else {
      var i :| 0 <= i < |s| && 'A' <= s[i] <= 'Z';
      assert Lower(s)[i] != s[i];
    }
  }

  lemma LowerIdempotent(s: string)
    ensures Lower(Lower(s)) == Lower(s)
  {
    LowerFixedPoint(Lower(s));
  }

  lemma LowerDecimal(n: nat)
    ensures Lower(Decimal(n)) == Decimal(n)
  {
    LowerFixedPoint(Decimal(n));
  }

  lemma LowerHex(bytes: seq<Byte>)
    ensures Lower("0x" + Hex(bytes)) == "0x" + Hex(bytes)
  {
    HexIsLower(bytes);
    var s := "0x" + Hex(bytes);
    assert s[0] == '0' && s[1] == 'x' && s[2..] == Hex(bytes);
    forall i | 0 <= i < |s| ensures !('A' <= s[i] <= 'Z') {
      if i >= 2 { assert s[i] == Hex(bytes)[i - 2] && s[i] in Hex(bytes); }
    }
    LowerFixedPoint("0x" + Hex(bytes));
  }

  lemma {:induction false} HexIsLower(bytes: seq<Byte>)
    ensures forall c :: c in Hex(bytes) ==> !('A' <= c <= 'Z')
  {
    if bytes == [] {
    } else {
      HexIsLower(bytes[1..]);
    }
  }

  // -------------------------------------------------------------- whitespace

  /** What String.trim and the regular expression \s take for white space. */
  predicate IsSpace(c: char) {
    c == ' ' || '\t' <= c <= '\r' || c == '\U{A0}' || c == '\U{1680}' || '\U{2000}' <= c <= '\U{200A}'
    || c == '\U{2028}' || c == '\U{2029}' || c == '\U{202F}' || c == '\U{205F}' || c == '\U{3000}' || c == '\U{FEFF}'
  }

  /** By number: tab to carriage return, the space, and the other spaces and line ends of Unicode. */
  lemma SpaceNumbers(c: char)
    ensures var n := c as int;
            IsSpace(c) <==> n in {9, 10, 11, 12, 13, 32, 160, 5760, 8232, 8233, 8239, 8287, 12288, 65279}
                            || 8192 <= n <= 8202
  {
  }

  function TrimLeft(s: string): (r: string)
    ensures r == [] || !IsSpace(r[0])
    ensures |r| <= |s| && r == s[|s| - |r|..]
    ensures forall i :: 0 <= i < |s| - |r| ==> IsSpace(s[i])
  {
    if s != [] && IsSpace(s[0]) then TrimLeft(s[1..]) else s
  }

  function TrimRight(s: string): (r: string)
    ensures r == [] || !IsSpace(r[|r| - 1])
    ensures |r| <= |s| && r == s[..|r|]
    ensures forall i :: |r| <= i < |s| ==> IsSpace(s[i])
  {
    if s != [] && IsSpace(s[|s| - 1]) then TrimRight(s[..|s| - 1]) else s
  }

  function Trim(s: string): string { TrimRight(TrimLeft(s)) }

  /** No white space at either end. */
  predicate Trimmed(s: string) { s == [] || (!IsSpace(s[0]) && !IsSpace(s[|s| - 1])) }

  lemma TrimIsTrimmed(s: string)
    ensures Trimmed(Trim(s))
    ensures Trimmed(s) ==> Trim(s) == s
    ensures forall c :: c in Trim(s) ==> c in s
  {
    var l := TrimLeft(s);
    assert forall c :: c in l ==> c in s;
    if Trim(s) != [] { assert Trim(s)[0] == l[0]; }
  }

  predicate Blank(s: string) { forall c :: c in s ==> IsSpace(c) }

  lemma {:induction false} TrimLeftBlank(a: string, s: string)
    requires Blank(a)
    ensures TrimLeft(a + s) == TrimLeft(s)
  {
    hide IsSpace;
    if a == "" {
      assert a + s == s;
    } else {
      assert a[0] in a && (a + s)[1..] == a[1..] + s && forall c :: c in a[1..] ==> c in a;
      TrimLeftBlank(a[1..], s);
    }
  }

  lemma {:induction false} TrimRightBlank(s: string, b: string)
    requires Blank(b)
    ensures TrimRight(s + b) == TrimRight(s)
  {
    hide IsSpace;
    if b == "" {
      assert s + b == s;
    } else {
      var n := |b| - 1;
      assert b[n] in b && (s + b)[..|s + b| - 1] == s + b[..n] && forall c :: c in b[..n] ==> c in b;
      TrimRightBlank(s, b[..n]);
    }
  }

  lemma TrimmedAlone(s: string, b: string)
    requires Trimmed(s)
    ensures TrimRight(s) == s
    ensures s != "" ==> TrimLeft(s + b) == s + b
  {
    hide IsSpace;
    if s != "" { assert (s + b)[0] == s[0]; }
  }

  lemma {:induction false} BlankVanishes(b: string)
    requires Blank(b)
    ensures TrimLeft(b) == ""
  {
    hide IsSpace;
    if b == "" {
    } else {
      assert b[0] in b && forall c :: c in b[1..] ==> c in b;
      BlankVanishes(b[1..]);
    }
  }

  /** Trimming takes the white space off both ends and leaves the rest. */
  lemma TrimPads(a: string, s: string, b: string)
    requires Blank(a) && Trimmed(s) && Blank(b)
    ensures Trim(a + s + b) == s
  {
    hide TrimLeft, TrimRight, Blank, Trimmed;
    assert a + s + b == a + (s + b);
    TrimLeftBlank(a, s + b);
    TrimmedAlone(s, b);
    if s == "" {
      assert s + b == b;
      BlankVanishes(b);
    } else {
      TrimRightBlank(s, b);
    }
  }

  // ------------------------------------------------------ splitting and joining

  predicate Without(s: string, sep: char -> bool) { forall c :: c in s ==> !sep(c) }

  /** A separator starts a new piece; any other character belongs to the last one. */
  function Extend(pieces: seq<string>, c: char, sep: char -> bool): (r: seq<string>)
    requires |pieces| >= 1
    ensures |r| >= 1
  {
    if sep(c) then pieces + [""] else pieces[..|pieces| - 1] + [pieces[|pieces| - 1] + [c]]
  }

  /** The pieces between separator characters; there is always at least one. */
  function Split(s: string, sep: char -> bool): (pieces: seq<string>)
    ensures |pieces| >= 1
  {
    if s == [] then [""] else Extend(Split(s[..|s| - 1], sep), s[|s| - 1], sep)
  }

  lemma SplitAppend(s: string, c: char, sep: char -> bool)
    ensures Split(s + [c], sep) == Extend(Split(s, sep), c, sep)
  {
    assert (s + [c])[..|s|] == s;
  }

  lemma ExtendPieces(pieces: seq<string>, c: char, sep: char -> bool)
    requires |pieces| >= 1 && forall p :: p in pieces ==> Without(p, sep)
    ensures forall p :: p in Extend(pieces, c, sep) ==> Without(p, sep)
  {
    var last := pieces[|pieces| - 1];
    assert last in pieces;
    assert !sep(c) ==> Without(last + [c], sep);
  }

  lemma {:induction false} SplitPieces(s: string, sep: char -> bool)
    ensures forall p :: p in Split(s, sep) ==> Without(p, sep)
  {
    if s == [] {
    } else {
      SplitPieces(s[..|s| - 1], sep);
      ExtendPieces(Split(s[..|s| - 1], sep), s[|s| - 1], sep);
    }
  }

  lemma {:induction false} SplitWhole(s: string, sep: char -> bool)
    requires Without(s, sep)
    ensures Split(s, sep) == [s]
  {
    if s == [] {
    } else {
      hide Split;
      var front, c := s[..|s| - 1], s[|s| - 1];
      assert s == front + [c] && c in s;
      assert forall x :: x in front ==> x in s;
      SplitWhole(front, sep);
      SplitAppend(front, c, sep);
    }
  }

  lemma ExtendConcat(x: seq<string>, y: seq<string>, c: char, sep: char -> bool)
    requires |y| >= 1
    ensures Extend(x + y, c, sep) == x + Extend(y, c, sep)
  {
    assert (x + y)[..|x + y| - 1] == x + y[..|y| - 1];
  }

  /** Splitting at a separator splits the parts on either side of it. */
  lemma {:induction false} SplitAt(a: string, c: char, b: string, sep: char -> bool)
    requires sep(c)
    ensures Split(a + [c] + b, sep) == Split(a, sep) + Split(b, sep)
  {
    if b == [] {
      assert a + [c] + b == a + [c];
      SplitAppend(a, c, sep);
    } else {
      var front, d := b[..|b| - 1], b[|b| - 1];
      assert b == front + [d] && a + [c] + b == (a + [c] + front) + [d];
      SplitAt(a, c, front, sep);
      SplitAppend(a + [c] + front, d, sep);
      SplitAppend(front, d, sep);
      ExtendConcat(Split(a, sep), Split(front, sep), d, sep);
    }
  }

  function Join(items: seq<string>, between: string): string {
    if items == [] then ""
    else if |items| == 1 then items[0]
    else Join(items[..|items| - 1], between) + between + items[|items| - 1]
  }

  lemma JoinAppend(items: seq<string>, last: string, between: string)
    requires items != []
    ensures Join(items + [last], between) == Join(items, between) + between + last
  {
    assert (items + [last])[..|items|] == items;
  }

  lemma {:induction false} JoinFront(first: string, rest: seq<string>, between: string)
    requires rest != []
    ensures Join([first] + rest, between) == first + between + Join(rest, between)
  {
    var n := |rest| - 1;
    assert ([first] + rest)[..|rest|] == [first] + rest[..n];
    if n == 0 {
      assert [first] + [] == [first];
    } else {
      JoinFront(first, rest[..n], between);
      assert Join([first] + rest, between) == first + between + Join(rest[..n], between) + between + rest[n];
    }
  }

  /** Pieces without separators come back from joining and splitting. */
  lemma {:induction false} SplitJoin(items: seq<string>, c: char, sep: char -> bool)
    requires items != [] && sep(c) && forall p :: p in items ==> Without(p, sep)
    ensures Split(Join(items, [c]), sep) == items
  {
    var front, last := items[..|items| - 1], items[|items| - 1];
    assert items == front + [last] && last in items;
    SplitWhole(last, sep);
    if front == [] {
    } else {
      SplitJoin(front, c, sep);
      SplitAt(Join(front, [c]), c, last, sep);
    }
  }
}
