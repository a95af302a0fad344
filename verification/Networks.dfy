/** Names of deployed tasks that carry their network in square brackets. */
module Networks {
  import opened Options
  import opened Text

  datatype Network = Network(networkKey: string, contractAddress: string, supabaseTableName: string,
                             alchemyKeyEnvName: string)

  function Bracketed(key: string): string { "[" + key + "]" }

  function EncodeName(network: Network, name: string): string { Bracketed(network.networkKey) + " " + name }

  // ---------------------------------------------------------------- decoding

  predicate IsLineEnd(c: char) { c == '\n' || c == '\r' || c == '\U{2028}' || c == '\U{2029}' }

  lemma LineEndNumbers(c: char)
    ensures IsLineEnd(c) <==> c as int in {10, 13, 0x2028, 0x2029}
  {
  }

  /** One or more characters that the dot of a regular expression matches. */
  predicate Dots(s: string) { s != "" && forall c :: c in s ==> !IsLineEnd(c) }

  /** Does `[`, dots, `]`, white space, dots match all of s with the closing bracket at k? */
  predicate MatchesAt(s: string, k: nat) {
    && k + 1 < |s| && s[0] == '[' && k >= 1 && Dots(s[1..k])
    && s[k] == ']' && IsSpace(s[k + 1]) && Dots(s[k + 2..])
  }

  /** The first group is greedy: the last closing bracket that lets the whole pattern match. */
  function LastMatch(s: string, bound: nat): (k: Option<nat>)
    ensures k.Some? ==> k.value < bound && MatchesAt(s, k.value)
    ensures forall j: nat :: MatchesAt(s, j) && j < bound ==> k.Some? && j <= k.value
  {
    if bound == 0 then None
    else if MatchesAt(s, bound - 1) then Some(bound - 1)
    else LastMatch(s, bound - 1)
  }

  /** The key and the name, unless the name is not an encoded one and decoding throws. */
  function DecodeName(s: string): Option<(string, string)> {
    var k := LastMatch(s, |s|);
    if k.None? then None else Some((s[1..k.value], s[k.value + 2..]))
  }

  /** Somewhere in the name a closing bracket and white space are followed by more text. */
  predicate HasBracketSpace(name: string) {
    exists j :: 0 <= j && j + 2 < |name| && name[j] == ']' && IsSpace(name[j + 1])
  }

  /** The whole string is a bracketed key, one white-space character and a name, both of dots. */
  predicate IsEncoding(s: string, key: string, space: char, name: string) {
    s == "[" + key + "]" + [space] + name && Dots(key) && IsSpace(space) && Dots(name)
  }

  lemma MatchIsEncoding(s: string, k: nat)
    requires k + 1 < |s| && k >= 1
    ensures MatchesAt(s, k) <==> IsEncoding(s, s[1..k], s[k + 1], s[k + 2..])
  {
    if MatchesAt(s, k) {
      assert s == [s[0]] + s[1..k] + [s[k]] + [s[k + 1]] + s[k + 2..];
    }
    if IsEncoding(s, s[1..k], s[k + 1], s[k + 2..]) {
      assert ("[" + s[1..k] + "]" + [s[k + 1]] + s[k + 2..])[k] == ']';
    }
  }

  lemma EncodingMatches(s: string, key: string, space: char, name: string)
    requires IsEncoding(s, key, space, name)
    ensures |key| + 2 < |s| && MatchesAt(s, |key| + 1)
    ensures s[1..|key| + 1] == key && s[|key| + 3..] == name
  {
  }

  /**
   * Any string: decoding gives the longest key for which the string is an encoding, with the name that
   * follows it, and throws exactly if the string is no encoding at all.
   */
  lemma DecodeLongest(s: string, key: string, space: char, name: string)
    ensures DecodeName(s).Some? ==>
              exists c :: IsEncoding(s, DecodeName(s).value.0, c, DecodeName(s).value.1)
    ensures IsEncoding(s, key, space, name) ==> DecodeName(s).Some? && |key| <= |DecodeName(s).value.0|
  {
    var k := LastMatch(s, |s|);
    if k.Some? {
      MatchIsEncoding(s, k.value);
      assert IsEncoding(s, DecodeName(s).value.0, s[k.value + 1], DecodeName(s).value.1);
    }
    if IsEncoding(s, key, space, name) { EncodingMatches(s, key, space, name); }
  }

  lemma EncodedParts(network: Network, name: string)
    ensures var s, k := EncodeName(network, name), |network.networkKey| + 1;
            && |s| == k + 2 + |name| && s[0] == '[' && s[1..k] == network.networkKey
            && s[k] == ']' && s[k + 1] == ' ' && s[k + 2..] == name
            && forall j :: 0 <= j < |name| ==> s[k + 2 + j] == name[j]
  {
  }

  /** Decoding undoes encoding exactly for one-line keys and names without a "] " that more text follows. */
  lemma DecodeIffPlain(network: Network, name: string)
    ensures DecodeName(EncodeName(network, name)) == Some((network.networkKey, name))
            <==> Dots(network.networkKey) && Dots(name) && !HasBracketSpace(name)
  {
    var s, k := EncodeName(network, name), |network.networkKey| + 1;
    EncodedParts(network, name);
    assert MatchesAt(s, k) <==> Dots(network.networkKey) && Dots(name);
    var m := LastMatch(s, |s|);
    assert m.Some? ==> (s[1..m.value] == network.networkKey <==> m.value == k);
    if MatchesAt(s, k) {
      LaterMatches(s, k, name);
    }
  }

  lemma LaterMatches(s: string, k: nat, name: string)
    requires MatchesAt(s, k) && s[k + 1] == ' ' && s[k + 2..] == name
    ensures (exists j: nat :: j > k && MatchesAt(s, j)) <==> HasBracketSpace(name)
  {
    assert forall i :: 0 <= i < |name| ==> s[k + 2 + i] == name[i];
    if j: nat :| j > k && MatchesAt(s, j) {
      assert j != k + 1;
      var i := j - k - 2;
      assert name[i] == ']' && name[i + 1] == s[j + 1];
      assert s[j + 2..] != "";
    }
    if i :| 0 <= i && i + 2 < |name| && name[i] == ']' && IsSpace(name[i + 1]) {
      var j := k + 2 + i;
      forall c | c in s[1..j] ensures !IsLineEnd(c) {
        var p :| 1 <= p < j && s[p] == c;
        if p < k { assert c in s[1..k]; } else if p >= k + 2 { assert c in name; }
      }
      forall c | c in s[j + 2..] ensures !IsLineEnd(c) {
        var p :| j + 2 <= p < |s| && s[p] == c;
        assert s[p] == name[p - k - 2];
      }
      assert s[1..j] != "" && s[j + 2..] != "";
      assert MatchesAt(s, j);
    }
  }

  // ------------------------------------------------------------------ lookup

  predicate OccursAt(s: string, t: string, p: nat) {
    p + |t| <= |s| && forall i :: 0 <= i < |t| ==> s[p + i] == t[i]
  }

  /** String.includes */
  predicate Includes(s: string, t: string) { exists p :: 0 <= p <= |s| && OccursAt(s, t, p) }

  /** The first network whose bracketed key occurs in the name. */
  function NetworkFor(networks: seq<Network>, name: string): (r: Option<Network>)
    ensures r.Some? ==> r.value in networks && Includes(name, Bracketed(r.value.networkKey))
  {
    if networks == [] then None
    else if Includes(name, Bracketed(networks[0].networkKey)) then Some(networks[0])
    else NetworkFor(networks[1..], name)
  }

  method GetNetworkConfigFromName(networks: seq<Network>, name: string) returns (r: Option<Network>)
    ensures r == NetworkFor(networks, name)
  {
    for i := 0 to |networks|
      invariant NetworkFor(networks, name) == NetworkFor(networks[i..], name)
    {
      if Includes(name, Bracketed(networks[i].networkKey)) {
        return Some(networks[i]);
      }
      assert networks[i..][1..] == networks[i + 1..];
    }
    return None;
  }

  lemma IncludesIff(s: string, t: string)
    ensures Includes(s, t) <==> exists a, b :: s == a + t + b
  {
    if p :| 0 <= p <= |s| && OccursAt(s, t, p) {
      assert s[p..p + |t|] == t;
      assert s == s[..p] + t + s[p + |t|..];
    }
    if a, b :| s == a + t + b { assert OccursAt(s, t, |a|); }
  }

  /** The lookup returns a network exactly if some bracketed key occurs, and then the first such network. */
  lemma {:induction false} LookupFindsFirst(networks: seq<Network>, name: string)
    ensures NetworkFor(networks, name).None? <==>
              forall n :: n in networks ==> !Includes(name, "[" + n.networkKey + "]")
    ensures NetworkFor(networks, name).Some? ==>
              exists i ::
                && 0 <= i < |networks| && NetworkFor(networks, name).value == networks[i]
                && Includes(name, "[" + networks[i].networkKey + "]")
                && forall j :: 0 <= j < i ==> !Includes(name, "[" + networks[j].networkKey + "]")
  {
    hide Includes;
    if networks == [] {
    } else if Includes(name, Bracketed(networks[0].networkKey)) {
    } else {
      LookupFindsFirst(networks[1..], name);
      assert networks == [networks[0]] + networks[1..];
      if NetworkFor(networks, name).Some? {
        var i :| && 0 <= i < |networks[1..]| && NetworkFor(networks[1..], name).value == networks[1..][i]
                 && Includes(name, "[" + networks[1..][i].networkKey + "]")
                 && forall j :: 0 <= j < i ==> !Includes(name, "[" + networks[1..][j].networkKey + "]");
        assert networks[i + 1] == networks[1..][i];
        forall j | 0 <= j < i + 1 ensures !Includes(name, "[" + networks[j].networkKey + "]") {
          if j > 0 { assert networks[j] == networks[1..][j - 1]; }
        }
      }
    }
  }

  predicate BracketFree(s: string) { '[' !in s && ']' !in s }

  function IndexOfClose(s: string): nat {
    if s == "" || s[0] == ']' then 0 else 1 + IndexOfClose(s[1..])
  }

  lemma {:induction false} CloseAfter(key: string, rest: string)
    requires ']' !in key
    ensures IndexOfClose(key + "]" + rest) == |key|
  {
    var s := key + "]" + rest;
    if key != "" {
      assert s[1..] == key[1..] + "]" + rest && s[0] == key[0];
      CloseAfter(key[1..], rest);
    }
  }

  lemma StartsWith(s: string, t: string) returns (tail: string)
    requires OccursAt(s, t, 0)
    ensures s == t + tail
  {
    tail := s[|t|..];
    assert forall i :: 0 <= i < |t| ==> s[0 + i] == t[i];
  }

  /** What comes before the first closing bracket is determined by the string. */
  lemma UpToClose(a: string, rest: string, b: string, tail: string)
    requires ']' !in a && ']' !in b && a + "]" + rest == b + "]" + tail
    ensures a == b
  {
    var s := a + "]" + rest;
    CloseAfter(a, rest);
    CloseAfter(b, tail);
    assert a == s[..|a|] && b == s[..|b|];
  }

  /** A bracketed key at the start of a string is determined by the string. */
  lemma LeadingKey(own: string, rest: string, key: string)
    requires ']' !in own && ']' !in key
    requires OccursAt("[" + own + "]" + rest, Bracketed(key), 0)
    ensures own == key
  {
    hide OccursAt, IndexOfClose;
    var s := "[" + own + "]" + rest;
    var tail := StartsWith(s, Bracketed(key));
    assert s[1..] == own + "]" + rest;
    assert (Bracketed(key) + tail)[1..] == key + "]" + tail;
    UpToClose(own, rest, key, tail);
  }

  /** The only opening bracket before the plain name is the first character. */
  lemma OpeningAt(s: string, own: string, p: nat)
    requires |s| >= |own| + 3 && p < |own| + 3 && s[p] == '['
    requires BracketFree(own) && forall i :: 1 <= i <= |own| ==> s[i] == own[i - 1]
    requires s[|own| + 1] == ']' && s[|own| + 2] == ' '
    ensures p == 0
  {
  }

  lemma OccursInTail(s: string, t: string, k: nat, p: nat)
    requires k <= |s|
    ensures OccursAt(s, t, k + p) <==> OccursAt(s[k..], t, p)
  {
    if OccursAt(s, t, k + p) {
      forall i | 0 <= i < |t| ensures s[k..][p + i] == t[i] { assert s[k + p + i] == t[i]; }
    }
    if OccursAt(s[k..], t, p) {
      forall i | 0 <= i < |t| ensures s[k + p + i] == t[i] { assert s[k..][p + i] == t[i]; }
    }
  }

  lemma OccurrenceInEncoded(network: Network, name: string, key: string, p: nat)
    requires BracketFree(network.networkKey) && BracketFree(key)
    requires OccursAt(EncodeName(network, name), Bracketed(key), p)
    ensures key == network.networkKey || Includes(name, Bracketed(key))
  {
    var s, k, t, own := EncodeName(network, name), |network.networkKey| + 3, Bracketed(key), network.networkKey;
    assert s[k..] == name;
    if p >= k {
      OccursInTail(s, t, k, p - k);
    } else {
      assert s[p + 0] == t[0] == '[';
      OpeningAt(s, own, p);
      assert s == "[" + own + "]" + (" " + name);
      LeadingKey(own, " " + name, key);
    }
  }

  /** Bracket-free keys: an encoded name includes another bracketed key only if the plain name does. */
  lemma IncludesKey(network: Network, name: string, key: string)
    requires BracketFree(network.networkKey) && BracketFree(key)
    ensures Includes(EncodeName(network, name), Bracketed(key))
            <==> key == network.networkKey || Includes(name, Bracketed(key))
  {
    var s, k, t := EncodeName(network, name), |network.networkKey| + 3, Bracketed(key);
    assert s[k..] == name;
    if key == network.networkKey { assert OccursAt(s, t, 0); }
    if q :| 0 <= q <= |name| && OccursAt(name, t, q) {
      OccursInTail(s, t, k, q);
    }
    if p :| 0 <= p <= |s| && OccursAt(s, t, p) {
      OccurrenceInEncoded(network, name, key, p);
    }
  }

  predicate DistinctKeys(networks: seq<Network>) {
    forall i, j :: 0 <= i < j < |networks| ==> networks[i].networkKey != networks[j].networkKey
  }

  lemma {:induction false} FirstOfNetworks(networks: seq<Network>, i: nat, name: string)
    requires i < |networks| && DistinctKeys(networks) && Includes(name, Bracketed(networks[i].networkKey))
    ensures NetworkFor(networks, name) == Some(networks[i])
            <==> forall j :: 0 <= j < i ==> !Includes(name, Bracketed(networks[j].networkKey))
  {
    if i > 0 {
      if Includes(name, Bracketed(networks[0].networkKey)) {
        assert networks[0] != networks[i];
      } else {
        FirstOfNetworks(networks[1..], i - 1, name);
        assert forall j :: 0 < j < i ==> networks[1..][j - 1] == networks[j];
      }
    }
  }

  /**
   * For distinct bracket-free keys the lookup on an encoded name returns the network it was encoded
   * for exactly when no earlier network's bracketed key occurs in the plain name.
   */
  lemma LookupIff(networks: seq<Network>, i: nat, name: string)
    requires i < |networks| && DistinctKeys(networks) && forall n :: n in networks ==> BracketFree(n.networkKey)
    ensures NetworkFor(networks, EncodeName(networks[i], name)) == Some(networks[i])
            <==> forall j :: 0 <= j < i ==> !Includes(name, Bracketed(networks[j].networkKey))
  {
    hide EncodeName, Bracketed, Includes;
    forall j | 0 <= j <= i
      ensures Includes(EncodeName(networks[i], name), Bracketed(networks[j].networkKey))
              <==> j == i || Includes(name, Bracketed(networks[j].networkKey))
    {
      IncludesKey(networks[i], name, networks[j].networkKey);
    }
    FirstOfNetworks(networks, i, EncodeName(networks[i], name));
  }

  /** With a bracket-free plain name nothing can go wrong: decoding and lookup both return what was encoded. */
  lemma EncodedNameServes(networks: seq<Network>, i: nat, name: string)
    requires i < |networks| && DistinctKeys(networks) && forall n :: n in networks ==> BracketFree(n.networkKey)
    requires Dots(networks[i].networkKey) && Dots(name) && BracketFree(name)
    ensures DecodeName(EncodeName(networks[i], name)) == Some((networks[i].networkKey, name))
    ensures NetworkFor(networks, EncodeName(networks[i], name)) == Some(networks[i])
  {
    DecodeIffPlain(networks[i], name);
    LookupIff(networks, i, name);
    forall j | 0 <= j < i ensures !Includes(name, Bracketed(networks[j].networkKey)) {
      var t := Bracketed(networks[j].networkKey);
      forall p | 0 <= p <= |name| ensures !OccursAt(name, t, p) {
        assert t[0] == '[';
      }
    }
  }

  /** A name that ends like an encoded one decodes wrongly: the first group swallows the bracket. */
  lemma GreedyDecodingMisreads(network: Network)
    requires Dots(network.networkKey)
    ensures DecodeName(EncodeName(network, "a] b")) != Some((network.networkKey, "a] b"))
  {
    var name := "a] b";
    assert name[1] == ']' && IsSpace(name[2]);
    assert HasBracketSpace(name);
    DecodeIffPlain(network, name);
  }
}
