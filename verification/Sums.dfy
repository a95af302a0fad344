/** Sums over sequences, what they do not depend on, and how they split by key. */
module Sums {

  function Total<T>(s: seq<T>, f: T -> int): int {
    if s == [] then 0 else Total(s[..|s| - 1], f) + f(s[|s| - 1])
  }

  lemma TotalAppend<T>(s: seq<T>, x: T, f: T -> int)
    ensures Total(s + [x], f) == Total(s, f) + f(x)
  {
    assert (s + [x])[..|s|] == s;
  }

  lemma {:induction false} TotalConcat<T>(a: seq<T>, b: seq<T>, f: T -> int)
    ensures Total(a + b, f) == Total(a, f) + Total(b, f)
  {
    if b == [] {
      assert a + b == a;
    } else {
      assert (a + b)[..|a + b| - 1] == a + b[..|b| - 1];
      TotalConcat(a, b[..|b| - 1], f);
    }
  }

  function RemoveAt<T>(s: seq<T>, i: nat): (r: seq<T>)
    requires i < |s|
    ensures |r| == |s| - 1
  {
    s[..i] + s[i + 1..]
  }

  lemma RemoveAtMultiset<T>(s: seq<T>, i: nat)
    requires i < |s|
    ensures multiset(RemoveAt(s, i)) == multiset(s) - multiset{s[i]}
  {
    assert s == s[..i] + ([s[i]] + s[i + 1..]);
  }

  lemma {:induction false} TotalInsert<T>(a: seq<T>, x: T, b: seq<T>, f: T -> int)
    ensures Total(a + [x] + b, f) == Total(a + b, f) + f(x)
  {
    if b == [] {
      assert a + [x] + b == a + [x] && a + b == a;
      TotalAppend(a, x, f);
    } else {
      var front, last := b[..|b| - 1], b[|b| - 1];
      assert a + [x] + b == a + [x] + front + [last] && a + b == a + front + [last];
      TotalInsert(a, x, front, f);
      TotalAppend(a + [x] + front, last, f);
      TotalAppend(a + front, last, f);
    }
  }

  lemma CutAt<T>(s: seq<T>, i: nat) returns (a: seq<T>, b: seq<T>)
    requires i < |s|
    ensures s == a + [s[i]] + b && RemoveAt(s, i) == a + b
  {
    a, b := s[..i], s[i + 1..];
  }

  lemma TotalRemoveAt<T>(s: seq<T>, i: nat, f: T -> int)
    requires i < |s|
    ensures Total(s, f) == Total(RemoveAt(s, i), f) + f(s[i])
  {
    hide Total, RemoveAt;
    var a, b := CutAt(s, i);
    TotalInsert(a, s[i], b, f);
  }

  lemma TotalOne<T>(x: T, f: T -> int)
    ensures Total([x], f) == f(x)
  {
    assert [x][..0] == [];
  }

  lemma {:induction false} TotalPermute<T>(a: seq<T>, b: seq<T>, f: T -> int)
    requires multiset(a) == multiset(b)
    ensures Total(a, f) == Total(b, f)
    decreases |a|
  {
    if a == [] {
      assert |multiset(b)| == 0;
    } else {
      assert a[0] in multiset(b);
      var i :| 0 <= i < |b| && b[i] == a[0];
      RemoveAtMultiset(a, 0);
      RemoveAtMultiset(b, i);
      TotalPermute(RemoveAt(a, 0), RemoveAt(b, i), f);
      TotalRemoveAt(a, 0, f);
      TotalRemoveAt(b, i, f);
    }
  }

  lemma {:induction false} TotalSame<T>(s: seq<T>, f: T -> int, g: T -> int)
    requires forall x :: x in s ==> f(x) == g(x)
    ensures Total(s, f) == Total(s, g)
  {
    if s == [] {
    } else {
      assert s[|s| - 1] in s;
      TotalSame(s[..|s| - 1], f, g);
    }
  }

  lemma {:induction false} TotalZero<T>(s: seq<T>, f: T -> int)
    requires forall x :: x in s ==> f(x) == 0
    ensures Total(s, f) == 0
  {
    if s == [] {
    } else {
      assert s[|s| - 1] in s;
      TotalZero(s[..|s| - 1], f);
    }
  }

  lemma {:induction false} TotalAdds<T>(s: seq<T>, f: T -> int, g: T -> int, h: T -> int)
    requires forall x :: x in s ==> h(x) == f(x) + g(x)
    ensures Total(s, h) == Total(s, f) + Total(s, g)
  {
    if s == [] {
    } else {
      assert s[|s| - 1] in s;
      TotalAdds(s[..|s| - 1], f, g, h);
    }
  }

  // ---------------------------------------------------------- splitting by key

  predicate Distinct(keys: seq<string>) {
    forall i, j :: 0 <= i < j < |keys| ==> keys[i] != keys[j]
  }

  lemma DistinctAppend(keys: seq<string>, k: string)
    ensures Distinct(keys + [k]) <==> Distinct(keys) && k !in keys
  {
    var all := keys + [k];
    if Distinct(all) {
      forall i, j | 0 <= i < j < |keys| ensures keys[i] != keys[j] { assert all[i] != all[j]; }
      forall i | 0 <= i < |keys| ensures keys[i] != k { assert all[i] != all[|keys|]; }
    }
  }

  /** The first occurrence of every key, in order. */
  function Uniq(keys: seq<string>): (r: seq<string>)
    ensures forall k :: k in r <==> k in keys
    ensures Distinct(r)
  {
    if keys == [] then []
    else
      var r, last := Uniq(keys[..|keys| - 1]), keys[|keys| - 1];
      assert keys == keys[..|keys| - 1] + [last];
      if last in r then r else r + [last]
  }

  lemma UniqAppend(keys: seq<string>, k: string)
    ensures Uniq(keys + [k]) == if k in keys then Uniq(keys) else Uniq(keys) + [k]
  {
    assert (keys + [k])[..|keys|] == keys;
  }

  lemma UniqNotLonger(keys: seq<string>)
    ensures |Uniq(keys)| <= |keys|
  {
    if keys == [] {
    } else {
      UniqNotLonger(keys[..|keys| - 1]);
    }
  }

  /** Only distinct keys survive as they are. */
  lemma {:induction false} UniqUnchanged(keys: seq<string>)
    ensures Uniq(keys) == keys <==> Distinct(keys)
  {
    if keys == [] {
    } else {
      var front, last := keys[..|keys| - 1], keys[|keys| - 1];
      assert keys == front + [last];
      UniqUnchanged(front);
      UniqNotLonger(front);
      if last in front {
        var i :| 0 <= i < |front| && front[i] == last;
        assert keys[i] == keys[|front|];
      }
    }
  }

  /** The value of `x` if it belongs to the key. */
  function Part<T>(x: T, key: T -> string, val: T -> int): string -> int {
    k => if key(x) == k then val(x) else 0
  }

  function Only<T>(k: string, key: T -> string, val: T -> int): T -> int {
    x => if key(x) == k then val(x) else 0
  }

  function ByKey<T>(s: seq<T>, key: T -> string, val: T -> int): string -> int {
    k => Total(s, Only(k, key, val))
  }

  lemma {:induction false} PartTotal<T>(keys: seq<string>, x: T, key: T -> string, val: T -> int)
    requires Distinct(keys)
    ensures Total(keys, Part(x, key, val)) == if key(x) in keys then val(x) else 0
  {
    if keys == [] {
    } else {
      var front, last := keys[..|keys| - 1], keys[|keys| - 1];
      assert keys == front + [last];
      PartTotal(front, x, key, val);
    }
  }

  /** Summing per key and then over keys that occur once each and cover everything is summing directly. */
  lemma {:induction false} TotalByKey<T>(s: seq<T>, keys: seq<string>, key: T -> string, val: T -> int)
    requires Distinct(keys) && forall x :: x in s ==> key(x) in keys
    ensures Total(keys, ByKey(s, key, val)) == Total(s, val)
  {
    if s == [] {
      TotalZero(keys, ByKey(s, key, val));
    } else {
      var front, last := s[..|s| - 1], s[|s| - 1];
      assert s == front + [last] && last in s;
      TotalByKey(front, keys, key, val);
      TotalAdds(keys, ByKey(front, key, val), Part(last, key, val), ByKey(s, key, val));
      PartTotal(keys, last, key, val);
    }
  }

  lemma ByKeyAppend<T>(s: seq<T>, x: T, key: T -> string, val: T -> int, a: string)
    ensures ByKey(s + [x], key, val)(a) == ByKey(s, key, val)(a) + (if key(x) == a then val(x) else 0)
  {
    TotalAppend(s, x, Only(a, key, val));
  }

  lemma ByKeyAbsent<T>(s: seq<T>, key: T -> string, val: T -> int, a: string)
    requires forall x :: x in s ==> key(x) != a
    ensures ByKey(s, key, val)(a) == 0
  {
    TotalZero(s, Only(a, key, val));
  }
}
