/** Sequence utilities shared by the queries of the model: a stable sort by an
    integer key (the model of ORDER BY and of nearest-neighbour ranking), the
    first n of a sorted sequence, and Python's `str.split` on one character. */
module Seqs {

  /** `s` is in ascending order of `key`. */
  predicate SortedBy<T>(s: seq<T>, key: T -> int)
  {
    forall i, j :: 0 <= i < j < |s| ==> key(s[i]) <= key(s[j])
  }

  /** Every element of `s` has a key of at least `b`. */
  predicate AllAtLeast<T>(s: seq<T>, key: T -> int, b: int)
  {
    forall i :: 0 <= i < |s| ==> b <= key(s[i])
  }

  lemma MultisetBound<T>(s: seq<T>, t: seq<T>, key: T -> int, b: int)
    requires multiset(s) <= multiset(t)
    requires AllAtLeast(t, key, b)
    ensures AllAtLeast(s, key, b)
  {
    forall i | 0 <= i < |s| ensures b <= key(s[i]) {
      assert s[i] in multiset(s);
      assert s[i] in multiset(t);
      var k :| 0 <= k < |t| && t[k] == s[i];
    }
  }

  /** Inserts `x` before the first element whose key is not smaller, so that
      among equal keys the inserted element comes first. */
  function Insert<T>(x: T, s: seq<T>, key: T -> int): (r: seq<T>)
    requires SortedBy(s, key)
    ensures |r| == |s| + 1
    ensures multiset(r) == multiset(s) + multiset{x}
    ensures SortedBy(r, key)
  {
    if s == [] || key(x) <= key(s[0]) then [x] + s
    else
      var rest := Insert(x, s[1..], key);
      assert s == [s[0]] + s[1..];
      ConsSorted(s[0], s[1..], x, rest, key);
      [s[0]] + rest
  }

  /** Putting the head back in front of the tail with `x` inserted keeps the
      order, since `x` and every tail element rank no lower than the head. */
  lemma ConsSorted<T>(h: T, t: seq<T>, x: T, rest: seq<T>, key: T -> int)
    requires SortedBy([h] + t, key) && key(h) < key(x)
    requires multiset(rest) == multiset(t) + multiset{x} && SortedBy(rest, key)
    ensures SortedBy([h] + rest, key)
  {
    assert AllAtLeast(t + [x], key, key(h)) by {
      forall i | 0 <= i < |t + [x]| ensures key(h) <= key((t + [x])[i]) {
        if i < |t| {
          assert ([h] + t)[0] == h && ([h] + t)[i + 1] == t[i] == (t + [x])[i];
        } else {
          assert (t + [x])[i] == x;
        }
      }
    }
    assert multiset(t + [x]) == multiset(t) + multiset{x};
    MultisetBound(rest, t + [x], key, key(h));
    forall i, j | 0 <= i < j < |[h] + rest| ensures key(([h] + rest)[i]) <= key(([h] + rest)[j]) {
      if i == 0 { assert ([h] + rest)[j] == rest[j - 1]; }
    }
  }

  /** Stable insertion sort: ascending in `key`, elements with equal keys keep
      their original relative order. */
  function SortBy<T>(s: seq<T>, key: T -> int): (r: seq<T>)
    ensures |r| == |s|
    ensures multiset(r) == multiset(s)
    ensures SortedBy(r, key)
  {
    if s == [] then []
    else
      assert s == [s[0]] + s[1..];
      Insert(s[0], SortBy(s[1..], key), key)
  }

  function Min(a: int, b: int): int { if a < b then a else b }

  /** The first `n` elements of `s` sorted by `key` (all of them when `s` is
      shorter): the `n` smallest keys, none of the rest ranking before them. */
  function Lowest<T>(s: seq<T>, key: T -> int, n: nat): (r: seq<T>)
    ensures |r| == Min(n, |s|)
    ensures multiset(r) <= multiset(s)
    ensures SortedBy(r, key)
    ensures forall x | x in multiset(s) - multiset(r) ::
              forall j :: 0 <= j < |r| ==> key(r[j]) <= key(x)
  {
    var t := SortBy(s, key);
    PrefixOfSorted(t, key, Min(n, |t|));
    t[..Min(n, |t|)]
  }

  lemma PrefixOfSorted<T>(t: seq<T>, key: T -> int, m: nat)
    requires SortedBy(t, key) && m <= |t|
    ensures multiset(t[..m]) <= multiset(t)
    ensures forall x | x in multiset(t) - multiset(t[..m]) ::
              forall j :: 0 <= j < m ==> key(t[..m][j]) <= key(x)
  {
    assert t == t[..m] + t[m..];
    assert multiset(t) == multiset(t[..m]) + multiset(t[m..]);
    forall x | x in multiset(t) - multiset(t[..m])
      ensures forall j :: 0 <= j < m ==> key(t[..m][j]) <= key(x)
    {
      assert x in multiset(t[m..]);
      var k :| 0 <= k < |t[m..]| && t[m..][k] == x;
      assert t[m + k] == x;
    }
  }

  /** The elements of `s` satisfying `p`, in their original order. */
  function Filter<T>(s: seq<T>, p: T -> bool): (r: seq<T>)
    ensures |r| <= |s|
    ensures forall i :: 0 <= i < |r| ==> p(r[i])
    ensures multiset(r) <= multiset(s)
    ensures forall x | x in multiset(s) :: p(x) ==> multiset(r)[x] == multiset(s)[x]
  {
    if s == [] then []
    else
      assert s == [s[0]] + s[1..];
      if p(s[0]) then [s[0]] + Filter(s[1..], p) else Filter(s[1..], p)
  }

  /** `WHERE p ORDER BY key`: the elements satisfying `p`, each as often as in
      `s`, in ascending order of `key`. */
  function Select<T>(s: seq<T>, p: T -> bool, key: T -> int): (r: seq<T>)
    ensures forall i :: 0 <= i < |r| ==> p(r[i])
    ensures multiset(r) <= multiset(s)
    ensures forall x | x in multiset(s) && p(x) :: multiset(r)[x] == multiset(s)[x]
    ensures SortedBy(r, key)
  {
    var kept := Filter(s, p);
    var r := SortBy(kept, key);
    assert forall i :: 0 <= i < |r| ==> r[i] in multiset(kept);
    r
  }

  /** Python's `s.split(sep)` for a one-character separator. */
  function Split<T(==)>(s: seq<T>, sep: T): (parts: seq<seq<T>>)
    ensures |parts| >= 1
    ensures forall i :: 0 <= i < |parts| ==> sep !in parts[i]
  {
    if s == [] then [[]]
    else
      var rest := Split(s[1..], sep);
      if s[0] == sep then [[]] + rest
      else [[s[0]] + rest[0]] + rest[1..]
  }

  /** Python's `sep.join(parts)`. */
  function Join<T>(parts: seq<seq<T>>, sep: T): seq<T>
    requires |parts| >= 1
  {
    if |parts| == 1 then parts[0] else parts[0] + [sep] + Join(parts[1..], sep)
  }

  /** Splitting and joining again gives back the original sequence. */
  lemma {:induction false} JoinSplit<T>(s: seq<T>, sep: T)
    ensures Join(Split(s, sep), sep) == s
  {
    if s != [] {
      var rest := Split(s[1..], sep);
      JoinSplit(s[1..], sep);
      if s[0] == sep {
        assert Split(s, sep) == [[]] + rest;
        assert ([[]] + rest)[1..] == rest;
      } else {
        var parts := [[s[0]] + rest[0]] + rest[1..];
        assert Split(s, sep) == parts;
        if |rest| == 1 {
          assert Join(parts, sep) == [s[0]] + rest[0];
        } else {
          assert parts[1..] == rest[1..];
          assert Join(rest, sep) == rest[0] + [sep] + Join(rest[1..], sep);
          assert Join(parts, sep) == [s[0]] + rest[0] + [sep] + Join(rest[1..], sep);
        }
        assert s == [s[0]] + s[1..];
      }
    }
  }

  /** Python's `s.split(sep)[-1]`: the longest suffix of `s` without `sep`. */
  function LastField<T(==)>(s: seq<T>, sep: T): (r: seq<T>)
    ensures sep !in r
    ensures |r| <= |s| && s[|s| - |r|..] == r
    ensures |r| < |s| ==> s[|s| - |r| - 1] == sep
  {
    var parts := Split(s, sep);
    LastFieldIsSuffix(s, sep);
    parts[|parts| - 1]
  }

  lemma {:induction false} LastFieldIsSuffix<T>(s: seq<T>, sep: T)
    ensures var parts := Split(s, sep); |parts| == 1 ==> parts[0] == s
    ensures var parts := Split(s, sep); var r := parts[|parts| - 1];
      |r| <= |s| && s[|s| - |r|..] == r && (|r| < |s| ==> s[|s| - |r| - 1] == sep)
  {
    if s != [] {
      LastFieldIsSuffix(s[1..], sep);
      var rest := Split(s[1..], sep);
      if s[0] != sep && |rest| == 1 {
        SplitOneField(s, sep);
      } else {
        SplitSeveralFields(s, sep);
        var r := rest[|rest| - 1];
        DropFirstSuffix(s, r);
        if |r| == |s| - 1 {
          assert r == s[1..];
          SplitAllOneField(s[1..], sep);
        }
      }
    }
  }

  /** A first element that is not the separator joins a tail of one field. */
  lemma SplitOneField<T>(s: seq<T>, sep: T)
    requires s != [] && s[0] != sep
    requires |Split(s[1..], sep)| == 1 && Split(s[1..], sep)[0] == s[1..]
    ensures Split(s, sep) == [s]
  {
    assert s == [s[0]] + s[1..];
  }

  /** Otherwise the last field of the whole is the last field of the tail. */
  lemma SplitSeveralFields<T>(s: seq<T>, sep: T)
    requires s != [] && (s[0] == sep || |Split(s[1..], sep)| >= 2)
    ensures var parts := Split(s, sep); var rest := Split(s[1..], sep);
            |parts| >= 2 && parts[|parts| - 1] == rest[|rest| - 1]
  {
  }

  /** A suffix of the tail is a suffix of the whole sequence, one position further on. */
  lemma DropFirstSuffix<T>(s: seq<T>, r: seq<T>)
    requires s != [] && |r| <= |s| - 1 && s[1..][|s| - 1 - |r|..] == r
    ensures s[|s| - |r|..] == r
    ensures |r| < |s| - 1 ==> s[|s| - |r| - 1] == s[1..][|s| - 1 - |r| - 1]
  {
  }

  /** A sequence split into several fields had a separator in it. */
  lemma {:induction false} SplitAllOneField<T>(t: seq<T>, sep: T)
    ensures var parts := Split(t, sep); |parts| >= 2 ==> sep in t
  {
    if t != [] {
      SplitAllOneField(t[1..], sep);
    }
  }
}
