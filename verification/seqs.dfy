/**
  Sequence operations that the blog pipeline is built from: `Array.prototype.filter`
  and the stable `Array.prototype.sort` with a numeric comparator `(a, b) => key(b) - key(a)`.
*/
module Seqs {

  /** `a` can be obtained from `b` by deleting elements: it keeps `b`'s order. */
  predicate IsSubseq<T(==)>(a: seq<T>, b: seq<T>)
    decreases |b|
  {
    if a == [] then true
    else if b == [] then false
    else (a[0] == b[0] && IsSubseq(a[1..], b[1..])) || IsSubseq(a, b[1..])
  }

  /** A subsequence of a subsequence of `c` is a subsequence of `c`. */
  lemma {:induction false} IsSubseqTrans<T>(a: seq<T>, b: seq<T>, c: seq<T>)
    requires IsSubseq(a, b) && IsSubseq(b, c)
    ensures IsSubseq(a, c)
    decreases |c|
  {
    if a == [] {
    } else if b[0] == c[0] && IsSubseq(b[1..], c[1..]) {
      if a[0] == b[0] && IsSubseq(a[1..], b[1..]) {
        IsSubseqTrans(a[1..], b[1..], c[1..]);
      } else {
        IsSubseqTrans(a, b[1..], c[1..]);
      }
    } else {
      IsSubseqTrans(a, b, c[1..]);
    }
  }

  /** `Array.prototype.filter`: the elements satisfying `f`, each as often as in `s`, in `s`'s order. */
  function Filter<T(==,!new)>(f: T -> bool, s: seq<T>): (r: seq<T>)
    ensures |r| <= |s|
    ensures forall x {:trigger multiset(r)[x]} :: multiset(r)[x] == if f(x) then multiset(s)[x] else 0
    ensures forall x :: x in r ==> x in s && f(x)
    ensures IsSubseq(r, s)
  {
    if s == [] then []
    else
      var rest := Filter(f, s[1..]);
      assert s == [s[0]] + s[1..];
      assert multiset(s) == multiset{s[0]} + multiset(s[1..]);
      if f(s[0]) then
        assert ([s[0]] + rest)[1..] == rest;
        [s[0]] + rest
      else
        rest
  }

  /** Filtering with a predicate every element satisfies changes nothing. */
  lemma {:induction false} FilterAll<T(!new)>(f: T -> bool, s: seq<T>)
    requires forall x :: x in s ==> f(x)
    ensures Filter(f, s) == s
  {
    if s != [] {
      FilterAll(f, s[1..]);
    }
  }

  /** Two predicates that agree on the elements of `s` filter it alike. */
  lemma {:induction false} FilterCongruent<T(!new)>(f: T -> bool, g: T -> bool, s: seq<T>)
    requires forall x :: x in s ==> f(x) == g(x)
    ensures Filter(f, s) == Filter(g, s)
  {
    if s != [] {
      FilterCongruent(f, g, s[1..]);
    }
  }

  /** Filtering twice is filtering once with both predicates. */
  lemma {:induction false} FilterFilter<T(!new)>(f: T -> bool, g: T -> bool, h: T -> bool, s: seq<T>)
    requires forall x :: x in s ==> h(x) == (f(x) && g(x))
    ensures Filter(g, Filter(f, s)) == Filter(h, s)
  {
    if s != [] {
      FilterFilter(f, g, h, s[1..]);
      if f(s[0]) {
        assert ([s[0]] + Filter(f, s[1..]))[1..] == Filter(f, s[1..]);
      }
    }
  }

  lemma ConcatOne<T>(a: seq<T>, x: T, b: seq<T>)
    ensures a + ([x] + b) == (a + [x]) + b
  {
  }

  /** The elements of `s` whose key is `d`, in `s`'s order: one equivalence class of a sort. */
  function KeyClass<T>(s: seq<T>, key: T -> int, d: int): (r: seq<T>)
  {
    if s == [] then []
    else (if key(s[0]) == d then [s[0]] else []) + KeyClass(s[1..], key, d)
  }

  predicate SortedDesc<T>(s: seq<T>, key: T -> int)
  {
    forall i, j :: 0 <= i < j < |s| ==> key(s[i]) >= key(s[j])
  }

  /** Inserts `x` in front of the first element whose key is not above `x`'s. */
  function InsertDesc<T>(x: T, s: seq<T>, key: T -> int): (r: seq<T>)
    ensures |r| == |s| + 1
    ensures multiset(r) == multiset(s) + multiset{x}
    ensures r[0] == x || (s != [] && r[0] == s[0])
    ensures SortedDesc(s, key) ==> SortedDesc(r, key)
  {
    if s == [] || key(s[0]) <= key(x) then [x] + s
    else
      var rest := InsertDesc(x, s[1..], key);
      InsertDescStep(x, s, rest, key);
      [s[0]] + rest
  }

  lemma InsertDescStep<T>(x: T, s: seq<T>, rest: seq<T>, key: T -> int)
    requires s != [] && key(s[0]) > key(x)
    requires multiset(rest) == multiset(s[1..]) + multiset{x}
    requires SortedDesc(s[1..], key) ==> SortedDesc(rest, key)
    ensures multiset([s[0]] + rest) == multiset(s) + multiset{x}
    ensures SortedDesc(s, key) ==> SortedDesc([s[0]] + rest, key)
  {
    assert s == [s[0]] + s[1..];
    if SortedDesc(s, key) {
      var r := [s[0]] + rest;
      forall i, j | 0 <= i < j < |r| ensures key(r[i]) >= key(r[j]) {
        if i == 0 {
          var y := r[j];
          assert y in multiset(rest) by { assert rest[j - 1] == y; }
          if y != x {
            assert y in multiset(s[1..]);
            var k :| 0 <= k < |s[1..]| && s[1..][k] == y;
            assert s[k + 1] == y;
          }
        } else {
          assert r[i] == rest[i - 1] && r[j] == rest[j - 1];
        }
      }
    }
  }

  /**
    The stable sort `s.sort((a, b) => key(b) - key(a))`: a permutation of `s`,
    non-increasing in `key`; SortDescStable states that it keeps ties in order.
  */
  function SortDesc<T>(s: seq<T>, key: T -> int): (r: seq<T>)
    ensures |r| == |s|
    ensures multiset(r) == multiset(s)
    ensures SortedDesc(r, key)
  {
    if s == [] then []
    else
      assert s == [s[0]] + s[1..];
      InsertDesc(s[0], SortDesc(s[1..], key), key)
  }

  lemma {:induction false} InsertDescClass<T>(x: T, s: seq<T>, key: T -> int, d: int)
    ensures KeyClass(InsertDesc(x, s, key), key, d) == (if key(x) == d then [x] else []) + KeyClass(s, key, d)
  {
    if s == [] || key(s[0]) <= key(x) {
      KeyClassCons(x, s, key, d);
    } else {
      var rest := InsertDesc(x, s[1..], key);
      InsertDescClass(x, s[1..], key, d);
      InsertDescClassStep(x, s, key, d, rest, InsertDesc(x, s, key));
    }
  }

  /** Passing over `s[0]`, whose key is above `x`'s, adds `s[0]` to its class on both sides. */
  lemma InsertDescClassStep<T>(x: T, s: seq<T>, key: T -> int, d: int, rest: seq<T>, r: seq<T>)
    requires s != [] && key(s[0]) > key(x)
    requires r == [s[0]] + rest
    requires KeyClass(rest, key, d) == (if key(x) == d then [x] else []) + KeyClass(s[1..], key, d)
    ensures KeyClass(r, key, d) == (if key(x) == d then [x] else []) + KeyClass(s, key, d)
  {
    KeyClassCons(s[0], rest, key, d);
    if key(s[0]) == d {
      assert KeyClass(r, key, d) == [s[0]] + KeyClass(s[1..], key, d);
    } else {
      assert KeyClass(r, key, d) == KeyClass(rest, key, d);
    }
  }

  lemma KeyClassCons<T>(y: T, t: seq<T>, key: T -> int, d: int)
    ensures KeyClass([y] + t, key, d) == (if key(y) == d then [y] else []) + KeyClass(t, key, d)
  {
    assert ([y] + t)[1..] == t;
  }

  /** Stability: for every key, the elements with that key come out in their input order. */
  lemma {:induction false} SortDescStable<T>(s: seq<T>, key: T -> int, d: int)
    ensures KeyClass(SortDesc(s, key), key, d) == KeyClass(s, key, d)
  {
    if s != [] {
      SortDescStable(s[1..], key, d);
      InsertDescClass(s[0], SortDesc(s[1..], key), key, d);
    }
  }

  lemma SortDescStableAll<T>(s: seq<T>, key: T -> int)
    ensures forall d {:trigger KeyClass(SortDesc(s, key), key, d)} ::
      KeyClass(SortDesc(s, key), key, d) == KeyClass(s, key, d)
  {
    forall d {
      SortDescStable(s, key, d);
    }
  }

  /** The key classes of a prefix are prefixes of the key classes. */
  lemma {:induction false} KeyClassPrefix<T>(s: seq<T>, n: nat, key: T -> int, d: int)
    requires n <= |s|
    ensures KeyClass(s[..n], key, d) <= KeyClass(s, key, d)
  {
    if n > 0 {
      assert s[..n][1..] == s[1..][..n - 1];
      KeyClassPrefix(s[1..], n - 1, key, d);
    }
  }

  /** A prefix of a sorted sequence is sorted. */
  lemma SortedDescPrefix<T>(s: seq<T>, n: nat, key: T -> int)
    requires SortedDesc(s, key) && n <= |s|
    ensures SortedDesc(s[..n], key)
  {
    forall i, j | 0 <= i < j < n ensures key(s[..n][i]) >= key(s[..n][j]) {
      assert s[..n][i] == s[i] && s[..n][j] == s[j];
    }
  }

  /**
    Cutting a sorted sequence keeps its top: an occurrence of `x` cut off means the prefix is
    shorter than `s`, and every element of the prefix has a key at least `x`'s.
  */
  lemma SortedDescTop<T>(s: seq<T>, n: nat, key: T -> int, x: T)
    requires SortedDesc(s, key) && n <= |s|
    requires multiset(s[..n])[x] < multiset(s)[x]
    ensures n < |s|
    ensures forall y :: y in s[..n] ==> key(y) >= key(x)
  {
    assert s == s[..n] + s[n..];
    assert multiset(s) == multiset(s[..n]) + multiset(s[n..]);
    assert x in multiset(s[n..]);
    var k :| 0 <= k < |s[n..]| && s[n..][k] == x;
    assert s[n + k] == x;
    forall y | y in s[..n] ensures key(y) >= key(x) {
      var i :| 0 <= i < n && s[..n][i] == y;
      assert s[i] == y;
    }
  }

  /** `Array.prototype.slice(0, end)`: the end index after clamping, negative counting from the back. */
  function SliceEnd(len: nat, end: int): (k: nat)
    ensures k <= len
    ensures end >= 0 ==> k == if end < len then end else len
    ensures end < 0 ==> k == if len + end > 0 then len + end else 0
  {
    if end < 0 then (if len + end > 0 then len + end else 0)
    else if end < len then end
    else len
  }

  predicate Distinct<T(==)>(s: seq<T>)
  {
    forall i, j :: 0 <= i < j < |s| ==> s[i] != s[j]
  }

  lemma {:induction false} DistinctMultiset<T(!new)>(s: seq<T>)
    ensures Distinct(s) <==> forall x {:trigger multiset(s)[x]} :: multiset(s)[x] <= 1
  {
    if s != [] {
      DistinctMultiset(s[1..]);
      assert s == [s[0]] + s[1..];
      if Distinct(s) {
        assert Distinct(s[1..]) by {
          forall i, j | 0 <= i < j < |s[1..]| ensures s[1..][i] != s[1..][j] {
            assert s[1..][i] == s[i + 1] && s[1..][j] == s[j + 1];
          }
        }
        assert s[0] !in s[1..];
      } else {
        var i, j :| 0 <= i < j < |s| && s[i] == s[j];
        if i == 0 {
          assert s[1..][j - 1] == s[0];
          assert multiset(s)[s[0]] >= 2;
        } else {
          assert s[1..][i - 1] == s[1..][j - 1];
          assert !Distinct(s[1..]);
          var x :| multiset(s[1..])[x] > 1;
          assert multiset(s)[x] > 1;
        }
      }
    }
  }

  /** A permutation of a sequence without repetitions has none either. */
  lemma DistinctPermutation<T(!new)>(a: seq<T>, b: seq<T>)
    requires multiset(a) == multiset(b) && Distinct(a)
    ensures Distinct(b)
  {
    DistinctMultiset(a);
    DistinctMultiset(b);
  }
}
