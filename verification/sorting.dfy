/**
 * Python's `list.sort(key=...)` on string keys: a stable sort under the
 * code-point lexicographic order of `str`. The listings sort by Dropbox's
 * `path_lower`, by the basename, or by the lower-cased basename.
 */
module Sorting {

  /** Python's `a <= b` on `str`: lexicographic by code point, a prefix first. */
  predicate Below(a: string, b: string)
    decreases |a|
  {
    a == [] || (b != [] && (a[0] < b[0] || (a[0] == b[0] && Below(a[1..], b[1..]))))
  }

  lemma {:induction false} BelowReflexive(a: string)
    ensures Below(a, a)
    decreases |a|
  {
    if a != [] { BelowReflexive(a[1..]); }
  }

  lemma {:induction false} BelowTotal(a: string, b: string)
    ensures Below(a, b) || Below(b, a)
    decreases |a|
  {
    if a != [] && b != [] && a[0] == b[0] { BelowTotal(a[1..], b[1..]); }
  }

  lemma {:induction false} BelowTransitive(a: string, b: string, c: string)
    requires Below(a, b) && Below(b, c)
    ensures Below(a, c)
    decreases |a|
  {
    if a != [] && b != [] && c != [] && a[0] == b[0] == c[0] {
      BelowTransitive(a[1..], b[1..], c[1..]);
    }
  }

  lemma {:induction false} BelowAntisymmetric(a: string, b: string)
    requires Below(a, b) && Below(b, a)
    ensures a == b
    decreases |a|
  {
    if a != [] {
      BelowAntisymmetric(a[1..], b[1..]);
      assert a == [a[0]] + a[1..] && b == [b[0]] + b[1..];
    }
  }

  /** `c.lower()` for the ASCII letters; every other character is kept. */
  function LowerChar(c: char): char
  {
    if 'A' <= c <= 'Z' then (c as int + 32) as char else c
  }

  /** `c` and `d` are the same character, or the same ASCII letter in the
      two cases. */
  predicate SameIgnoringCase(c: char, d: char)
  {
    || c == d
    || ('A' <= c <= 'Z' && d as int == c as int + 32)
    || ('A' <= d <= 'Z' && c as int == d as int + 32)
  }

  /** Two characters lower-case alike exactly when they differ at most in
      ASCII case. */
  lemma LowerCharAlike(c: char, d: char)
    ensures LowerChar(c) == LowerChar(d) <==> SameIgnoringCase(c, d)
  {
  }

  /** `s.lower()`, ASCII letters only: each character is replaced by its
      variant without an upper-case ASCII letter. */
  function Lower(s: string): (r: string)
    ensures |r| == |s|
    ensures forall i :: 0 <= i < |s| ==> !('A' <= r[i] <= 'Z')
    ensures forall i :: 0 <= i < |s| ==> SameIgnoringCase(s[i], r[i])
  {
    seq(|s|, i requires 0 <= i < |s| => LowerChar(s[i]))
  }

  /** Every key is at most every later key. */
  ghost predicate SortedBy<T>(s: seq<T>, key: T -> string)
  {
    forall i, j :: 0 <= i < j < |s| ==> Below(key(s[i]), key(s[j]))
  }

  /** The elements of `s` whose key is `k`, in their order in `s`. */
  function WithKey<T>(s: seq<T>, key: T -> string, k: string): seq<T>
  {
    if s == [] then []
    else if key(s[0]) == k then [s[0]] + WithKey(s[1..], key, k)
    else WithKey(s[1..], key, k)
  }

  /** Stability: for every key value, the elements carrying that key appear
      in the same order in `r` as in `s`. */
  ghost predicate StableFrom<T>(r: seq<T>, s: seq<T>, key: T -> string)
  {
    forall k :: WithKey(r, key, k) == WithKey(s, key, k)
  }

  /** Places `x` in front of the first element whose key is at least its
      own, so `x` precedes the elements already there with an equal key. */
  function Insert<T>(x: T, s: seq<T>, key: T -> string): (r: seq<T>)
    ensures |r| == |s| + 1
  {
    if s == [] || Below(key(x), key(s[0])) then [x] + s
    else [s[0]] + Insert(x, s[1..], key)
  }

  /** The stable sort `sorted(s, key=key)`. */
  function SortBy<T>(s: seq<T>, key: T -> string): (r: seq<T>)
    ensures |r| == |s|
  {
    if s == [] then [] else Insert(s[0], SortBy(s[1..], key), key)
  }

  lemma {:induction false} InsertMultiset<T>(x: T, s: seq<T>, key: T -> string)
    ensures multiset(Insert(x, s, key)) == multiset(s) + multiset{x}
    decreases |s|
  {
    if s != [] && !Below(key(x), key(s[0])) {
      InsertMultiset(x, s[1..], key);
      assert s == [s[0]] + s[1..];
    }
  }

  lemma {:induction false} SortByMultiset<T>(s: seq<T>, key: T -> string)
    ensures multiset(SortBy(s, key)) == multiset(s)
    decreases |s|
  {
    if s != [] {
      SortByMultiset(s[1..], key);
      InsertMultiset(s[0], SortBy(s[1..], key), key);
      assert s == [s[0]] + s[1..];
    }
  }

  lemma {:induction false} InsertSorted<T>(x: T, s: seq<T>, key: T -> string)
    requires SortedBy(s, key)
    ensures SortedBy(Insert(x, s, key), key)
    decreases |s|
  {
    var r := Insert(x, s, key);
    if s == [] {
    } else if Below(key(x), key(s[0])) {
      forall i, j | 0 <= i < j < |r| ensures Below(key(r[i]), key(r[j])) {
        if i == 0 && j > 1 {
          BelowTransitive(key(x), key(s[0]), key(s[j - 1]));
        }
      }
    } else {
      var t := Insert(x, s[1..], key);
      InsertSorted(x, s[1..], key);
      InsertMultiset(x, s[1..], key);
      BelowTotal(key(x), key(s[0]));
      forall j | 0 <= j < |t| ensures Below(key(s[0]), key(t[j])) {
        assert t[j] in multiset(t);
        assert t[j] == x || t[j] in multiset(s[1..]);
        if t[j] != x {
          var m :| 0 <= m < |s[1..]| && s[1..][m] == t[j];
          assert s[m + 1] == t[j];
        }
      }
    }
  }

  lemma {:induction false} SortBySorted<T>(s: seq<T>, key: T -> string)
    ensures SortedBy(SortBy(s, key), key)
    decreases |s|
  {
    if s != [] {
      SortBySorted(s[1..], key);
      InsertSorted(s[0], SortBy(s[1..], key), key);
    }
  }

  lemma {:induction false} WithKeyInsert<T>(x: T, s: seq<T>, key: T -> string, k: string)
    ensures WithKey(Insert(x, s, key), key, k) ==
            if key(x) == k then [x] + WithKey(s, key, k) else WithKey(s, key, k)
    decreases |s|
  {
    if s == [] || Below(key(x), key(s[0])) {
      assert ([x] + s)[1..] == s;
    } else {
      BelowReflexive(key(x));
      assert key(s[0]) != key(x);
      WithKeyInsert(x, s[1..], key, k);
      assert ([s[0]] + Insert(x, s[1..], key))[1..] == Insert(x, s[1..], key);
      if key(x) == k {
        assert WithKey(s, key, k) == WithKey(s[1..], key, k);
      }
    }
  }

  lemma {:induction false} SortByStable<T>(s: seq<T>, key: T -> string)
    ensures StableFrom(SortBy(s, key), s, key)
    decreases |s|
  {
    if s != [] {
      SortByStable(s[1..], key);
      forall k ensures WithKey(SortBy(s, key), key, k) == WithKey(s, key, k) {
        WithKeyInsert(s[0], SortBy(s[1..], key), key, k);
      }
    }
  }

  /** Two entries come out in their own order unless the second one's key
      is strictly smaller. */
  lemma SortPair<T>(x: T, y: T, key: T -> string)
    ensures SortBy([x, y], key) == if Below(key(x), key(y)) then [x, y] else [y, x]
  {
    assert [x, y][1..] == [y] && [y][1..] == [];
    assert SortBy([y], key) == [y];
    assert SortBy([x, y], key) == Insert(x, [y], key);
    assert [y] + [x] == [y, x];
  }

  /** Everything promised of `sorted(s, key=key)` at once: a permutation of
      `s`, ordered by key, and stable among equal keys. */
  lemma SortByCorrect<T>(s: seq<T>, key: T -> string)
    ensures |SortBy(s, key)| == |s|
    ensures multiset(SortBy(s, key)) == multiset(s)
    ensures SortedBy(SortBy(s, key), key)
    ensures StableFrom(SortBy(s, key), s, key)
  {
    SortByMultiset(s, key);
    SortBySorted(s, key);
    SortByStable(s, key);
  }

  /** A sorted, stable permutation is unique: these properties pin down the
      result of `sorted(s, key=key)` completely. */
  lemma {:induction false} SortedStableUnique<T>(r: seq<T>, s: seq<T>, key: T -> string)
    requires SortedBy(r, key) && StableFrom(r, s, key)
    ensures r == SortBy(s, key)
    decreases |r|
  {
    // Shown below by comparing the two sequences' key-classes.
    var t := SortBy(s, key);
    SortByCorrect(s, key);
    SortedSameClassesEqual(r, t, key);
  }

  lemma {:induction false} SortedSameClassesEqual<T>(r: seq<T>, t: seq<T>, key: T -> string)
    requires SortedBy(r, key) && SortedBy(t, key)
    requires forall k :: WithKey(r, key, k) == WithKey(t, key, k)
    ensures r == t
    decreases |r| + |t|
  {
    HeadClass(r, key);
    HeadClass(t, key);
    if r != [] && t != [] {
      var a, b := key(r[0]), key(t[0]);
      // The smaller of the two leading keys leads its class in both.
      if a != b {
        BelowTotal(a, b);
        if Below(a, b) {
          WithKeyHeadNotBelow(t, key, a);
          assert false;
        } else {
          WithKeyHeadNotBelow(r, key, b);
          assert false;
        }
      }
      assert a == b;
      forall k ensures WithKey(r[1..], key, k) == WithKey(t[1..], key, k) {
        if k == a {
          assert WithKey(r, key, k) == [r[0]] + WithKey(r[1..], key, k);
          assert WithKey(t, key, k) == [t[0]] + WithKey(t[1..], key, k);
          assert WithKey(r, key, k)[1..] == WithKey(r[1..], key, k);
          assert WithKey(t, key, k)[1..] == WithKey(t[1..], key, k);
        } else {
          assert WithKey(r, key, k) == WithKey(r[1..], key, k);
          assert WithKey(t, key, k) == WithKey(t[1..], key, k);
        }
      }
      assert WithKey(r, key, a)[0] == r[0] && WithKey(t, key, a)[0] == t[0];
      SortedTail(r, key);
      SortedTail(t, key);
      SortedSameClassesEqual(r[1..], t[1..], key);
      assert r == [r[0]] + r[1..] && t == [t[0]] + t[1..];
    }
  }

  lemma HeadClass<T>(s: seq<T>, key: T -> string)
    ensures s != [] ==> WithKey(s, key, key(s[0])) == [s[0]] + WithKey(s[1..], key, key(s[0]))
  {
  }

  lemma SortedTail<T>(s: seq<T>, key: T -> string)
    requires s != [] && SortedBy(s, key)
    ensures SortedBy(s[1..], key)
  {
    forall i, j | 0 <= i < j < |s[1..]| ensures Below(key(s[1..][i]), key(s[1..][j])) {
      assert s[1..][i] == s[i + 1] && s[1..][j] == s[j + 1];
    }
  }

  /** In a sorted sequence whose first key lies strictly above `k`, nothing
      carries key `k`. */
  lemma {:induction false} WithKeyHeadNotBelow<T>(s: seq<T>, key: T -> string, k: string)
    requires s != [] && SortedBy(s, key)
    requires Below(k, key(s[0])) && k != key(s[0])
    ensures WithKey(s, key, k) == []
    decreases |s|
  {
    if |s| > 1 {
      forall j | 0 < j < |s| ensures key(s[j]) != k {
        if key(s[j]) == k {
          BelowAntisymmetric(k, key(s[0]));
        }
      }
      WithKeyNone(s[1..], key, k);
    }
  }

  lemma {:induction false} WithKeyNone<T>(s: seq<T>, key: T -> string, k: string)
    requires forall j :: 0 <= j < |s| ==> key(s[j]) != k
    ensures WithKey(s, key, k) == []
    decreases |s|
  {
    if s != [] { WithKeyNone(s[1..], key, k); }
  }
}
