/** `puzzles.sort(key=lambda x: x.get("Themes", ""))`: Python's list sort
    is stable, so the result is the one ordering of the list that is
    non-decreasing by key and keeps items with equal keys in their original
    order. The sort is defined here, for any string-valued key, by insertion
    and then shown to be exactly that ordering; `ThemeKey` is the key the
    script passes. */
module ThemeSort {
  import opened Text
  import opened Bucketing

  const ThemesField: string := "Themes"

  /** The sort key of the script: the `Themes` field, or `""` when the
      record has none. */
  function ThemeKey(p: Record): string {
    Get(p, ThemesField, "")
  }

  /** Non-decreasing by key, in code-point order. */
  predicate Sorted<T>(s: seq<T>, key: T -> string) {
    forall i, j :: 0 <= i < j < |s| ==> StrLe(key(s[i]), key(s[j]))
  }

  /** The items of `s` whose key is `k`, in their order in `s`. */
  function WithKey<T>(s: seq<T>, key: T -> string, k: string): seq<T> {
    if s == [] then [] else (if key(s[0]) == k then [s[0]] else []) + WithKey(s[1..], key, k)
  }

  /** Places `x` in front of the first item whose key is not below its
      own. */
  function Insert<T>(x: T, t: seq<T>, key: T -> string): (r: seq<T>)
    ensures multiset(r) == multiset(t) + multiset{x}
  {
    if t == [] || StrLe(key(x), key(t[0])) then [x] + t
    else
      assert t == [t[0]] + t[1..];
      [t[0]] + Insert(x, t[1..], key)
  }

  lemma SortedTail<T>(t: seq<T>, key: T -> string)
    requires t != [] && Sorted(t, key)
    ensures Sorted(t[1..], key)
  {
    forall i, j | 0 <= i < j < |t| - 1 ensures StrLe(key(t[1..][i]), key(t[1..][j])) {
      assert t[1..][i] == t[i + 1] && t[1..][j] == t[j + 1];
    }
  }

  /** A sorted list stays sorted when an item whose key is at most every
      key of the list is put in front of it. */
  lemma SortedCons<T>(h: T, t: seq<T>, key: T -> string)
    requires Sorted(t, key)
    requires forall j :: 0 <= j < |t| ==> StrLe(key(h), key(t[j]))
    ensures Sorted([h] + t, key)
  {
    var r := [h] + t;
    forall i, j | 0 <= i < j < |r| ensures StrLe(key(r[i]), key(r[j])) {
      assert r[j] == t[j - 1];
      if i > 0 {
        assert r[i] == t[i - 1];
      }
    }
  }

  /** A lower bound on the keys of `x` and of every item of `t` bounds the
      keys of every item after insertion. */
  lemma InsertLowerBound<T>(x: T, t: seq<T>, key: T -> string, lo: string)
    requires StrLe(lo, key(x))
    requires forall j :: 0 <= j < |t| ==> StrLe(lo, key(t[j]))
    ensures forall j :: 0 <= j < |Insert(x, t, key)| ==> StrLe(lo, key(Insert(x, t, key)[j]))
  {
    var r := Insert(x, t, key);
    forall j | 0 <= j < |r| ensures StrLe(lo, key(r[j])) {
      assert r[j] in multiset(r);
      if r[j] != x {
        assert r[j] in multiset(t);
        var i :| 0 <= i < |t| && t[i] == r[j];
      }
    }
  }

  /** Inserting into a sorted list keeps it sorted. */
  lemma {:induction false} InsertSorted<T>(x: T, t: seq<T>, key: T -> string)
    requires Sorted(t, key)
    ensures Sorted(Insert(x, t, key), key)
    decreases |t|
  {
    if t == [] || StrLe(key(x), key(t[0])) {
      forall j | 0 <= j < |t| ensures StrLe(key(x), key(t[j])) {
        if j > 0 {
          StrLeTransitive(key(x), key(t[0]), key(t[j]));
        }
      }
      SortedCons(x, t, key);
    } else {
      StrLeTotal(key(x), key(t[0]));
      SortedTail(t, key);
      InsertSorted(x, t[1..], key);
      forall j | 0 <= j < |t[1..]| ensures StrLe(key(t[0]), key(t[1..][j])) {
        assert t[1..][j] == t[j + 1];
      }
      InsertLowerBound(x, t[1..], key, key(t[0]));
      SortedCons(t[0], Insert(x, t[1..], key), key);
    }
  }

  /** The stable sort by key: a sorted permutation of its input. */
  function SortByKey<T>(s: seq<T>, key: T -> string): (r: seq<T>)
    ensures Sorted(r, key)
    ensures multiset(r) == multiset(s)
  {
    if s == [] then []
    else
      assert s == [s[0]] + s[1..];
      InsertSorted(s[0], SortByKey(s[1..], key), key);
      Insert(s[0], SortByKey(s[1..], key), key)
  }

  lemma {:induction false} WithKeyInsert<T>(x: T, t: seq<T>, key: T -> string, k: string)
    ensures WithKey(Insert(x, t, key), key, k) ==
            if key(x) == k then [x] + WithKey(t, key, k) else WithKey(t, key, k)
    decreases |t|
  {
    if t == [] || StrLe(key(x), key(t[0])) {
      assert ([x] + t)[1..] == t;
    } else {
      StrLeReflexive(key(x));
      assert key(t[0]) != key(x);
      WithKeyInsert(x, t[1..], key, k);
      assert ([t[0]] + Insert(x, t[1..], key))[1..] == Insert(x, t[1..], key);
    }
  }

  /** Stability: for every key, the items with that key appear in the
      sorted list in the same order as in the input. */
  lemma {:induction false} SortStable<T>(s: seq<T>, key: T -> string, k: string)
    ensures WithKey(SortByKey(s, key), key, k) == WithKey(s, key, k)
    decreases |s|
  {
    if s != [] {
      SortStable(s[1..], key, k);
      WithKeyInsert(s[0], SortByKey(s[1..], key), key, k);
    }
  }

  lemma {:induction false} WithKeyMember<T>(s: seq<T>, key: T -> string, k: string, x: T)
    requires x in WithKey(s, key, k)
    ensures x in s && key(x) == k
    decreases |s|
  {
    if x != s[0] || key(s[0]) != k {
      WithKeyMember(s[1..], key, k, x);
    }
  }

  lemma HeadHasKey<T>(s: seq<T>, key: T -> string)
    requires s != []
    ensures WithKey(s, key, key(s[0])) == [s[0]] + WithKey(s[1..], key, key(s[0]))
  {
  }

  /** In a sorted list, the key of the head is at most the key of any item
      of the list. */
  lemma HeadLeast<T>(t: seq<T>, key: T -> string, x: T)
    requires t != [] && Sorted(t, key) && x in t
    ensures StrLe(key(t[0]), key(x))
  {
    var j :| 0 <= j < |t| && t[j] == x;
    if j == 0 {
      StrLeReflexive(key(x));
    }
  }

  /** Two lists that are both sorted by key and agree, key by key, on
      which items appear in which order, are the same list. */
  lemma {:induction false} SortedAgreeingEqual<T>(t: seq<T>, u: seq<T>, key: T -> string)
    requires Sorted(t, key) && Sorted(u, key)
    requires forall k :: WithKey(t, key, k) == WithKey(u, key, k)
    ensures t == u
    decreases |t|
  {
    if t != [] {
      HeadHasKey(t, key);
    }
    if u != [] {
      HeadHasKey(u, key);
    }
    if t != [] && u != [] {
      var a, b := key(t[0]), key(u[0]);
      assert t[0] in WithKey(u, key, a);
      WithKeyMember(u, key, a, t[0]);
      HeadLeast(u, key, t[0]);
      assert u[0] in WithKey(t, key, b);
      WithKeyMember(t, key, b, u[0]);
      HeadLeast(t, key, u[0]);
      StrLeAntisymmetric(a, b);
      assert t[0] == u[0] by {
        assert WithKey(t, key, a)[0] == t[0];
        assert WithKey(u, key, a)[0] == u[0];
      }
      forall k ensures WithKey(t[1..], key, k) == WithKey(u[1..], key, k) {
        assert WithKey(t, key, k) == WithKey(u, key, k);
        if k == a {
          assert WithKey(t[1..], key, k) == WithKey(t, key, k)[1..];
          assert WithKey(u[1..], key, k) == WithKey(u, key, k)[1..];
        } else {
          assert WithKey(t, key, k) == WithKey(t[1..], key, k);
          assert WithKey(u, key, k) == WithKey(u[1..], key, k);
        }
      }
      SortedTail(t, key);
      SortedTail(u, key);
      SortedAgreeingEqual(t[1..], u[1..], key);
      assert t == [t[0]] + t[1..] && u == [u[0]] + u[1..];
    }
  }

  /** `SortByKey` is the stable sort: a list is its result exactly when the
      list is sorted by key and keeps, for every key, the input's items with
      that key in the input's order. Any stable sorting algorithm, Python's
      included, therefore gives the same list. */
  lemma StableSortUnique<T>(s: seq<T>, t: seq<T>, key: T -> string)
    ensures t == SortByKey(s, key) ==>
              Sorted(t, key) && forall k :: WithKey(t, key, k) == WithKey(s, key, k)
    ensures Sorted(t, key) && (forall k :: WithKey(t, key, k) == WithKey(s, key, k)) ==>
              t == SortByKey(s, key)
  {
    var r := SortByKey(s, key);
    forall k ensures WithKey(r, key, k) == WithKey(s, key, k) {
      SortStable(s, key, k);
    }
    if Sorted(t, key) && forall k :: WithKey(t, key, k) == WithKey(s, key, k) {
      forall k ensures WithKey(t, key, k) == WithKey(r, key, k) {
        assert WithKey(t, key, k) == WithKey(s, key, k);
      }
      SortedAgreeingEqual(t, r, key);
    }
  }
}
