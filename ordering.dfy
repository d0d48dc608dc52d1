/**
 * The sort that keeps the published index stable: by `InternalName`, then
 * by `AssemblyVersion`, each read with `""` for a missing key, and stable
 * for manifests whose two keys are equal (as Python's `list.sort` is).
 */
module Ordering {
  import opened Json
  import opened Text

  /** Both sort keys are strings, so that Python can compare any two of them. */
  predicate HasStringKeys(m: Manifest)
  {
    GetDefault(m, "InternalName", Str("")).Str? && GetDefault(m, "AssemblyVersion", Str("")).Str?
  }

  function KeyText(v: Value): string
  {
    if v.Str? then v.s else ""
  }

  /** The sort key `(m.get("InternalName", ""), m.get("AssemblyVersion", ""))`. */
  function SortKey(m: Manifest): (string, string)
  {
    (KeyText(GetDefault(m, "InternalName", Str(""))), KeyText(GetDefault(m, "AssemblyVersion", Str(""))))
  }

  /** Python's `<` on pairs of strings: by the first component, then by the second. */
  predicate KeyLess(x: (string, string), y: (string, string))
  {
    if x.0 != y.0 then StrLess(x.0, y.0) else StrLess(x.1, y.1)
  }

  lemma KeyLessIrreflexive(x: (string, string))
    ensures !KeyLess(x, x)
  {
    StrLessIrreflexive(x.1);
  }

  lemma KeyLessTransitive(x: (string, string), y: (string, string), z: (string, string))
    requires KeyLess(x, y) && KeyLess(y, z)
    ensures KeyLess(x, z)
  {
    if x.0 != y.0 && y.0 != z.0 {
      StrLessTransitive(x.0, y.0, z.0);
      if x.0 == z.0 {
        StrLessIrreflexive(x.0);
        StrLessTransitive(x.0, y.0, x.0);
      }
    } else if x.0 == y.0 && y.0 == z.0 {
      StrLessTransitive(x.1, y.1, z.1);
    }
  }

  /** Any two different keys are ordered one way or the other. */
  lemma KeyLessTotal(x: (string, string), y: (string, string))
    ensures x == y || KeyLess(x, y) || KeyLess(y, x)
  {
    StrLessTrichotomy(x.0, y.0);
    StrLessTrichotomy(x.1, y.1);
  }

  lemma KeyLessAsymmetric(x: (string, string), y: (string, string))
    requires KeyLess(x, y)
    ensures !KeyLess(y, x)
  {
    if KeyLess(y, x) {
      KeyLessTransitive(x, y, x);
      KeyLessIrreflexive(x);
    }
  }

  /** "Not less than" is transitive, since the order is total. */
  lemma NotLessTransitive(x: (string, string), y: (string, string), z: (string, string))
    requires !KeyLess(y, x) && !KeyLess(z, y)
    ensures !KeyLess(z, x)
  {
    KeyLessTotal(x, y);
    if KeyLess(z, x) && KeyLess(x, y) {
      KeyLessTransitive(z, x, y);
    }
  }

  /** No manifest comes after one with a greater key. */
  predicate Sorted(s: seq<Manifest>)
  {
    forall i, j | 0 <= i < j < |s| :: !KeyLess(SortKey(s[j]), SortKey(s[i]))
  }

  /** Each manifest is not less than the one before it. */
  predicate AdjacentSorted(s: seq<Manifest>)
  {
    forall i | 0 < i < |s| :: !KeyLess(SortKey(s[i]), SortKey(s[i - 1]))
  }

  lemma {:induction false} AdjacentSortedIsSorted(s: seq<Manifest>)
    requires AdjacentSorted(s)
    ensures Sorted(s)
  {
    if |s| > 1 {
      var front := s[..|s| - 1];
      assert AdjacentSorted(front) by {
        forall i | 0 < i < |front|
          ensures !KeyLess(SortKey(front[i]), SortKey(front[i - 1]))
        {
          assert front[i] == s[i] && front[i - 1] == s[i - 1];
        }
      }
      AdjacentSortedIsSorted(front);
      forall i, j | 0 <= i < j < |s|
        ensures !KeyLess(SortKey(s[j]), SortKey(s[i]))
      {
        if j < |s| - 1 {
          assert front[i] == s[i] && front[j] == s[j];
        } else if i < j - 1 {
          assert front[i] == s[i] && front[j - 1] == s[j - 1];
          NotLessTransitive(SortKey(s[i]), SortKey(s[j - 1]), SortKey(s[j]));
        }
      }
    }
  }

  /** The manifests of `s` whose key is `key`, in order. */
  function WithKey(s: seq<Manifest>, key: (string, string)): (r: seq<Manifest>)
    ensures forall i | 0 <= i < |r| :: SortKey(r[i]) == key
  {
    if s == [] then []
    else (if SortKey(s[0]) == key then [s[0]] else []) + WithKey(s[1..], key)
  }

  lemma {:induction false} WithKeyAppend(s: seq<Manifest>, t: seq<Manifest>, key: (string, string))
    ensures WithKey(s + t, key) == WithKey(s, key) + WithKey(t, key)
  {
    if s == [] {
      assert s + t == t;
    } else {
      var head := if SortKey(s[0]) == key then [s[0]] else [];
      WithKeyAppend(s[1..], t, key);
      assert (s + t)[0] == s[0];
      assert (s + t)[1..] == s[1..] + t;
      assert WithKey(s + t, key) == head + WithKey(s[1..] + t, key);
      assert WithKey(s, key) == head + WithKey(s[1..], key);
      assert head + (WithKey(s[1..], key) + WithKey(t, key)) == head + WithKey(s[1..], key) + WithKey(t, key);
    }
  }

  lemma WithKeyPair(x: Manifest, y: Manifest, key: (string, string))
    requires SortKey(x) != SortKey(y)
    ensures WithKey([x, y], key) == WithKey([y, x], key)
  {
    assert [x, y][1..] == [y];
    assert [y, x][1..] == [x];
    assert [x][1..] == [] && [y][1..] == [];
  }

  /** Every key's manifests keep their order: the sort is stable. */
  ghost predicate Stable(before: seq<Manifest>, after: seq<Manifest>)
  {
    forall key :: WithKey(after, key) == WithKey(before, key)
  }

  lemma StableTransitive(s: seq<Manifest>, t: seq<Manifest>, u: seq<Manifest>)
    requires Stable(s, t) && Stable(t, u)
    ensures Stable(s, u)
  {
  }

  /** Exchanging two neighbours with different keys keeps the order within every key. */
  lemma SwapStable(s: seq<Manifest>, j: nat)
    requires 0 < j < |s|
    requires SortKey(s[j - 1]) != SortKey(s[j])
    ensures Stable(s, s[j - 1 := s[j]][j := s[j - 1]])
  {
    var t := s[j - 1 := s[j]][j := s[j - 1]];
    var front, back := s[..j - 1], s[j + 1..];
    assert s == front + [s[j - 1], s[j]] + back;
    assert t == front + [s[j], s[j - 1]] + back;
    forall key
      ensures WithKey(t, key) == WithKey(s, key)
    {
      WithKeyAppend(front + [s[j - 1], s[j]], back, key);
      WithKeyAppend(front, [s[j - 1], s[j]], key);
      WithKeyAppend(front + [s[j], s[j - 1]], back, key);
      WithKeyAppend(front, [s[j], s[j - 1]], key);
      WithKeyPair(s[j - 1], s[j], key);
    }
  }

  /** A manifest is among those of its own key. */
  lemma {:induction false} WithKeyHolds(s: seq<Manifest>, i: nat)
    requires i < |s|
    ensures s[i] in WithKey(s, SortKey(s[i]))
  {
    if i > 0 {
      WithKeyHolds(s[1..], i - 1);
    }
  }

  /** A manifest among those of a key is in the list. */
  lemma {:induction false} WithKeyFrom(s: seq<Manifest>, key: (string, string), m: Manifest)
    requires m in WithKey(s, key)
    ensures m in s
  {
    if s != [] && !(SortKey(s[0]) == key && m == s[0]) {
      WithKeyFrom(s[1..], key, m);
    }
  }

  /**
   * The sorted, stable order is unique: two sorted lists that hold the same
   * manifests for every key, in the same order, are the same list. So any
   * stable sort by this key gives exactly the output of Python's `list.sort`.
   */
  lemma {:induction false} SortedStableUnique(t: seq<Manifest>, u: seq<Manifest>)
    requires Sorted(t) && Sorted(u)
    requires forall key :: WithKey(t, key) == WithKey(u, key)
    ensures t == u
  {
    if t == [] {
      if u != [] {
        WithKeyHolds(u, 0);
        assert false;
      }
    } else if u == [] {
      WithKeyHolds(t, 0);
      assert false;
    } else {
      var kt, ku := SortKey(t[0]), SortKey(u[0]);
      if kt != ku {
        KeyLessTotal(kt, ku);
        if KeyLess(kt, ku) {
          WithKeyHolds(t, 0);
          WithKeyFrom(u, kt, t[0]);
          assert false;
        } else {
          WithKeyHolds(u, 0);
          WithKeyFrom(t, ku, u[0]);
          assert false;
        }
      }
      assert WithKey(t, kt)[0] == t[0];
      assert WithKey(u, kt)[0] == u[0];
      forall key
        ensures WithKey(t[1..], key) == WithKey(u[1..], key)
      {
        var head := if kt == key then [t[0]] else [];
        assert WithKey(t, key) == head + WithKey(t[1..], key);
        assert WithKey(u, key) == head + WithKey(u[1..], key);
        assert WithKey(t[1..], key) == WithKey(t, key)[|head|..];
        assert WithKey(u[1..], key) == WithKey(u, key)[|head|..];
      }
      assert Sorted(t[1..]) by {
        forall i, j | 0 <= i < j < |t[1..]|
          ensures !KeyLess(SortKey(t[1..][j]), SortKey(t[1..][i]))
        {
          assert t[1..][j] == t[j + 1] && t[1..][i] == t[i + 1];
        }
      }
      assert Sorted(u[1..]) by {
        forall i, j | 0 <= i < j < |u[1..]|
          ensures !KeyLess(SortKey(u[1..][j]), SortKey(u[1..][i]))
        {
          assert u[1..][j] == u[j + 1] && u[1..][i] == u[i + 1];
        }
      }
      SortedStableUnique(t[1..], u[1..]);
      assert t == [t[0]] + t[1..] && u == [u[0]] + u[1..];
    }
  }

  /**
   * `manifests.sort(key=...)`, in place. Python raises when it compares a
   * string key with a key of another type; the model asks for string keys
   * wherever a comparison can happen, that is whenever there are two
   * manifests or more.
   */
  method SortManifests(a: array<Manifest>)
    requires a.Length <= 1 || forall k | 0 <= k < a.Length :: HasStringKeys(a[k])
    modifies a
    ensures Sorted(a[..])
    ensures multiset(a[..]) == multiset(old(a[..]))
    ensures Stable(old(a[..]), a[..])
  {
    var i := 0;
    while i < a.Length
      invariant 0 <= i <= a.Length
      invariant AdjacentSorted(a[..i])
      invariant Rearranged(old(a[..]), a[..])
    {
      ghost var before := a[..];
      InsertAt(a, i);
      StableTransitive(old(a[..]), before, a[..]);
      i := i + 1;
    }
    assert a[..a.Length] == a[..];
    AdjacentSortedIsSorted(a[..]);
  }

  /** `s` with its neighbours at `j - 1` and `j` exchanged. */
  function Swapped(s: seq<Manifest>, j: nat): (r: seq<Manifest>)
    requires 0 < j < |s|
    ensures multiset(r) == multiset(s)
  {
    s[j - 1 := s[j]][j := s[j - 1]]
  }

  /**
   * While the manifest that started at `i` sits at `j`: everything before
   * it and everything from it to `i` is in order, and the neighbours around
   * it are in order with each other.
   */
  predicate Inserting(s: seq<Manifest>, i: nat, j: nat)
  {
    && j <= i < |s|
    && AdjacentSorted(s[..j]) && AdjacentSorted(s[j..i + 1])
    && (0 < j < i ==> !KeyLess(SortKey(s[j + 1]), SortKey(s[j - 1])))
  }

  lemma SwapKeepsInserting(s: seq<Manifest>, i: nat, j: nat)
    requires Inserting(s, i, j) && j > 0
    requires KeyLess(SortKey(s[j]), SortKey(s[j - 1]))
    ensures Inserting(Swapped(s, j), i, j - 1)
    ensures Stable(s, Swapped(s, j))
  {
    var t := Swapped(s, j);
    KeyLessIrreflexive(SortKey(s[j]));
    KeyLessAsymmetric(SortKey(s[j]), SortKey(s[j - 1]));
    SwapStable(s, j);
    var left, right := t[..j - 1], t[j - 1..i + 1];
    assert AdjacentSorted(left) by {
      forall k | 0 < k < |left|
        ensures !KeyLess(SortKey(left[k]), SortKey(left[k - 1]))
      {
        assert s[..j][k] == s[k] && s[..j][k - 1] == s[k - 1];
      }
    }
    assert AdjacentSorted(right) by {
      forall k | 0 < k < |right|
        ensures !KeyLess(SortKey(right[k]), SortKey(right[k - 1]))
      {
        if k > 2 {
          assert s[j..i + 1][k - 1] == s[j + k - 1] && s[j..i + 1][k - 2] == s[j + k - 2];
        } else if k == 2 {
          assert j < i;
        }
      }
    }
    if 0 < j - 1 < i {
      assert s[..j][j - 1] == s[j - 1] && s[..j][j - 2] == s[j - 2];
    }
  }

  lemma InsertingDone(s: seq<Manifest>, i: nat, j: nat)
    requires Inserting(s, i, j)
    requires j == 0 || !KeyLess(SortKey(s[j]), SortKey(s[j - 1]))
    ensures AdjacentSorted(s[..i + 1])
  {
    var prefix := s[..i + 1];
    forall k | 0 < k < |prefix|
      ensures !KeyLess(SortKey(prefix[k]), SortKey(prefix[k - 1]))
    {
      if k < j {
        assert s[..j][k] == s[k] && s[..j][k - 1] == s[k - 1];
      } else if k > j {
        assert s[j..i + 1][k - j] == s[k] && s[j..i + 1][k - j - 1] == s[k - 1];
      }
    }
  }

  /**
   * One step of insertion sort: the manifest at `i` moves left past every
   * manifest with a greater key, and stops at the first one that is not
   * greater, so equal keys keep their order.
   */
  method InsertAt(a: array<Manifest>, i: nat)
    requires i < a.Length && AdjacentSorted(a[..i])
    modifies a
    ensures AdjacentSorted(a[..i + 1])
    ensures Rearranged(old(a[..]), a[..])
    ensures a[i + 1..] == old(a[i + 1..])
  {
    var j: nat := i;
    assert a[i..i + 1] == [a[i]];
    while j > 0 && KeyLess(SortKey(a[j]), SortKey(a[j - 1]))
      invariant Inserting(a[..], i, j)
      invariant Rearranged(old(a[..]), a[..])
      invariant a[i + 1..] == old(a[i + 1..])
    {
      SwapRearranges(old(a[..]), a[..], i, j);
      Swap(a, j);
      j := j - 1;
    }
    InsertingDone(a[..], i, j);
  }

  /** Exchanges the neighbours at `j - 1` and `j`. */
  method Swap(a: array<Manifest>, j: nat)
    requires 0 < j < a.Length
    modifies a
    ensures a[..] == Swapped(old(a[..]), j)
  {
    a[j - 1], a[j] := a[j], a[j - 1];
  }

  /** `after` holds the manifests of `before`, each key's in their original order. */
  ghost predicate Rearranged(before: seq<Manifest>, after: seq<Manifest>)
  {
    multiset(after) == multiset(before) && Stable(before, after)
  }

  lemma SwapRearranges(original: seq<Manifest>, s: seq<Manifest>, i: nat, j: nat)
    requires Inserting(s, i, j) && j > 0
    requires KeyLess(SortKey(s[j]), SortKey(s[j - 1]))
    requires Rearranged(original, s)
    ensures Inserting(Swapped(s, j), i, j - 1)
    ensures Rearranged(original, Swapped(s, j))
  {
    SwapKeepsInserting(s, i, j);
    StableTransitive(original, s, Swapped(s, j));
  }
}
