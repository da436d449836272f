/** `dataset_samples.sort(key=lambda x: (x[3], x[2]))`: a stable sort of the gallery
    samples by the pair (feature, name) under Python's tuple and string order. */
module StableSort {
  import opened StringOrder
  import opened StyleEntries

  /** The sort key `(x[3], x[2])`. */
  datatype SortKey = SortKey(feature: string, name: string)

  function KeyOf(s: Sample): SortKey
  {
    SortKey(s.feature, s.name)
  }

  /** Python's `<=` on 2-tuples of strings: the first components decide unless equal. */
  predicate KeyLe(x: SortKey, y: SortKey)
  {
    Lt(x.feature, y.feature) || (x.feature == y.feature && Le(x.name, y.name))
  }

  lemma KeyLeReflexive(x: SortKey)
    ensures KeyLe(x, x)
  {
    LeReflexive(x.name);
  }

  lemma KeyLeTotal(x: SortKey, y: SortKey)
    ensures KeyLe(x, y) || KeyLe(y, x)
  {
    LeTotal(x.feature, y.feature);
    LeTotal(x.name, y.name);
  }

  lemma KeyLeAntisymmetric(x: SortKey, y: SortKey)
    requires KeyLe(x, y) && KeyLe(y, x)
    ensures x == y
  {
    if x.feature != y.feature {
      LeAntisymmetric(x.feature, y.feature);
    } else {
      LeAntisymmetric(x.name, y.name);
    }
  }

  lemma KeyLeTransitive(x: SortKey, y: SortKey, z: SortKey)
    requires KeyLe(x, y) && KeyLe(y, z)
    ensures KeyLe(x, z)
  {
    if x.feature == y.feature && y.feature == z.feature {
      LeTransitive(x.name, y.name, z.name);
    } else if x.feature == y.feature {
      assert Lt(y.feature, z.feature);
    } else if y.feature == z.feature {
      assert Lt(x.feature, y.feature);
    } else {
      LtLeTransitive(x.feature, y.feature, z.feature);
    }
  }

  /** Every pair of samples, not only neighbours, is in key order. */
  predicate Sorted(s: seq<Sample>)
  {
    forall i, j :: 0 <= i < j < |s| ==> KeyLe(KeyOf(s[i]), KeyOf(s[j]))
  }

  /** The samples of `s` whose key is `k`, in their order in `s`. */
  function WithKey(s: seq<Sample>, k: SortKey): (r: seq<Sample>)
    ensures forall x :: x in r <==> x in s && KeyOf(x) == k
    ensures |r| <= |s|
    decreases |s|
  {
    if |s| == 0 then [] else (if KeyOf(s[0]) == k then [s[0]] else []) + WithKey(s[1..], k)
  }

  /** Places `x` in front of the first element whose key is not below its own. */
  function Insert(x: Sample, t: seq<Sample>): (r: seq<Sample>)
    ensures multiset(r) == multiset(t) + multiset{x}
    decreases |t|
  {
    if |t| == 0 then [x]
    else if KeyLe(KeyOf(x), KeyOf(t[0])) then [x] + t
    else
      assert t == [t[0]] + t[1..];
      [t[0]] + Insert(x, t[1..])
  }

  /** An element of an insertion result is the inserted sample or came from the sequence. */
  lemma InsertMember(x: Sample, t: seq<Sample>, y: Sample)
    requires y in Insert(x, t)
    ensures y == x || y in t
  {
    assert y in multiset(Insert(x, t));
  }

  lemma {:induction false} InsertSorted(x: Sample, t: seq<Sample>)
    requires Sorted(t)
    ensures Sorted(Insert(x, t))
    decreases |t|
  {
    if |t| == 0 {
    } else if KeyLe(KeyOf(x), KeyOf(t[0])) {
      var r := [x] + t;
      forall i, j | 0 <= i < j < |r| ensures KeyLe(KeyOf(r[i]), KeyOf(r[j])) {
        if i == 0 && j > 1 {
          KeyLeTransitive(KeyOf(x), KeyOf(t[0]), KeyOf(t[j - 1]));
        }
      }
    } else {
      KeyLeTotal(KeyOf(x), KeyOf(t[0]));
      InsertSorted(x, t[1..]);
      var rest := Insert(x, t[1..]);
      var r := [t[0]] + rest;
      forall i, j | 0 <= i < j < |r| ensures KeyLe(KeyOf(r[i]), KeyOf(r[j])) {
        if i == 0 {
          var y := rest[j - 1];
          InsertMember(x, t[1..], y);
          if y != x {
            var m :| 0 <= m < |t[1..]| && t[1..][m] == y;
            assert t[m + 1] == y;
          }
        } else {
          assert r[i] == rest[i - 1] && r[j] == rest[j - 1];
        }
      }
    }
  }

  /** Inserting `x` adds it in front of the equal-keyed samples and leaves every other
      key's samples as they were. */
  lemma {:induction false} InsertWithKey(x: Sample, t: seq<Sample>, k: SortKey)
    ensures WithKey(Insert(x, t), k) == if KeyOf(x) == k then [x] + WithKey(t, k) else WithKey(t, k)
    decreases |t|
  {
    if |t| == 0 {
    } else if KeyLe(KeyOf(x), KeyOf(t[0])) {
      assert ([x] + t)[1..] == t;
    } else {
      KeyLeReflexive(KeyOf(x));
      InsertWithKey(x, t[1..], k);
      assert ([t[0]] + Insert(x, t[1..]))[1..] == Insert(x, t[1..]);
    }
  }

  /** Inserting the head into a permutation of the tail gives a permutation of the whole. */
  lemma InsertHeadPermutes(s: seq<Sample>, rest: seq<Sample>)
    requires |s| > 0
    requires multiset(rest) == multiset(s[1..])
    ensures multiset(Insert(s[0], rest)) == multiset(s)
    ensures |Insert(s[0], rest)| == |s|
  {
    assert s == [s[0]] + s[1..];
    assert |multiset(Insert(s[0], rest))| == |multiset(s)|;
  }

  /** Insertion sort from the back: each sample is inserted in front of the later
      samples that share its key, which keeps equal keys in their original order. */
  function Sort(s: seq<Sample>): (r: seq<Sample>)
    ensures multiset(r) == multiset(s)
    ensures |r| == |s|
    ensures Sorted(r)
    decreases |s|
  {
    if |s| == 0 then
      []
    else
      var rest := Sort(s[1..]);
      var r := Insert(s[0], rest);
      InsertSorted(s[0], rest);
      InsertHeadPermutes(s, rest);
      r
  }

  /** Two samples already in key order are left where they are. */
  lemma SortPairInOrder(a: Sample, b: Sample)
    requires KeyLe(KeyOf(a), KeyOf(b))
    ensures Sort([a, b]) == [a, b]
  {
    assert Sort([b]) == [b] by {
      assert [b][1..] == [];
    }
    assert [a, b][1..] == [b];
  }

  /** Stability: for every key, the samples carrying it appear in the same relative order
      before and after sorting. */
  lemma {:induction false} SortStable(s: seq<Sample>, k: SortKey)
    ensures WithKey(Sort(s), k) == WithKey(s, k)
    decreases |s|
  {
    if |s| > 0 {
      SortStable(s[1..], k);
      InsertWithKey(s[0], Sort(s[1..]), k);
    }
  }

  /** The head of a sorted sequence has the least key of all its elements. */
  lemma SortedHeadLeast(s: seq<Sample>, x: Sample)
    requires Sorted(s) && x in s
    ensures KeyLe(KeyOf(s[0]), KeyOf(x))
  {
    var m :| 0 <= m < |s| && s[m] == x;
    if m == 0 {
      KeyLeReflexive(KeyOf(x));
    }
  }

  /** Unfolds `WithKey` once on a non-empty sequence. */
  lemma WithKeyCons(s: seq<Sample>, k: SortKey)
    requires |s| > 0
    ensures WithKey(s, k) == (if KeyOf(s[0]) == k then [s[0]] else []) + WithKey(s[1..], k)
  {
  }

  /** Two sorted arrangements that agree on every key's samples start with the same sample. */
  lemma SortedArrangementsSameHead(a: seq<Sample>, b: seq<Sample>)
    requires Sorted(a) && Sorted(b) && |a| > 0 && |b| > 0
    requires forall k :: WithKey(a, k) == WithKey(b, k)
    ensures a[0] == b[0]
  {
    var ka, kb := KeyOf(a[0]), KeyOf(b[0]);
    WithKeyCons(a, ka);
    WithKeyCons(b, kb);
    assert a[0] in WithKey(b, ka);
    SortedHeadLeast(b, a[0]);
    assert b[0] in WithKey(a, kb);
    SortedHeadLeast(a, b[0]);
    KeyLeAntisymmetric(ka, kb);
    WithKeyCons(b, ka);
    assert WithKey(a, ka)[0] == a[0];
  }

  /** A sorted sequence is determined by its per-key subsequences: two sorted
      arrangements that agree on every key's samples, in order, are equal. */
  lemma {:induction false} SortedArrangementUnique(a: seq<Sample>, b: seq<Sample>)
    requires Sorted(a) && Sorted(b)
    requires forall k :: WithKey(a, k) == WithKey(b, k)
    ensures a == b
    decreases |a|
  {
    if |a| == 0 && |b| > 0 {
      WithKeyCons(b, KeyOf(b[0]));
      assert false;
    } else if |a| > 0 && |b| == 0 {
      WithKeyCons(a, KeyOf(a[0]));
      assert false;
    } else if |a| > 0 {
      SortedArrangementsSameHead(a, b);
      forall k ensures WithKey(a[1..], k) == WithKey(b[1..], k) {
        WithKeyCons(a, k);
        WithKeyCons(b, k);
        var head := if KeyOf(a[0]) == k then [a[0]] else [];
        assert WithKey(a, k) == WithKey(b, k);
        assert WithKey(a[1..], k) == WithKey(a, k)[|head|..];
        assert WithKey(b[1..], k) == WithKey(b, k)[|head|..];
      }
      SortedArrangementUnique(a[1..], b[1..]);
      assert a == [a[0]] + a[1..] && b == [b[0]] + b[1..];
    }
  }

  /** `Sort` agrees with any sort that is stable: whatever arrangement of `s` is sorted by
      (feature, name) and keeps equal keys in their order in `s` is `Sort(s)`. */
  lemma SortIsTheStableSort(s: seq<Sample>, r: seq<Sample>)
    requires Sorted(r)
    requires forall k :: WithKey(r, k) == WithKey(s, k)
    ensures r == Sort(s)
  {
    forall k ensures WithKey(r, k) == WithKey(Sort(s), k) {
      SortStable(s, k);
    }
    SortedArrangementUnique(r, Sort(s));
  }
}
