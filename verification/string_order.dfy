/** Python's ordering of `str` values: code points compared left to right,
    a proper prefix ordered before every one of its extensions. */
module StringOrder {

  /** `a <= b` on Python strings. */
  predicate Le(a: string, b: string)
    decreases |a|
  {
    if |a| == 0 then true
    else if |b| == 0 then false
    else if a[0] != b[0] then a[0] < b[0]
    else Le(a[1..], b[1..])
  }

  /** `a < b` on Python strings. */
  predicate Lt(a: string, b: string)
  {
    Le(a, b) && a != b
  }

  /** The textbook definition of lexicographic order: `a` is a prefix of `b`,
      or the two first differ at a position where `a` holds the smaller character. */
  ghost predicate Lexicographic(a: string, b: string)
  {
    || (|a| <= |b| && a == b[..|a|])
    || exists i :: 0 <= i < |a| && i < |b| && a[..i] == b[..i] && a[i] < b[i]
  }

  /** The prefix case of `Lexicographic` is unchanged by dropping a shared first character. */
  lemma PrefixTail(a: string, b: string)
    requires |a| > 0 && |b| > 0 && a[0] == b[0]
    ensures (|a| <= |b| && a == b[..|a|]) <==> (|a[1..]| <= |b[1..]| && a[1..] == b[1..][..|a[1..]|])
  {
    var a', b' := a[1..], b[1..];
    if |a| <= |b| && a == b[..|a|] {
      assert a' == b'[..|a'|];
    }
    if |a'| <= |b'| && a' == b'[..|a'|] {
      assert a == [a[0]] + a' && b[..|a|] == [b[0]] + b'[..|a'|];
    }
  }

  /** A first difference at `i > 0` becomes one at `i - 1` once the shared head is dropped. */
  lemma DifferenceDrop(a: string, b: string, i: int)
    requires 0 < i < |a| && i < |b| && a[..i] == b[..i] && a[i] < b[i]
    ensures a[1..][..i - 1] == b[1..][..i - 1] && a[1..][i - 1] < b[1..][i - 1]
  {
    forall k | 0 <= k < i - 1 ensures a[1..][k] == b[1..][k] {
      assert a[..i][k + 1] == b[..i][k + 1];
    }
  }

  /** A first difference at `i` after the shared head is one at `i + 1` before dropping it. */
  lemma DifferenceCons(a: string, b: string, i: int)
    requires |a| > 0 && |b| > 0 && a[0] == b[0]
    requires 0 <= i < |a| - 1 && i < |b| - 1 && a[1..][..i] == b[1..][..i] && a[1..][i] < b[1..][i]
    ensures a[..i + 1] == b[..i + 1] && a[i + 1] < b[i + 1]
  {
    forall k | 0 < k < i + 1 ensures a[k] == b[k] {
      assert a[1..][..i][k - 1] == b[1..][..i][k - 1];
    }
  }

  /** The first-difference case of `Lexicographic` is unchanged by dropping a shared first
      character, the difference moving one position left. */
  lemma DifferenceTail(a: string, b: string)
    requires |a| > 0 && |b| > 0 && a[0] == b[0]
    ensures (exists i :: 0 <= i < |a| && i < |b| && a[..i] == b[..i] && a[i] < b[i]) <==>
            (exists i :: 0 <= i < |a[1..]| && i < |b[1..]| && a[1..][..i] == b[1..][..i] && a[1..][i] < b[1..][i])
  {
    var a', b' := a[1..], b[1..];
    if exists i :: 0 <= i < |a| && i < |b| && a[..i] == b[..i] && a[i] < b[i] {
      var i :| 0 <= i < |a| && i < |b| && a[..i] == b[..i] && a[i] < b[i];
      assert i > 0;
      DifferenceDrop(a, b, i);
      assert 0 <= i - 1 < |a'| && i - 1 < |b'| && a'[..i - 1] == b'[..i - 1] && a'[i - 1] < b'[i - 1];
    }
    if exists i :: 0 <= i < |a'| && i < |b'| && a'[..i] == b'[..i] && a'[i] < b'[i] {
      var i :| 0 <= i < |a'| && i < |b'| && a'[..i] == b'[..i] && a'[i] < b'[i];
      DifferenceCons(a, b, i);
      assert 0 <= i + 1 < |a| && i + 1 < |b| && a[..i + 1] == b[..i + 1] && a[i + 1] < b[i + 1];
    }
  }

  /** Both sides of `Lexicographic` drop a common first character. */
  lemma LexicographicTail(a: string, b: string)
    requires |a| > 0 && |b| > 0 && a[0] == b[0]
    ensures Lexicographic(a, b) <==> Lexicographic(a[1..], b[1..])
  {
    PrefixTail(a, b);
    DifferenceTail(a, b);
  }

  /** The recursive comparison is exactly lexicographic order. */
  lemma {:induction false} LeIsLexicographic(a: string, b: string)
    ensures Le(a, b) <==> Lexicographic(a, b)
    decreases |a|
  {
    if |a| == 0 {
      assert a == b[..0];
    } else if |b| == 0 {
      assert !Lexicographic(a, b);
    } else if a[0] != b[0] {
      if a[0] < b[0] {
        assert a[..0] == b[..0];
      } else {
        if exists i :: 0 <= i < |a| && i < |b| && a[..i] == b[..i] && a[i] < b[i] {
          var i :| 0 <= i < |a| && i < |b| && a[..i] == b[..i] && a[i] < b[i];
          if i > 0 {
            assert a[..i][0] == b[..i][0];
          }
        }
      }
    } else {
      LeIsLexicographic(a[1..], b[1..]);
      LexicographicTail(a, b);
    }
  }

  lemma {:induction false} LeReflexive(a: string)
    ensures Le(a, a)
    decreases |a|
  {
    if |a| > 0 {
      LeReflexive(a[1..]);
    }
  }

  lemma {:induction false} LeTotal(a: string, b: string)
    ensures Le(a, b) || Le(b, a)
    decreases |a|
  {
    if |a| > 0 && |b| > 0 && a[0] == b[0] {
      LeTotal(a[1..], b[1..]);
    }
  }

  lemma {:induction false} LeAntisymmetric(a: string, b: string)
    requires Le(a, b) && Le(b, a)
    ensures a == b
    decreases |a|
  {
    if |a| > 0 {
      LeAntisymmetric(a[1..], b[1..]);
      assert a == [a[0]] + a[1..] && b == [b[0]] + b[1..];
    }
  }

  lemma {:induction false} LeTransitive(a: string, b: string, c: string)
    requires Le(a, b) && Le(b, c)
    ensures Le(a, c)
    decreases |a|
  {
    if |a| > 0 && |b| > 0 && |c| > 0 && a[0] == b[0] && b[0] == c[0] {
      LeTransitive(a[1..], b[1..], c[1..]);
    }
  }

  /** A proper prefix sorts strictly first. */
  lemma ProperPrefixLt(a: string, b: string)
    requires |a| < |b| && a == b[..|a|]
    ensures Lt(a, b)
  {
    LeIsLexicographic(a, b);
  }

  /** Strict order chains with the non-strict one. */
  lemma LtLeTransitive(a: string, b: string, c: string)
    requires Lt(a, b) && Le(b, c)
    ensures Lt(a, c)
  {
    LeTransitive(a, b, c);
    if a == c {
      LeAntisymmetric(a, b);
    }
  }
}
