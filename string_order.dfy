/**
 * The natural order of Java strings (`String.compareTo`): character by
 * character, and a proper prefix before the longer string. It is a strict
 * total order, which is what makes a sorted list of distinct titles unique.
 */
module StringOrder {

  /** `a.compareTo(b) < 0`. */
  predicate StrLess(a: string, b: string)
    decreases |a|
  {
    if a == [] then b != []
    else if b == [] then false
    else if a[0] != b[0] then a[0] < b[0]
    else StrLess(a[1..], b[1..])
  }

  /** `a` is a proper prefix of `b`. */
  predicate ProperPrefix(a: string, b: string) {
    |a| < |b| && a == b[..|a|]
  }

  /** At some index `k`, after an equal prefix, `a` has the smaller character. */
  predicate SmallerAt(a: string, b: string, k: int) {
    0 <= k < |a| && k < |b| && a[..k] == b[..k] && a[k] < b[k]
  }

  /** Two strings with a common non-empty prefix start with the same character. */
  lemma EqualPrefixHeads(a: string, b: string, k: int)
    ensures 0 < k <= |a| && k <= |b| && a[..k] == b[..k] ==> a[0] == b[0]
  {
  }

  /**
   * The order is the one `String.compareTo` documents: `a` comes first when
   * it is a proper prefix of `b`, or when at the first index where the two
   * differ `a` has the smaller character.
   */
  lemma {:induction false} StrLessMeans(a: string, b: string)
    ensures StrLess(a, b) <==> ProperPrefix(a, b) || exists k :: SmallerAt(a, b, k)
    decreases |a|
  {
    if a == [] || b == [] {
      forall k | SmallerAt(a, b, k)
        ensures false
      {
      }
    } else if a[0] != b[0] {
      assert SmallerAt(a, b, 0) <==> a[0] < b[0];
      forall k | SmallerAt(a, b, k)
        ensures k == 0
      {
        EqualPrefixHeads(a, b, k);
      }
      if ProperPrefix(a, b) {
        assert a[0] == b[..|a|][0];
      }
    } else {
      var a', b' := a[1..], b[1..];
      StrLessMeans(a', b');
      assert a == [a[0]] + a' && b == [b[0]] + b';
      assert ProperPrefix(a, b) <==> ProperPrefix(a', b') by {
        if |a| < |b| {
          assert b[..|a|] == [b[0]] + b'[..|a'|];
        }
      }
      forall k | SmallerAt(a', b', k)
        ensures SmallerAt(a, b, k + 1)
      {
        assert a[..k + 1] == [a[0]] + a'[..k];
        assert b[..k + 1] == [b[0]] + b'[..k];
      }
      forall k | SmallerAt(a, b, k)
        ensures SmallerAt(a', b', k - 1)
      {
        assert k > 0;
        assert a'[..k - 1] == a[..k][1..];
        assert b'[..k - 1] == b[..k][1..];
      }
    }
  }

  lemma {:induction false} Irreflexive(a: string)
    ensures !StrLess(a, a)
    decreases |a|
  {
    if a != [] {
      Irreflexive(a[1..]);
    }
  }

  lemma {:induction false} Transitive(a: string, b: string, c: string)
    requires StrLess(a, b) && StrLess(b, c)
    ensures StrLess(a, c)
    decreases |a|
  {
    if a != [] && b != [] && c != [] && a[0] == b[0] && b[0] == c[0] {
      Transitive(a[1..], b[1..], c[1..]);
    }
  }

  /** Two different strings are ordered one way or the other. */
  lemma {:induction false} Total(a: string, b: string)
    requires a != b
    ensures StrLess(a, b) || StrLess(b, a)
    decreases |a|
  {
    if a != [] && b != [] && a[0] == b[0] {
      assert a == [a[0]] + a[1..] && b == [b[0]] + b[1..];
      Total(a[1..], b[1..]);
    }
  }

  lemma {:induction false} Asymmetric(a: string, b: string)
    requires StrLess(a, b)
    ensures !StrLess(b, a)
  {
    if StrLess(b, a) {
      Transitive(a, b, a);
      Irreflexive(a);
    }
  }

  /** Every entry comes strictly before every later one. */
  predicate StrictlySorted(s: seq<string>) {
    forall i, j :: 0 <= i < j < |s| ==> StrLess(s[i], s[j])
  }

  /** A strictly sorted list repeats no entry. */
  lemma NoDuplicates(s: seq<string>)
    requires StrictlySorted(s)
    ensures forall i, j :: 0 <= i < j < |s| ==> s[i] != s[j]
  {
    forall i, j | 0 <= i < j < |s|
      ensures s[i] != s[j]
    {
      if s[i] == s[j] {
        Irreflexive(s[i]);
      }
    }
  }

  lemma HeadIsMember(t: seq<string>)
    ensures t != [] ==> t[0] in t
  {
  }

  /**
   * A strictly sorted list is determined by its elements: the order in
   * which they were found does not matter.
   */
  lemma {:induction false} SortedUnique(s: seq<string>, t: seq<string>)
    requires StrictlySorted(s) && StrictlySorted(t)
    requires forall x :: x in s <==> x in t
    ensures s == t
    decreases |s|
  {
    if s == [] {
      HeadIsMember(t);
    } else {
      assert t != [] by {
        assert s[0] in s;
      }
      assert s[0] == t[0] by {
        if s[0] != t[0] {
          assert t[0] in s && s[0] in t;
          var i :| 0 < i < |s| && s[i] == t[0];
          var j :| 0 < j < |t| && t[j] == s[0];
          Asymmetric(s[0], s[i]);
        }
      }
      forall x
        ensures x in s[1..] <==> x in t[1..]
      {
        if x in s[1..] {
          var i :| 1 <= i < |s| && s[i] == x;
          assert x != s[0] by {
            Irreflexive(s[0]);
          }
          assert x in t;
        }
        if x in t[1..] {
          var j :| 1 <= j < |t| && t[j] == x;
          assert x != t[0] by {
            Irreflexive(t[0]);
          }
          assert x in s;
        }
      }
      SortedUnique(s[1..], t[1..]);
    }
  }
}
