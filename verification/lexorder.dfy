/** Python's ordering of `str` values and `sorted` on a set of strings.
    Strings compare code point by code point; a proper prefix comes first. */
module LexOrder {
  import opened Seqs

  /** `a < b` on Python strings. */
  predicate Less(a: string, b: string)
    decreases |a|
  {
    if |a| == 0 then |b| > 0
    else if |b| == 0 then false
    else if a[0] == b[0] then Less(a[1..], b[1..])
    else a[0] < b[0]
  }

  lemma {:induction false} LessIrreflexive(a: string)
    ensures !Less(a, a)
    decreases |a|
  {
    if |a| > 0 {
      LessIrreflexive(a[1..]);
    }
  }

  lemma {:induction false} LessTransitive(a: string, b: string, c: string)
    requires Less(a, b) && Less(b, c)
    ensures Less(a, c)
    decreases |a|
  {
    if |a| > 0 && a[0] == b[0] && b[0] == c[0] {
      LessTransitive(a[1..], b[1..], c[1..]);
    }
  }

  lemma {:induction false} LessTotal(a: string, b: string)
    ensures a == b || Less(a, b) || Less(b, a)
    decreases |a|
  {
    if |a| > 0 && |b| > 0 && a[0] == b[0] {
      LessTotal(a[1..], b[1..]);
      if a[1..] == b[1..] {
        assert a == [a[0]] + a[1..] && b == [b[0]] + b[1..];
      }
    }
  }

  /** `Less` is a strict total order on strings. */
  lemma LessIsStrictTotalOrder()
    ensures forall a: string :: !Less(a, a)
    ensures forall a: string, b: string :: a != b ==> Less(a, b) || Less(b, a)
    ensures forall a: string, b: string, c: string :: Less(a, b) && Less(b, c) ==> Less(a, c)
  {
    forall a: string {
      LessIrreflexive(a);
    }
    forall a: string, b: string {
      LessTotal(a, b);
    }
    forall a: string, b: string, c: string | Less(a, b) && Less(b, c) {
      LessTransitive(a, b, c);
    }
  }

  /** Every position is smaller than every later position. */
  predicate StrictlySorted(s: seq<string>)
  {
    forall i, j :: 0 <= i < j < |s| ==> Less(s[i], s[j])
  }

  lemma SortedIsDistinct(s: seq<string>)
    requires StrictlySorted(s)
    ensures Distinct(s)
  {
    forall i, j | 0 <= i < j < |s|
      ensures s[i] != s[j]
    {
      LessIrreflexive(s[i]);
    }
  }

  /** `m` is the smallest member of `s`. */
  predicate IsLeast(m: string, s: set<string>)
  {
    m in s && forall y :: y in s ==> !Less(y, m)
  }

  lemma {:induction false} LeastExists(s: set<string>)
    requires s != {}
    ensures exists m :: IsLeast(m, s)
    decreases |s|
  {
    var x :| x in s;
    if s != {x} {
      var rest := s - {x};
      LeastExists(rest);
      var m :| IsLeast(m, rest);
      if Less(x, m) {
        LessIrreflexive(x);
        forall y | y in s
          ensures !Less(y, x)
        {
          if y != x && Less(y, x) {
            LessTransitive(y, x, m);
          }
        }
        assert IsLeast(x, s);
      } else {
        assert IsLeast(m, s);
      }
    } else {
      LessIrreflexive(x);
      assert IsLeast(x, s);
    }
  }

  /** `sorted(s)`: the members of `s` in increasing order. */
  function SortedOf(s: set<string>): (r: seq<string>)
    ensures StrictlySorted(r)
    ensures Elems(r) == s
    ensures |r| == |s|
    decreases |s|
  {
    if s == {} then []
    else
      LeastExists(s);
      LeastUnique(s);
      var m :| IsLeast(m, s);
      var tail := SortedOf(s - {m});
      LeastBelowOthers(m, s);
      ConsSorted(m, tail);
      assert Elems([m] + tail) == {m} + Elems(tail);
      [m] + tail
  }

  /** Putting a member below every element in front keeps a sequence sorted. */
  lemma ConsSorted(m: string, tail: seq<string>)
    requires StrictlySorted(tail)
    requires forall y :: y in Elems(tail) ==> Less(m, y)
    ensures StrictlySorted([m] + tail)
  {
    var r := [m] + tail;
    forall i, j | 0 <= i < j < |r|
      ensures Less(r[i], r[j])
    {
      assert r[j] == tail[j - 1];
      assert tail[j - 1] in Elems(tail);
      if i > 0 {
        assert r[i] == tail[i - 1];
      }
    }
  }

  /** A set has at most one least member. */
  lemma LeastUnique(s: set<string>)
    ensures forall a, b :: IsLeast(a, s) && IsLeast(b, s) ==> a == b
  {
    forall a, b | IsLeast(a, s) && IsLeast(b, s)
      ensures a == b
    {
      LessTotal(a, b);
    }
  }

  /** The least member is below every other member. */
  lemma LeastBelowOthers(m: string, s: set<string>)
    requires IsLeast(m, s)
    ensures forall y :: y in s - {m} ==> Less(m, y)
  {
    forall y | y in s - {m}
      ensures Less(m, y)
    {
      LessTotal(m, y);
    }
  }

  /** The head of a sorted sequence is below every other member. */
  lemma SortedHeadLeast(a: seq<string>)
    requires StrictlySorted(a) && a != []
    ensures forall x :: x in a && x != a[0] ==> Less(a[0], x)
  {
  }

  /** Two sorted sequences with the same members are equal: the sorted order
      of a set is unique. */
  lemma {:induction false} SortedUnique(a: seq<string>, b: seq<string>)
    requires StrictlySorted(a) && StrictlySorted(b)
    requires Elems(a) == Elems(b)
    ensures a == b
    decreases |a|
  {
    SortedIsDistinct(a);
    SortedIsDistinct(b);
    DistinctCard(a);
    DistinctCard(b);
    if a != [] {
      SortedHeadLeast(a);
      SortedHeadLeast(b);
      LessIsStrictTotalOrder();
      assert a[0] in Elems(b) && b[0] in Elems(a);
      assert a[0] == b[0];
      assert Elems(a[1..]) == Elems(a) - {a[0]} by {
        assert a == [a[0]] + a[1..];
      }
      assert Elems(b[1..]) == Elems(b) - {b[0]} by {
        assert b == [b[0]] + b[1..];
      }
      SortedUnique(a[1..], b[1..]);
      assert a == [a[0]] + a[1..];
      assert b == [b[0]] + b[1..];
    }
  }
}
