/**
 * Python's ordering of `str` values and the builtin `sorted` applied to a set
 * of strings, as `check_os_env` uses them.
 */
module Ordering {

  /** Python's `a < b` on `str`: code point by code point, a proper prefix first. */
  function Less(a: string, b: string): (r: bool)
    ensures r ==> a != b
    ensures |a| < |b| && a == b[..|a|] ==> r
  {
    if |a| == 0 then |b| > 0
    else if |b| == 0 then false
    else if a[0] != b[0] then a[0] < b[0]
    else Less(a[1..], b[1..])
  }

  /** Follows from `Less`'s own contract: a string never sorts before itself. */
  lemma LessIrreflexive(a: string)
    ensures !Less(a, a)
  {
  }

  lemma {:induction false} LessTransitive(a: string, b: string, c: string)
    requires Less(a, b) && Less(b, c)
    ensures Less(a, c)
  {
    if |a| > 0 && a[0] == b[0] && b[0] == c[0] {
      LessTransitive(a[1..], b[1..], c[1..]);
    }
  }

  lemma {:induction false} LessTotal(a: string, b: string)
    requires a != b
    ensures Less(a, b) || Less(b, a)
  {
    if |a| > 0 && |b| > 0 && a[0] == b[0] {
      assert a == [a[0]] + a[1..] && b == [b[0]] + b[1..];
      LessTotal(a[1..], b[1..]);
    }
  }

  lemma LessAsymmetric(a: string, b: string)
    requires Less(a, b)
    ensures !Less(b, a)
  {
  }

  /** Each element of `s` is smaller than every later one: ascending, no duplicates. */
  predicate StrictlySorted(s: seq<string>)
  {
    forall i, j :: 0 <= i < j < |s| ==> Less(s[i], s[j])
  }

  function Elems(s: seq<string>): set<string>
  {
    set x | x in s
  }

  /** `m` is not preceded by any member of `s`. */
  predicate IsLeast(m: string, s: set<string>)
  {
    m in s && forall x :: x in s ==> !Less(x, m)
  }

  lemma {:induction false} LeastExists(s: set<string>)
    requires s != {}
    ensures exists m :: IsLeast(m, s)
    decreases s
  {
    var x :| x in s;
    if s == {x} {
      LessIrreflexive(x);
      assert IsLeast(x, s);
    } else {
      LeastExists(s - {x});
      var m :| IsLeast(m, s - {x});
      if Less(x, m) {
        forall y | y in s
          ensures !Less(y, x)
        {
          if y == x {
            LessIrreflexive(x);
          } else if Less(y, x) {
            LessTransitive(y, x, m);
          }
        }
        assert IsLeast(x, s);
      } else {
        assert IsLeast(m, s);
      }
    }
  }

  /** The smallest member of a non-empty set. */
  function Least(s: set<string>): (m: string)
    requires s != {}
    ensures m in s
    ensures forall x :: x in s && x != m ==> Less(m, x)
  {
    LeastExists(s);
    assert forall a, b :: IsLeast(a, s) && IsLeast(b, s) ==> a == b by {
      forall a, b | IsLeast(a, s) && IsLeast(b, s)
        ensures a == b
      {
        if a != b {
          LessTotal(a, b);
        }
      }
    }
    var m :| IsLeast(m, s);
    assert forall x :: x in s && x != m ==> Less(m, x) by {
      forall x | x in s && x != m
        ensures Less(m, x)
      {
        LessTotal(m, x);
      }
    }
    m
  }

  /** Python's `sorted(s)` for a set of strings. */
  function SortedOf(s: set<string>): (r: seq<string>)
    ensures StrictlySorted(r)
    ensures Elems(r) == s
    ensures |r| == |s|
    decreases |s|
  {
    if s == {} then []
    else
      var m := Least(s);
      var rest := SortedOf(s - {m});
      PrependSorted(m, rest);
      [m] + rest
  }

  /** Appending a name larger than everything already listed keeps a list ascending. */
  lemma AppendSorted(s: seq<string>, x: string)
    requires StrictlySorted(s)
    requires forall y :: y in Elems(s) ==> Less(y, x)
    ensures StrictlySorted(s + [x])
    ensures Elems(s + [x]) == Elems(s) + {x}
  {
  }

  /** Putting a name smaller than everything listed in front keeps a list ascending. */
  lemma PrependSorted(x: string, s: seq<string>)
    requires StrictlySorted(s)
    requires forall y :: y in Elems(s) ==> Less(x, y)
    ensures StrictlySorted([x] + s)
    ensures Elems([x] + s) == {x} + Elems(s)
  {
  }

  /** In an ascending list, everything before position `i` is smaller than the name at `i`. */
  lemma PrefixBelow(s: seq<string>, i: nat)
    requires StrictlySorted(s) && i < |s|
    ensures forall x :: x in Elems(s[..i]) ==> Less(x, s[i])
    ensures Elems(s[..i + 1]) == Elems(s[..i]) + {s[i]}
  {
  }

  lemma {:induction false} SortedDistinct(s: seq<string>)
    requires StrictlySorted(s)
    ensures |Elems(s)| == |s|
  {
    if |s| > 0 {
      SortedDistinct(s[1..]);
      LessIrreflexive(s[0]);
      assert s[0] !in Elems(s[1..]);
      assert Elems(s) == {s[0]} + Elems(s[1..]);
    }
  }

  /** A strictly sorted sequence is determined by its elements. */
  lemma {:induction false} SortedUnique(a: seq<string>, b: seq<string>)
    requires StrictlySorted(a) && StrictlySorted(b)
    requires Elems(a) == Elems(b)
    ensures a == b
  {
    if a == [] {
      SortedDistinct(b);
      assert |b| == |Elems(a)| == 0;
    } else {
      assert b != [] by {
        assert a[0] in Elems(a);
      }
      if a[0] != b[0] {
        assert b[0] in Elems(a);
        var j :| 0 <= j < |a| && a[j] == b[0];
        assert a[0] in Elems(b);
        var k :| 0 <= k < |b| && b[k] == a[0];
        assert Less(a[0], b[0]) && Less(b[0], a[0]);
        LessAsymmetric(a[0], b[0]);
        assert false;
      }
      LessIrreflexive(a[0]);
      assert a[0] !in Elems(a[1..]) && b[0] !in Elems(b[1..]);
      assert Elems(a) == {a[0]} + Elems(a[1..]);
      assert Elems(b) == {b[0]} + Elems(b[1..]);
      SortedUnique(a[1..], b[1..]);
      assert a == [a[0]] + a[1..] && b == [b[0]] + b[1..];
    }
  }
}
