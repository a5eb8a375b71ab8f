/**
 * Python's ordering of `str` values: lexicographic by code point, a proper
 * prefix sorting first. The pull scripts compare ISO dates as strings with
 * it (`d >= '2001-01-01'`) and sort date keys with it (`sorted(...)`).
 * Dafny's own `<` on sequences means "proper prefix", hence this module.
 */
module TextOrder {

  /** `a < b` on Python strings. */
  predicate Less(a: string, b: string)
    decreases |a|
  {
    if a == [] then b != []
    else if b == [] then false
    else if a[0] != b[0] then a[0] < b[0]
    else Less(a[1..], b[1..])
  }

  /** `a <= b` on Python strings. */
  predicate AtMost(a: string, b: string) {
    a == b || Less(a, b)
  }

  lemma {:induction false} LessIrreflexive(a: string)
    ensures !Less(a, a)
    decreases |a|
  {
    if a != [] {
      LessIrreflexive(a[1..]);
    }
  }

  lemma {:induction false} LessTransitive(a: string, b: string, c: string)
    requires Less(a, b) && Less(b, c)
    ensures Less(a, c)
    decreases |a|
  {
    if a != [] && a[0] == b[0] && b[0] == c[0] {
      LessTransitive(a[1..], b[1..], c[1..]);
    }
  }

  /** Any two strings are equal or ordered one way or the other. */
  lemma {:induction false} LessTotal(a: string, b: string)
    ensures a == b || Less(a, b) || Less(b, a)
    decreases |a|
  {
    if a != [] && b != [] && a[0] == b[0] {
      LessTotal(a[1..], b[1..]);
      if a[1..] == b[1..] {
        assert a == [a[0]] + a[1..] && b == [b[0]] + b[1..];
      }
    }
  }

  lemma LessAsymmetric(a: string, b: string)
    requires Less(a, b)
    ensures !Less(b, a)
  {
    if Less(b, a) {
      LessTransitive(a, b, a);
      LessIrreflexive(a);
    }
  }

  /** A string at or after `a` is not before it. */
  lemma NotBefore(a: string, b: string)
    requires AtMost(a, b)
    ensures !Less(b, a)
  {
    if a == b {
      LessIrreflexive(a);
    } else {
      LessAsymmetric(a, b);
    }
  }

  /** Two strings each at most the other are the same string. */
  lemma AtMostAntisymmetric()
    ensures forall a, b :: AtMost(a, b) && AtMost(b, a) ==> a == b
  {
    forall a, b | AtMost(a, b) && AtMost(b, a)
      ensures a == b
    {
      if a != b {
        LessAsymmetric(a, b);
      }
    }
  }

  /** Every non-empty finite set of strings has a least element. */
  lemma {:induction false} LeastExists(s: set<string>)
    requires s != {}
    ensures exists m :: m in s && forall x :: x in s ==> AtMost(m, x)
    decreases |s|
  {
    var y :| y in s;
    if s == {y} {
      assert forall x :: x in s ==> x == y;
      assert AtMost(y, y);
    } else {
      var rest := s - {y};
      LeastExists(rest);
      var m :| m in rest && forall x :: x in rest ==> AtMost(m, x);
      LessTotal(m, y);
      if Less(y, m) {
        forall x | x in s
          ensures AtMost(y, x)
        {
          if x != y && x != m {
            assert x in rest;
            LessTransitive(y, m, x);
          }
        }
        assert y in s;
      } else {
        forall x | x in s
          ensures AtMost(m, x)
        {
          if x != y {
            assert x in rest;
          }
        }
        assert m in s;
      }
    }
  }

  predicate StrictlyAscending(ks: seq<string>) {
    forall i, j :: 0 <= i < j < |ks| ==> Less(ks[i], ks[j])
  }

  /** Python's `sorted(s)` for a set of strings: each element once, ascending. */
  function SortedKeys(s: set<string>): (ks: seq<string>)
    ensures StrictlyAscending(ks)
    ensures |ks| == |s|
    ensures forall x :: x in ks <==> x in s
    decreases |s|
  {
    if s == {} then []
    else
      LeastExists(s);
      AtMostAntisymmetric();
      var m :| m in s && forall x :: x in s ==> AtMost(m, x);
      var rest := SortedKeys(s - {m});
      assert forall j :: 0 <= j < |rest| ==> Less(m, rest[j]) by {
        forall j | 0 <= j < |rest|
          ensures Less(m, rest[j])
        {
          assert rest[j] in s - {m};
        }
      }
      [m] + rest
  }

  /** `sorted(s)[-1]`: the greatest string of a non-empty set. */
  function Greatest(s: set<string>): (g: string)
    requires s != {}
    ensures g in s
    ensures forall x :: x in s ==> AtMost(x, g)
  {
    var ks := SortedKeys(s);
    assert forall x :: x in s ==> exists i :: 0 <= i < |ks| && ks[i] == x;
    ks[|ks| - 1]
  }
}
