/**
 * Go's ordering of strings (`a < b`, element by element, a proper prefix
 * first) and the sorting `sort.Strings` performs with it.
 */
module Lexicographic {

  /** `a` and `b` agree before position `k`, where `a` has the smaller element. */
  predicate FirstDifferenceBelow(a: string, b: string, k: int) {
    0 <= k < |a| && k < |b| && a[..k] == b[..k] && a[k] < b[k]
  }

  /**
   * The textbook lexicographic order: `a` is a proper prefix of `b`, or the two
   * agree up to a first position where `a` has the smaller element.
   */
  ghost predicate Below(a: string, b: string) {
    || (|a| < |b| && a == b[..|a|])
    || exists k :: FirstDifferenceBelow(a, b, k)
  }

  lemma BelowHead(a: string, b: string)
    requires |a| > 0 && |b| > 0 && a[0] != b[0]
    ensures Below(a, b) <==> a[0] < b[0]
  {
    if a[0] < b[0] {
      assert FirstDifferenceBelow(a, b, 0);
    }
  }

  lemma DifferenceShiftDown(a: string, b: string, k: int)
    requires |a| > 0 && |b| > 0 && a[0] == b[0] && FirstDifferenceBelow(a, b, k)
    ensures k > 0 && FirstDifferenceBelow(a[1..], b[1..], k - 1)
  {
    assert a[1..][..k - 1] == a[..k][1..];
    assert b[1..][..k - 1] == b[..k][1..];
  }

  lemma DifferenceShiftUp(a: string, b: string, k: int)
    requires |a| > 0 && |b| > 0 && a[0] == b[0] && FirstDifferenceBelow(a[1..], b[1..], k)
    ensures FirstDifferenceBelow(a, b, k + 1)
  {
    assert a[..k + 1] == [a[0]] + a[1..][..k];
    assert b[..k + 1] == [b[0]] + b[1..][..k];
  }

  lemma PrefixTail(a: string, b: string)
    requires |a| > 0 && |b| > 0 && a[0] == b[0]
    ensures (|a| < |b| && a == b[..|a|]) <==> (|a| - 1 < |b| - 1 && a[1..] == b[1..][..|a| - 1])
  {
    if |a| < |b| && a[1..] == b[1..][..|a| - 1] {
      assert a == [a[0]] + a[1..];
      assert b[..|a|] == [b[0]] + b[1..][..|a| - 1];
    }
  }

  lemma BelowTail(a: string, b: string)
    requires |a| > 0 && |b| > 0 && a[0] == b[0]
    ensures Below(a, b) <==> Below(a[1..], b[1..])
  {
    PrefixTail(a, b);
    if exists k :: FirstDifferenceBelow(a, b, k) {
      var k :| FirstDifferenceBelow(a, b, k);
      DifferenceShiftDown(a, b, k);
    }
    if exists k :: FirstDifferenceBelow(a[1..], b[1..], k) {
      var k :| FirstDifferenceBelow(a[1..], b[1..], k);
      DifferenceShiftUp(a, b, k);
    }
  }

  /** Go's `a < b` on strings: element by element, a proper prefix first. */
  predicate Less(a: string, b: string): (r: bool)
    ensures r ==> a != b
  {
    if |a| == 0 then |b| > 0
    else if |b| == 0 then false
    else if a[0] != b[0] then a[0] < b[0]
    else Less(a[1..], b[1..])
  }

  /** Go's string order is the lexicographic order `Below`. */
  lemma {:induction false} LessIsBelow(a: string, b: string)
    ensures Less(a, b) <==> Below(a, b)
  {
    if |a| == 0 {
      assert |b| > 0 ==> a == b[..0];
    } else if |b| == 0 {
    } else if a[0] != b[0] {
      BelowHead(a, b);
    } else {
      BelowTail(a, b);
      LessIsBelow(a[1..], b[1..]);
    }
  }

  lemma {:induction false} LessAsymmetric(a: string, b: string)
    requires Less(a, b)
    ensures !Less(b, a)
  {
    if |a| > 0 && |b| > 0 && a[0] == b[0] {
      LessAsymmetric(a[1..], b[1..]);
    }
  }

  lemma {:induction false} LessTransitive(a: string, b: string, c: string)
    requires Less(a, b) && Less(b, c)
    ensures Less(a, c)
  {
    if |a| > 0 && a[0] == b[0] && b[0] == c[0] {
      LessTransitive(a[1..], b[1..], c[1..]);
    }
  }

  lemma {:induction false} LessTotal(a: string, b: string)
    requires a != b
    ensures Less(a, b) || Less(b, a)
  {
    if |a| > 0 && |b| > 0 && a[0] == b[0] {
      assert a == [a[0]] + a[1..] && b == [b[0]] + b[1..];
      LessTotal(a[1..], b[1..]);
    }
  }

  /** What `sort.Strings` promises: no element is greater than one after it. */
  predicate Ordered(s: seq<string>) {
    forall i, j :: 0 <= i < j < |s| ==> !Less(s[j], s[i])
  }

  /** Strictly ascending: ordered with no repeated element. */
  predicate Ascending(s: seq<string>) {
    forall i, j :: 0 <= i < j < |s| ==> Less(s[i], s[j])
  }

  /** No element occurs twice. */
  predicate Distinct(s: seq<string>) {
    forall i, j :: 0 <= i < j < |s| ==> s[i] != s[j]
  }

  function Elements(s: seq<string>): set<string> {
    set x | x in s
  }

  lemma ElementsEmpty(s: seq<string>)
    ensures Elements(s) == {} <==> s == []
  {
    if s != [] {
      assert s[0] in Elements(s);
    }
  }

  lemma ElementsAppend(s: seq<string>, x: string)
    ensures Elements(s + [x]) == Elements(s) + {x}
  {
    forall y ensures y in Elements(s + [x]) <==> y in Elements(s) + {x} {
      assert y in s + [x] <==> y in s || y == x;
    }
  }

  /** `x` placed into `s` after every leading element smaller than it. */
  function InsertOrdered(s: seq<string>, x: string): (r: seq<string>)
    ensures multiset(r) == multiset(s) + multiset{x}
  {
    if s == [] then [x]
    else if Less(s[0], x) then
      assert s == [s[0]] + s[1..];
      [s[0]] + InsertOrdered(s[1..], x)
    else [x] + s
  }

  lemma OrderedCons(h: string, t: seq<string>)
    requires Ordered(t) && forall j :: 0 <= j < |t| ==> !Less(t[j], h)
    ensures Ordered([h] + t)
  {
  }

  lemma AscendingCons(h: string, t: seq<string>)
    requires Ascending(t) && forall j :: 0 <= j < |t| ==> Less(h, t[j])
    ensures Ascending([h] + t)
  {
  }

  /** Every element of `InsertOrdered(s, x)` is `x` or an element of `s`. */
  lemma InsertFrom(s: seq<string>, x: string, j: nat)
    requires j < |InsertOrdered(s, x)|
    ensures InsertOrdered(s, x)[j] == x || InsertOrdered(s, x)[j] in s
  {
    var r := InsertOrdered(s, x);
    assert r[j] in multiset(r);
    if r[j] != x {
      assert r[j] in multiset(s);
    }
  }

  lemma {:induction false} InsertKeepsOrdered(s: seq<string>, x: string)
    requires Ordered(s)
    ensures Ordered(InsertOrdered(s, x))
  {
    if s == [] {
    } else if Less(s[0], x) {
      var t := s[1..];
      var rest := InsertOrdered(t, x);
      InsertKeepsOrdered(t, x);
      forall j | 0 <= j < |rest| ensures !Less(rest[j], s[0]) {
        InsertFrom(t, x, j);
        if rest[j] == x {
          LessAsymmetric(s[0], x);
        } else {
          var k :| 0 <= k < |t| && t[k] == rest[j];
          assert s[k + 1] == rest[j];
        }
      }
      OrderedCons(s[0], rest);
    } else {
      forall j | 0 <= j < |s| ensures !Less(s[j], x) {
        if Less(s[j], x) && s[j] != s[0] {
          LessTotal(s[j], s[0]);
          LessTransitive(s[0], s[j], x);
        }
      }
      OrderedCons(x, s);
    }
  }

  lemma {:induction false} InsertKeepsAscending(s: seq<string>, x: string)
    requires Ascending(s) && x !in s
    ensures Ascending(InsertOrdered(s, x))
  {
    if s == [] {
    } else if Less(s[0], x) {
      var t := s[1..];
      var rest := InsertOrdered(t, x);
      assert x !in t;
      InsertKeepsAscending(t, x);
      forall j | 0 <= j < |rest| ensures Less(s[0], rest[j]) {
        InsertFrom(t, x, j);
        if rest[j] != x {
          var k :| 0 <= k < |t| && t[k] == rest[j];
          assert s[k + 1] == rest[j];
        }
      }
      AscendingCons(s[0], rest);
    } else {
      assert x != s[0];
      LessTotal(s[0], x);
      forall j | 0 <= j < |s| ensures Less(x, s[j]) {
        if j > 0 {
          LessTransitive(x, s[0], s[j]);
        }
      }
      AscendingCons(x, s);
    }
  }

  /**
   * `sort.Strings(keys)`: the result is ordered and a permutation of the input;
   * when the input has no repeated element the result is strictly ascending.
   */
  method SortStrings(keys: seq<string>) returns (sorted: seq<string>)
    ensures Ordered(sorted)
    ensures multiset(sorted) == multiset(keys)
    ensures Distinct(keys) ==> Ascending(sorted)
  {
    sorted := [];
    ghost var distinct := Distinct(keys);
    for n := 0 to |keys|
      invariant Ordered(sorted)
      invariant multiset(sorted) == multiset(keys[..n])
      invariant distinct ==> Ascending(sorted)
    {
      assert keys[..n + 1] == keys[..n] + [keys[n]];
      if distinct {
        assert keys[n] !in keys[..n];
        assert keys[n] !in multiset(sorted);
      }
      InsertKeepsOrdered(sorted, keys[n]);
      if distinct {
        InsertKeepsAscending(sorted, keys[n]);
      }
      sorted := InsertOrdered(sorted, keys[n]);
    }
    assert keys[..|keys|] == keys;
  }

  /** Two strictly ascending sequences with the same elements are the same sequence. */
  lemma {:induction false} AscendingUnique(a: seq<string>, b: seq<string>)
    requires Ascending(a) && Ascending(b)
    requires Elements(a) == Elements(b)
    ensures a == b
    decreases |a|
  {
    ElementsEmpty(a);
    ElementsEmpty(b);
    if a != [] {
      assert a[0] in Elements(b);
      assert b != [];
      assert b[0] in Elements(a);
      if a[0] != b[0] {
        var i :| 0 <= i < |a| && a[i] == b[0];
        var j :| 0 <= j < |b| && b[j] == a[0];
        assert Less(a[0], b[0]);
        assert Less(b[0], a[0]);
        LessAsymmetric(a[0], b[0]);
        assert false;
      }
      forall x ensures x in Elements(a[1..]) <==> x in Elements(b[1..]) {
        if x in a[1..] {
          var i :| 1 <= i < |a| && a[i] == x;
          assert x in Elements(b);
        }
        if x in b[1..] {
          var j :| 1 <= j < |b| && b[j] == x;
          assert x in Elements(a);
        }
      }
      AscendingUnique(a[1..], b[1..]);
      assert a == [a[0]] + a[1..] && b == [b[0]] + b[1..];
    }
  }

  lemma {:induction false} AscendingExists(s: set<string>)
    ensures exists r :: Ascending(r) && Elements(r) == s
    decreases |s|
  {
    if s == {} {
      assert Ascending([]) && Elements([]) == s;
    } else {
      var k :| k in s;
      AscendingExists(s - {k});
      var r :| Ascending(r) && Elements(r) == s - {k};
      var r' := InsertOrdered(r, k);
      assert k !in Elements(r);
      InsertKeepsAscending(r, k);
      forall x ensures x in Elements(r') <==> x in s {
        calc {
          x in Elements(r');
          x in multiset(r');
          x in multiset(r) + multiset{k};
          x in r || x == k;
          x in Elements(r) || x == k;
          x in s;
        }
      }
      assert Ascending(r') && Elements(r') == s;
    }
  }

  /** The elements of a set of strings listed in strictly ascending order. */
  ghost function AscendingList(s: set<string>): (r: seq<string>)
    ensures Ascending(r) && Elements(r) == s
  {
    AscendingExists(s);
    var r :| Ascending(r) && Elements(r) == s; r
  }
}
