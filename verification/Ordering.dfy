/** String order and the sorting of distinct strings. */
module Ordering {

  /** `strings.Compare(a, b) < 0`. */
  predicate Less(a: string, b: string) {
    b != "" && (a == "" || a[0] < b[0] || (a[0] == b[0] && Less(a[1..], b[1..])))
  }

  /** The order of a dictionary: a text comes before one that it begins, and otherwise the first difference decides. */
  lemma {:induction false} LessExactly(a: string, b: string)
    ensures Less(a, b) <==> a < b || exists i :: FirstDifference(a, b, i) && a[i] < b[i]
  {
    if a != "" && b != "" {
      var x, y := a[1..], b[1..];
      assert a == [a[0]] + x && b == [b[0]] + y;
      if a[0] == b[0] {
        LessExactly(x, y);
        if i :| FirstDifference(a, b, i) && a[i] < b[i] { TailDifference(a, b, i - 1); }
        if i :| FirstDifference(x, y, i) && x[i] < y[i] { TailDifference(a, b, i); }
      } else {
        assert FirstDifference(a, b, 0);
      }
    }
  }

  lemma TailDifference(a: string, b: string, i: int)
    requires a != "" && b != "" && a[0] == b[0]
    ensures FirstDifference(a[1..], b[1..], i) <==> 0 <= i && FirstDifference(a, b, i + 1)
  {
    assert forall j | 0 < j < |a| :: a[1..][j - 1] == a[j];
    assert forall j | 0 < j < |b| :: b[1..][j - 1] == b[j];
    if FirstDifference(a[1..], b[1..], i) {
      forall j | 0 <= j < i + 1 ensures a[j] == b[j] {
        if j > 0 { assert a[1..][j - 1] == b[1..][j - 1]; }
      }
    }
  }

  ghost predicate FirstDifference(a: string, b: string, i: int) {
    0 <= i < |a| && i < |b| && a[i] != b[i] && forall j | 0 <= j < i :: a[j] == b[j]
  }

  lemma {:induction false} LessTotal(a: string, b: string)
    ensures a == b || Less(a, b) || Less(b, a)
  {
    if a != "" && b != "" && a[0] == b[0] {
      LessTotal(a[1..], b[1..]);
      assert a == [a[0]] + a[1..] && b == [b[0]] + b[1..];
    }
  }

  lemma {:induction false} LessIrreflexive(a: string)
    ensures !Less(a, a)
  {
    if a != "" { LessIrreflexive(a[1..]); }
  }

  lemma {:induction false} LessTransitive(a: string, b: string, c: string)
    requires Less(a, b) && Less(b, c)
    ensures Less(a, c)
  {
    if a != "" && a[0] == b[0] == c[0] { LessTransitive(a[1..], b[1..], c[1..]); }
  }

  lemma LessAsymmetric(a: string, b: string)
    requires Less(a, b)
    ensures !Less(b, a)
  {
    if Less(b, a) {
      LessTransitive(a, b, a);
      LessIrreflexive(a);
    }
  }

  ghost predicate Ascending(s: seq<string>) {
    forall i, j | 0 <= i < j < |s| :: Less(s[i], s[j])
  }

  ghost predicate Distinct<T>(s: seq<T>) {
    forall i, j | 0 <= i < j < |s| :: s[i] != s[j]
  }

  ghost function Elements<T>(s: seq<T>): set<T> { set x | x in s }

  lemma AscendingDistinct(s: seq<string>)
    requires Ascending(s)
    ensures Distinct(s)
  {
    forall i, j | 0 <= i < j < |s| ensures s[i] != s[j] { LessIrreflexive(s[i]); }
  }

  /** A set of strings has only one ascending enumeration. */
  lemma {:induction false} AscendingUnique(s: seq<string>, t: seq<string>)
    requires Ascending(s) && Ascending(t) && Elements(s) == Elements(t)
    ensures s == t
  {
    NoElements(t);
    if s != [] {
      assert s[0] in Elements(t);
      assert t != [] && t[0] in Elements(t) && t[0] in Elements(s);
      FirstsAgree(s, t);
      TailElements(s);
      TailElements(t);
      AscendingUnique(s[1..], t[1..]);
      assert s == [s[0]] + s[1..] && t == [t[0]] + t[1..];
    }
  }

  lemma NoElements<T>(s: seq<T>)
    ensures Elements(s) == {} <==> s == []
  {
    if s != [] { assert s[0] in Elements(s); }
  }

  lemma FirstsAgree(s: seq<string>, t: seq<string>)
    requires s != [] && t != [] && Ascending(s) && Ascending(t) && s[0] in t && t[0] in s
    ensures s[0] == t[0]
  {
    var i :| 0 <= i < |t| && t[i] == s[0];
    var j :| 0 <= j < |s| && s[j] == t[0];
    if 0 < i && 0 < j { LessAsymmetric(s[0], t[0]); }
  }

  lemma TailElements(s: seq<string>)
    requires s != [] && Ascending(s)
    ensures Elements(s[1..]) == Elements(s) - {s[0]}
  {
    AscendingDistinct(s);
    forall x | x in Elements(s) - {s[0]} ensures x in Elements(s[1..]) {
      var i :| 0 <= i < |s| && s[i] == x;
      assert s[1..][i - 1] == x;
    }
  }

  // ---- sorting ----

  function Insert(x: string, s: seq<string>): (r: seq<string>)
    ensures multiset(r) == multiset(s) + multiset{x}
  {
    if s == [] then [x]
    else if Less(x, s[0]) then [x] + s
    else
      assert s == [s[0]] + s[1..];
      [s[0]] + Insert(x, s[1..])
  }

  /** `list.Sort(strings.Compare)`. */
  function Sort(s: seq<string>): (r: seq<string>)
    ensures multiset(r) == multiset(s)
  {
    if s == [] then []
    else
      assert s == [s[0]] + s[1..];
      Insert(s[0], Sort(s[1..]))
  }

  lemma SameElements(s: seq<string>, t: seq<string>)
    requires multiset(s) == multiset(t)
    ensures Elements(s) == Elements(t) && |s| == |t|
  {
    assert forall x :: x in s <==> x in multiset(s);
    assert forall x :: x in t <==> x in multiset(t);
    assert |s| == |multiset(s)| == |multiset(t)| == |t|;
  }

  lemma {:induction false} InsertAscending(x: string, s: seq<string>)
    requires Ascending(s) && x !in s
    ensures Ascending(Insert(x, s))
  {
    if s != [] {
      var r := Insert(x, s);
      if Less(x, s[0]) {
        forall j | 0 < j < |r| ensures Less(x, r[j]) {
          assert r[j] == s[j - 1];
          if j > 1 { LessTransitive(x, s[0], s[j - 1]); }
        }
      } else {
        LessTotal(x, s[0]);
        InsertAscending(x, s[1..]);
        var t := Insert(x, s[1..]);
        forall j | 0 <= j < |t| ensures Less(s[0], t[j]) {
          assert t[j] in multiset(t);
          if t[j] != x {
            assert t[j] in s[1..];
            var k :| 0 <= k < |s[1..]| && s[1..][k] == t[j];
            assert Less(s[0], s[k + 1]);
          }
        }
      }
    }
  }

  lemma {:induction false} SortAscending(s: seq<string>)
    requires Distinct(s)
    ensures Ascending(Sort(s))
  {
    if s != [] {
      SortAscending(s[1..]);
      SameElements(Sort(s[1..]), s[1..]);
      assert s[0] !in s[1..];
      assert s[0] !in Elements(s[1..]);
      InsertAscending(s[0], Sort(s[1..]));
    }
  }

  /** Every finite set of strings has an ascending enumeration. */
  lemma {:induction false} ListingExists(keys: set<string>) returns (order: seq<string>)
    ensures Ascending(order) && Elements(order) == keys
  {
    if keys == {} {
      order := [];
    } else {
      var x :| x in keys;
      var rest := ListingExists(keys - {x});
      assert forall y | y in rest :: y in Elements(rest);
      order := Insert(x, rest);
      InsertAscending(x, rest);
      assert forall y :: y in order <==> y in multiset(order);
      assert forall y :: y in rest <==> y in multiset(rest);
      assert forall y :: y in Elements(rest) <==> y in rest;
    }
  }

  /** The keys of a Go map, listed in an unspecified order and then sorted. */
  method SortedKeys(keys: set<string>) returns (ids: seq<string>)
    ensures Ascending(ids) && Elements(ids) == keys
  {
    ids := [];
    var left := keys;
    while left != {}
      invariant left <= keys && Distinct(ids) && Elements(ids) == keys - left
      decreases |left|
    {
      var k :| k in left;
      assert forall i | 0 <= i < |ids| :: ids[i] in Elements(ids);
      ghost var was := ids;
      ids, left := ids + [k], left - {k};
      assert Elements(ids) == Elements(was) + {k};
    }
    SortAscending(ids);
    SameElements(Sort(ids), ids);
    ids := Sort(ids);
  }
}
