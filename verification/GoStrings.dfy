/** Values shared by every component: optional results and machine words. */
module Common {
  datatype Option<+T> = None | Some(value: T)

  const TWO_TO_THE_64: int := 0x1_0000_0000_0000_0000

  /** A `uint64`. */
  type Word64 = w: int | 0 <= w < TWO_TO_THE_64

  /** The first index whose element satisfies `p`, or the length. */
  function FirstIndex<T>(xs: seq<T>, p: T -> bool): (i: nat)
    ensures i <= |xs| && (i < |xs| ==> p(xs[i]))
    ensures forall j | 0 <= j < i :: !p(xs[j])
  {
    if xs == [] || p(xs[0]) then 0 else 1 + FirstIndex(xs[1..], p)
  }

  /** One more than the last index whose element satisfies `p`, or zero. */
  function LastIndex<T>(xs: seq<T>, p: T -> bool): (i: nat)
    ensures i <= |xs| && (i > 0 ==> p(xs[i - 1]))
    ensures forall j | i <= j < |xs| :: !p(xs[j])
  {
    if xs == [] || p(xs[|xs| - 1]) then |xs| else LastIndex(xs[..|xs| - 1], p)
  }

  /** `rows` are what those of `xs`, and only those, give that give something, in the order of `xs`: `at` says where
      each row comes from. */
  ghost predicate Picks<T, V>(xs: seq<T>, f: T -> Option<V>, rows: seq<V>, at: seq<int>) {
    && |at| == |rows|
    && (forall m | 0 <= m < |at| :: 0 <= at[m] < |xs| && f(xs[at[m]]) == Some(rows[m]))
    && (forall m, n | 0 <= m < n < |at| :: at[m] < at[n])
    && (forall k | 0 <= k < |xs| && f(xs[k]).Some? :: k in at)
  }

  lemma PicksAppend<T, V>(
    f: T -> Option<V>, a: seq<T>, x: seq<V>, p: seq<int>, b: seq<T>, y: seq<V>, q: seq<int>) returns (at: seq<int>)
    requires Picks(a, f, x, p) && Picks(b, f, y, q)
    ensures Picks(a + b, f, x + y, at)
  {
    var moved := Moved(q, |a|);
    at := p + moved;
    forall m | 0 <= m < |at| ensures 0 <= at[m] < |a + b| && f((a + b)[at[m]]) == Some((x + y)[m]) {
      if m < |p| { assert at[m] == p[m]; } else { assert at[m] == q[m - |p|] + |a|; }
    }
    forall m, n | 0 <= m < n < |at| ensures at[m] < at[n] {
      if n < |p| { assert at[m] == p[m] && at[n] == p[n]; }
      else if |p| <= m { assert at[m] == q[m - |p|] + |a| && at[n] == q[n - |p|] + |a|; }
      else { assert at[m] == p[m] && at[n] == q[n - |p|] + |a|; }
    }
    forall k | 0 <= k < |a + b| && f((a + b)[k]).Some? ensures k in at {
      if k < |a| {
        assert k in p;
      } else {
        assert k - |a| in q;
        var m :| 0 <= m < |q| && q[m] == k - |a|;
        assert at[|p| + m] == k;
      }
    }
  }

  function Moved(q: seq<int>, offset: int): (r: seq<int>)
    ensures |r| == |q| && forall m | 0 <= m < |q| :: r[m] == q[m] + offset
  {
    seq(|q|, m requires 0 <= m < |q| => q[m] + offset)
  }

  function AsSeq<V>(v: Option<V>): seq<V> { if v.None? then [] else [v.value] }

  lemma OnePicked<T, V>(f: T -> Option<V>, x: T) returns (at: seq<int>)
    ensures Picks([x], f, AsSeq(f(x)), at)
  {
    at := if f(x).Some? then [0] else [];
  }

  /** `uint64` increment, which wraps. */
  function Increment(w: Word64): (r: Word64)
    ensures r != w
  {
    (w + 1) % TWO_TO_THE_64
  }
}

/** The parts of Go's `strings` and `strconv` packages that the orchestrator relies on. */
module GoStrings {

  /** `unicode.IsSpace`. */
  predicate IsSpace(c: char) {
    var n := c as int;
    || 9 <= n <= 13 || n == 32 || n == 0x85 || n == 0xA0 || n == 0x1680
    || 0x2000 <= n <= 0x200A || n == 0x2028 || n == 0x2029 || n == 0x202F || n == 0x205F || n == 0x3000
  }

  predicate IsDot(c: char) { c == '.' }

  predicate IsSlash(c: char) { c == '/' }

  predicate HasPrefix(s: string, p: string) { p <= s }

  predicate HasSuffix(s: string, p: string) { |p| <= |s| && s[|s| - |p|..] == p }

  function TrimPrefix(s: string, p: string): string {
    if HasPrefix(s, p) then s[|p|..] else s
  }

  function TrimSuffix(s: string, p: string): string {
    if HasSuffix(s, p) then s[..|s| - |p|] else s
  }

  function TrimLeft(s: string, cut: char -> bool): (r: string)
    ensures |r| <= |s|
    ensures r == "" || (!cut(r[0]) && r[|r| - 1] == s[|s| - 1])
  {
    if s != "" && cut(s[0]) then TrimLeft(s[1..], cut) else s
  }

  function TrimRight(s: string, cut: char -> bool): (r: string)
    ensures |r| <= |s|
    ensures r == "" || (!cut(r[|r| - 1]) && r[0] == s[0])
  {
    if s != "" && cut(s[|s| - 1]) then TrimRight(s[..|s| - 1], cut) else s
  }

  /** `strings.TrimFunc`, which also stands for `strings.Trim` with a one-character cut set. */
  function Trim(s: string, cut: char -> bool): (r: string)
    ensures |r| <= |s|
    ensures r == "" || (!cut(r[0]) && !cut(r[|r| - 1]))
    ensures s == "" || (!cut(s[0]) && !cut(s[|s| - 1])) ==> r == s
  {
    TrimRight(TrimLeft(s, cut), cut)
  }

  function TrimSpace(s: string): string { Trim(s, IsSpace) }

  predicate AllOf(s: string, cut: char -> bool) { forall i | 0 <= i < |s| :: cut(s[i]) }

  lemma {:induction false} TrimLeftSplits(s: string, cut: char -> bool) returns (front: string)
    ensures s == front + TrimLeft(s, cut) && AllOf(front, cut)
  {
    front := "";
    if s != "" && cut(s[0]) {
      var f := TrimLeftSplits(s[1..], cut);
      front := [s[0]] + f;
      assert s == [s[0]] + s[1..] == front + TrimLeft(s[1..], cut);
    }
  }

  lemma {:induction false} TrimRightSplits(s: string, cut: char -> bool) returns (back: string)
    ensures s == TrimRight(s, cut) + back && AllOf(back, cut)
  {
    back := "";
    if s != "" && cut(s[|s| - 1]) {
      var b := TrimRightSplits(s[..|s| - 1], cut);
      back := b + [s[|s| - 1]];
      assert s == s[..|s| - 1] + [s[|s| - 1]];
    }
  }

  ghost predicate Trims(s: string, cut: char -> bool, front: string, r: string, back: string) {
    && s == front + r + back && AllOf(front, cut) && AllOf(back, cut)
    && (r == "" || (!cut(r[0]) && !cut(r[|r| - 1])))
  }

  /** Trimming drops characters of the cut set from both ends, and only those. */
  lemma TrimExactly(s: string, cut: char -> bool)
    ensures exists front, back :: Trims(s, cut, front, Trim(s, cut), back)
  {
    var front := TrimLeftSplits(s, cut);
    var back := TrimRightSplits(TrimLeft(s, cut), cut);
    assert s == front + Trim(s, cut) + back;
    assert Trims(s, cut, front, Trim(s, cut), back);
  }

  /** Trimming a trimmed string changes nothing. */
  lemma TrimSpaceIdempotent(s: string)
    ensures TrimSpace(TrimSpace(s)) == TrimSpace(s)
  {
  }

  function LowerChar(c: char): char {
    if 'A' <= c <= 'Z' then c + 32 as char else c
  }

  function ToLower(s: string): (r: string)
    ensures |r| == |s|
    ensures forall i | 0 <= i < |s| :: r[i] == LowerChar(s[i])
  {
    seq(|s|, i requires 0 <= i < |s| => LowerChar(s[i]))
  }

  /** A lowered text has no capital letters, each small letter is the one with the capital's place in the alphabet,
      and nothing else is touched. */
  lemma LowerExactly(s: string, i: nat)
    requires i < |s|
    ensures var c, d := s[i], ToLower(s)[i];
      if 'A' <= c <= 'Z' then 'a' <= d <= 'z' && d as int - 'a' as int == c as int - 'A' as int else d == c
  {
  }

  /** The pieces of a text with one more character in front. */
  function Prepended(c: char, pieces: seq<string>, sep: char): seq<string>
    requires pieces != []
  {
    if c == sep then [""] + pieces else [[c] + pieces[0]] + pieces[1..]
  }

  /** `strings.Split` on a one-character separator: always at least one piece. */
  function Split(s: string, sep: char): (parts: seq<string>)
    ensures |parts| >= 1
    ensures forall p | p in parts :: sep !in p
  {
    if s == "" then [""] else Prepended(s[0], Split(s[1..], sep), sep)
  }

  function Join(parts: seq<string>, sep: char): string {
    if parts == [] then ""
    else if |parts| == 1 then parts[0]
    else parts[0] + [sep] + Join(parts[1..], sep)
  }

  lemma {:induction false} SplitPlain(s: string, sep: char)
    requires sep !in s
    ensures Split(s, sep) == [s]
  {
    if s != "" {
      SplitPlain(s[1..], sep);
      assert [s[0]] + s[1..] == s;
    }
  }

  lemma SplitStep(c: char, t: string, sep: char)
    ensures Split([c] + t, sep) == Prepended(c, Split(t, sep), sep)
  {
    assert ([c] + t)[1..] == t;
  }

  lemma PrependedAppend(c: char, p: seq<string>, q: seq<string>, sep: char)
    requires p != []
    ensures Prepended(c, p + q, sep) == Prepended(c, p, sep) + q
  {
    assert (p + q)[1..] == p[1..] + q;
  }

  /** Splitting distributes over a separator. */
  lemma {:induction false} SplitAppend(a: string, b: string, sep: char)
    ensures Split(a + [sep] + b, sep) == Split(a, sep) + Split(b, sep)
  {
    if a == "" {
      assert a + [sep] + b == [sep] + b;
      SplitStep(sep, b, sep);
    } else {
      var c, t := a[0], a[1..];
      assert a + [sep] + b == [c] + (t + [sep] + b);
      SplitStep(c, t + [sep] + b, sep);
      SplitAppend(t, b, sep);
      PrependedAppend(c, Split(t, sep), Split(b, sep), sep);
    }
  }

  lemma {:induction false} SplitJoin(parts: seq<string>, sep: char)
    requires |parts| >= 1
    requires forall p | p in parts :: sep !in p
    ensures Split(Join(parts, sep), sep) == parts
  {
    SplitPlain(parts[0], sep);
    if |parts| > 1 {
      SplitJoin(parts[1..], sep);
      SplitAppend(parts[0], Join(parts[1..], sep), sep);
    }
  }

  lemma {:induction false} JoinSplit(s: string, sep: char)
    ensures Join(Split(s, sep), sep) == s
  {
    if s != "" {
      JoinSplit(s[1..], sep);
      var rest := Split(s[1..], sep);
      if s[0] == sep {
        assert Split(s, sep)[1..] == rest;
      } else {
        assert Split(s, sep)[1..] == rest[1..];
      }
    }
  }

  lemma SameEnd(a: string, b: string, t: string)
    requires a + t == b + t
    ensures a == b
  {
    assert |a| == |b| by { assert |a + t| == |b + t|; }
    assert a == (a + t)[..|a|] && b == (b + t)[..|b|];
  }

  /** A separator that does not occur in the tails splits two equal strings at the same place. */
  lemma LastSeparator(p: string, x: string, q: string, y: string, sep: char)
    requires p + [sep] + x == q + [sep] + y
    requires sep !in x && sep !in y
    ensures p == q && x == y
  {
    var a := p + [sep] + x;
    assert a[|p|] == sep && a[|q|] == sep;
    assert forall k | |p| < k < |a| :: a[k] == x[k - |p| - 1];
    assert forall k | |q| < k < |a| :: a[k] == y[k - |q| - 1];
    assert |p| == |q|;
    assert p == a[..|p|] && q == a[..|q|];
    assert x == a[|p| + 1..] && y == a[|q| + 1..];
  }

  /** A separator that does not occur in the fronts splits two equal strings at the same place. */
  lemma FirstSeparator(p: string, x: string, q: string, y: string, sep: char)
    requires sep !in p && sep !in q && p + [sep] + x == q + [sep] + y
    ensures p == q && x == y
  {
    SplitAppend(p, x, sep);
    SplitAppend(q, y, sep);
    SplitPlain(p, sep);
    SplitPlain(q, sep);
    assert Split(p + [sep] + x, sep)[0] == p && Split(q + [sep] + y, sep)[0] == q;
    assert x == (p + [sep] + x)[|p| + 1..] && y == (q + [sep] + y)[|q| + 1..];
  }

  predicate IsDigit(c: char) { '0' <= c <= '9' }

  function Digits(n: nat): (s: string)
    ensures |s| >= 1 && forall c | c in s :: IsDigit(c)
  {
    if n < 10 then ['0' + n as char] else Digits(n / 10) + ['0' + (n % 10) as char]
  }

  /** `strconv.Itoa`. */
  function Itoa(n: int): (s: string)
    ensures |s| >= 1 && forall c | c in s :: c == '-' || IsDigit(c)
  {
    if n < 0 then "-" + Digits(-n) else Digits(n)
  }

  /** The number that decimal digits denote. */
  function Value(s: string): int {
    if s == "" then 0 else 10 * Value(s[..|s| - 1]) + (s[|s| - 1] as int - '0' as int)
  }

  lemma {:induction false} DigitsDenote(n: nat)
    ensures Value(Digits(n)) == n
  {
    if n < 10 {
      assert Digits(n)[..0] == "";
    } else {
      assert Digits(n)[..|Digits(n)| - 1] == Digits(n / 10);
      DigitsDenote(n / 10);
    }
  }

  lemma {:induction false} DigitsInjective(m: nat, n: nat)
    requires Digits(m) == Digits(n)
    ensures m == n
  {
    var s := Digits(m);
    if 10 <= m && 10 <= n {
      assert s[..|s| - 1] == Digits(m / 10) == Digits(n / 10);
      DigitsInjective(m / 10, n / 10);
    }
  }

  lemma ItoaInjective(m: int, n: int)
    requires Itoa(m) == Itoa(n)
    ensures m == n
  {
    if m < 0 && n < 0 {
      assert Itoa(m)[1..] == Digits(-m) && Itoa(n)[1..] == Digits(-n);
      DigitsInjective(-m, -n);
    } else if m >= 0 && n >= 0 {
      DigitsInjective(m, n);
    } else {
      assert Itoa(m)[0] == Itoa(n)[0];
      var k := if m < 0 then n else m;
      assert Digits(k)[0] in Digits(k);
    }
  }
}
