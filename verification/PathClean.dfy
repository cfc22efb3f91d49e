/** Go's `path.Clean`, and the shape of the paths it produces. */
module PathClean {
  import opened GoStrings

  /** Segments processed from the left onto a stack. */
  function Reduce(segs: seq<string>, rooted: bool, acc: seq<string>): seq<string>
    decreases |segs|
  {
    if segs == [] then acc
    else
      var seg, rest := segs[0], segs[1..];
      if seg == "" || seg == "." then Reduce(rest, rooted, acc)
      else if seg == ".." then
        if acc != [] && acc[|acc| - 1] != ".." then Reduce(rest, rooted, acc[..|acc| - 1])
        else if rooted then Reduce(rest, rooted, acc)
        else Reduce(rest, rooted, acc + [".."])
      else Reduce(rest, rooted, acc + [seg])
  }

  predicate Rooted(p: string) { p != "" && p[0] == '/' }

  function Clean(p: string): (r: string)
    ensures r != "" && (Rooted(p) ==> Rooted(r))
  {
    var body := Join(Reduce(Split(p, '/'), Rooted(p), []), '/');
    if Rooted(p) then "/" + body else if body == "" then "." else body
  }

  predicate Ordinary(seg: string) { seg != "" && seg != "." && seg != ".." && '/' !in seg }

  predicate AllOrdinary(segs: seq<string>) { forall s | s in segs :: Ordinary(s) }

  /** A rooted path with no empty, dot or dot-dot segment and no trailing slash. */
  predicate CleanPath(p: string) {
    Rooted(p) && (p == "/" || AllOrdinary(Split(p[1..], '/')))
  }

  lemma {:induction false} ReduceAppend(a: seq<string>, b: seq<string>, rooted: bool, acc: seq<string>)
    ensures Reduce(a + b, rooted, acc) == Reduce(b, rooted, Reduce(a, rooted, acc))
    decreases |a|
  {
    if a == [] {
      assert a + b == b;
    } else {
      assert (a + b)[0] == a[0] && (a + b)[1..] == a[1..] + b;
      var seg := a[0];
      if seg == "" || seg == "." {
        ReduceAppend(a[1..], b, rooted, acc);
      } else if seg == ".." {
        if acc != [] && acc[|acc| - 1] != ".." {
          ReduceAppend(a[1..], b, rooted, acc[..|acc| - 1]);
        } else if rooted {
          ReduceAppend(a[1..], b, rooted, acc);
        } else {
          ReduceAppend(a[1..], b, rooted, acc + [".."]);
        }
      } else {
        ReduceAppend(a[1..], b, rooted, acc + [seg]);
      }
    }
  }

  lemma {:induction false} ReduceOrdinary(segs: seq<string>, rooted: bool, acc: seq<string>)
    requires AllOrdinary(segs)
    ensures Reduce(segs, rooted, acc) == acc + segs
    decreases |segs|
  {
    if segs != [] {
      assert segs[0] in segs;
      ReduceOrdinary(segs[1..], rooted, acc + [segs[0]]);
      assert acc + [segs[0]] + segs[1..] == acc + segs;
    }
  }

  /** Some dot-dots, and only then ordinary segments. */
  predicate Climbing(segs: seq<string>) {
    forall i | 0 <= i < |segs| ::
      if segs[i] == ".." then forall j | 0 <= j < i :: segs[j] == ".." else Ordinary(segs[i])
  }

  /** A reduced stack climbs and then descends; a rooted one does not climb. */
  lemma {:induction false} ReduceShape(segs: seq<string>, rooted: bool, acc: seq<string>)
    requires forall s | s in segs :: '/' !in s
    requires Climbing(acc) && (rooted ==> AllOrdinary(acc))
    ensures Climbing(Reduce(segs, rooted, acc))
    ensures rooted ==> AllOrdinary(Reduce(segs, rooted, acc))
    decreases |segs|
  {
    if segs != [] {
      var seg, rest := segs[0], segs[1..];
      assert seg in segs;
      if seg == "" || seg == "." {
        ReduceShape(rest, rooted, acc);
      } else if seg == ".." {
        if acc != [] && acc[|acc| - 1] != ".." {
          ReduceShape(rest, rooted, acc[..|acc| - 1]);
        } else if rooted {
          ReduceShape(rest, rooted, acc);
        } else {
          ReduceShape(rest, rooted, acc + [".."]);
        }
      } else {
        ReduceShape(rest, rooted, acc + [seg]);
      }
    }
  }

  lemma JoinNonEmpty(segs: seq<string>)
    requires segs != [] && segs[0] != ""
    ensures Join(segs, '/') != "" && Join(segs, '/')[0] == segs[0][0]
  {
  }

  /** Cleaning a rooted path gives a clean path. */
  lemma CleanIsClean(p: string)
    requires Rooted(p)
    ensures CleanPath(Clean(p))
  {
    var out := Reduce(Split(p, '/'), true, []);
    ReduceShape(Split(p, '/'), true, []);
    var body := Join(out, '/');
    assert Clean(p)[1..] == body;
    if out != [] { SplitJoin(out, '/'); }
  }

  /** Cleaning a clean path changes nothing. */
  lemma CleanFixed(p: string)
    requires CleanPath(p)
    ensures Clean(p) == p
  {
    var segs := Split(p[1..], '/');
    assert p == "" + ['/'] + p[1..];
    SplitAppend("", p[1..], '/');
    assert Split(p, '/') == [""] + segs;
    assert ([""] + segs)[1..] == segs;
    assert Reduce([""] + segs, true, []) == Reduce(segs, true, []);
    if p == "/" {
      assert segs == [""] && [""][1..] == [];
      assert Reduce([""], true, []) == [];
    } else {
      ReduceOrdinary(segs, true, []);
      JoinSplit(p[1..], '/');
      assert [] + segs == segs;
    }
  }

  // ---- the rules of lexical cleaning ----

  lemma SplitAround(p: string, mid: string, rest: string)
    requires '/' !in mid
    ensures Split(p + "/" + mid + "/" + rest, '/') == Split(p, '/') + [mid] + Split(rest, '/')
    ensures Split(p + "/" + rest, '/') == Split(p, '/') + Split(rest, '/')
  {
    assert p + "/" + mid + "/" + rest == (p + "/" + mid) + ['/'] + rest;
    SplitAppend(p + "/" + mid, rest, '/');
    SplitAppend(p, mid, '/');
    SplitPlain(mid, '/');
    SplitAppend(p, rest, '/');
  }

  lemma RootedFront(p: string, x: string, y: string)
    ensures Rooted(p + "/" + x) == Rooted(p + "/" + y)
  {
    if p != "" { assert (p + "/" + x)[0] == p[0] == (p + "/" + y)[0]; }
  }

  /** An empty or dot segment in a path changes nothing. */
  lemma CleanDropsDots(p: string, rest: string)
    ensures Clean(p + "/./" + rest) == Clean(p + "/" + rest)
    ensures Clean(p + "//" + rest) == Clean(p + "/" + rest)
  {
    forall mid | mid in {".", ""} ensures Clean(p + "/" + mid + "/" + rest) == Clean(p + "/" + rest) {
      SplitAround(p, mid, rest);
      var a, b, rooted := Split(p, '/'), Split(rest, '/'), Rooted(p + "/" + rest);
      RootedFront(p, mid + "/" + rest, rest);
      assert p + "/" + mid + "/" + rest == p + "/" + (mid + "/" + rest);
      ReduceAppend(a + [mid], b, rooted, []);
      ReduceAppend(a, [mid], rooted, []);
      ReduceAppend(a, b, rooted, []);
      assert [mid][1..] == [];
    }
    assert p + "/" + "." + "/" + rest == p + "/./" + rest && p + "/" + "" + "/" + rest == p + "//" + rest;
  }

  lemma ReducePair(seg: string, rooted: bool, acc: seq<string>)
    requires Ordinary(seg)
    ensures Reduce([seg] + [".."], rooted, acc) == acc
  {
    assert ([seg] + [".."])[1..] == [".."] && [".."][1..] == [];
    assert (acc + [seg])[..|acc|] == acc;
    assert Reduce([".."], rooted, acc + [seg]) == Reduce([], rooted, acc);
  }

  /** A dot-dot segment takes back the ordinary segment before it. */
  lemma CleanDotDot(p: string, seg: string, rest: string)
    requires Ordinary(seg)
    ensures Clean(p + "/" + seg + "/../" + rest) == Clean(p + "/" + rest)
  {
    var a, b, rooted := Split(p, '/'), Split(rest, '/'), Rooted(p + "/" + rest);
    var whole := p + "/" + seg + "/../" + rest;
    assert whole == (p + "/" + seg) + "/" + ".." + "/" + rest;
    SplitAround(p + "/" + seg, "..", rest);
    SplitAppend(p, seg, '/');
    SplitPlain(seg, '/');
    SplitAppend(p, rest, '/');
    assert Split(whole, '/') == (a + ([seg] + [".."])) + b;
    assert whole == p + "/" + (seg + "/../" + rest);
    RootedFront(p, seg + "/../" + rest, rest);
    ReduceAppend(a + ([seg] + [".."]), b, rooted, []);
    ReduceAppend(a, [seg] + [".."], rooted, []);
    ReducePair(seg, rooted, Reduce(a, rooted, []));
    ReduceAppend(a, b, rooted, []);
  }

  /** At the root there is nothing to take back. */
  lemma CleanRootDotDot(rest: string)
    ensures Clean("/../" + rest) == Clean("/" + rest)
  {
    assert "/../" + rest == "" + "/" + ".." + "/" + rest && "/" + rest == "" + "/" + rest;
    SplitAround("", "..", rest);
    var b := Split(rest, '/');
    assert Split("", '/') == [""];
    ReduceAppend([""] + [".."], b, true, []);
    ReduceAppend([""], b, true, []);
    assert ([""] + [".."])[1..] == [".."] && [".."][1..] == [] && [""][1..] == [];
    assert Reduce([".."], true, []) == Reduce([], true, []) == [];
    assert Reduce([""] + [".."], true, []) == Reduce([".."], true, []);
    assert Reduce([""], true, []) == [];
  }

  /** A trailing slash changes nothing, except on the empty path. */
  lemma CleanTrailingSlash(p: string)
    requires p != ""
    ensures Clean(p + "/") == Clean(p)
  {
    assert p + "/" == p + ['/'] + "";
    SplitAppend(p, "", '/');
    ReduceAppend(Split(p, '/'), [""], Rooted(p), []);
    assert (p + "/")[0] == p[0] && [""][1..] == [];
  }

  /** At the front of a path that is not rooted, a dot segment, and an ordinary segment taken back, vanish. */
  lemma CleanFront(seg: string, rest: string)
    requires Ordinary(seg) && !Rooted(rest)
    ensures Clean("./" + rest) == Clean(rest)
    ensures Clean(seg + "/../" + rest) == Clean(rest)
  {
    var b := Split(rest, '/');
    assert "./" + rest == "." + ['/'] + rest;
    SplitAppend(".", rest, '/');
    SplitPlain(".", '/');
    assert ([["."][0]] + b)[1..] == b;
    assert seg + "/../" + rest == seg + "/" + ".." + "/" + rest;
    SplitAround(seg, "..", rest);
    SplitPlain(seg, '/');
    ReduceAppend([seg] + [".."], b, false, []);
    ReducePair(seg, false, []);
    assert (seg + "/../" + rest)[0] == seg[0] && seg[0] in seg;
  }

  lemma {:induction false} ReduceClimbing(segs: seq<string>, acc: seq<string>)
    requires Climbing(acc + segs)
    ensures Reduce(segs, false, acc) == acc + segs
    decreases |segs|
  {
    if segs != [] {
      var n := |acc|;
      assert (acc + segs)[n] == segs[0];
      if segs[0] == ".." && acc != [] { assert (acc + segs)[n - 1] == acc[n - 1] == ".."; }
      assert acc + [segs[0]] + segs[1..] == acc + segs;
      ReduceClimbing(segs[1..], acc + [segs[0]]);
    }
  }

  /** A path that is not rooted keeps its leading dot-dots: once nothing but dot-dots and then ordinary segments is
      left, cleaning changes nothing. Only the empty path cleans to a dot. */
  lemma CleanClimbing(p: string)
    requires p != "" && Climbing(Split(p, '/'))
    ensures Clean(p) == p
    ensures Clean("") == "."
  {
    var segs := Split(p, '/');
    ReduceClimbing(segs, []);
    assert [] + segs == segs;
    JoinSplit(p, '/');
    assert Split("", '/') == [""] && [""][1..] == [];
    assert Reduce([""], false, []) == [];
  }

  // ---- request paths ----

  /** normalizedPath. */
  function NormalizedPath(p: string): (r: string)
    ensures Rooted(r)
  {
    var c := Clean(p);
    if HasPrefix(c, "/") then c else "/" + c
  }

  lemma NormalizedRooted(p: string)
    requires Rooted(p)
    ensures CleanPath(NormalizedPath(p)) && NormalizedPath(p) == Clean(p)
  {
    CleanIsClean(p);
    assert HasPrefix(Clean(p), "/");
  }

  lemma NormalizedFixed(p: string)
    requires CleanPath(p)
    ensures NormalizedPath(p) == p
  {
    CleanFixed(p);
    assert HasPrefix(p, "/");
  }

  /** A request path that one normalization brings to rest. */
  predicate Settles(p: string) {
    Rooted(p) || Split(Clean(p), '/')[0] !in {".", ".."}
  }

  lemma UnrootedClean(p: string)
    requires !Rooted(p)
    ensures !Rooted(Clean(p))
    ensures Settles(p) <==> AllOrdinary(Split(Clean(p), '/'))
  {
    var out := Reduce(Split(p, '/'), false, []);
    ReduceShape(Split(p, '/'), false, []);
    if out == [] {
      assert Clean(p) == ".";
      SplitPlain(".", '/');
      assert "." in Split(Clean(p), '/');
    } else {
      assert Climbing(out);
      assert out[0] != "" && '/' !in out[0] by { assert out[0] == ".." || Ordinary(out[0]); }
      JoinNonEmpty(out);
      assert Clean(p) == Join(out, '/');
      assert forall s | s in out :: '/' !in s;
      SplitJoin(out, '/');
      assert out[0] in out;
      if Settles(p) {
        assert out[0] != "..";
        assert forall i | 0 <= i < |out| :: Ordinary(out[i]);
      }
    }
  }

  /** Normalizing twice is normalizing once exactly for the paths that settle: every rooted path, and every
      other path that does not clean to `.` or to something that starts with a `..` segment. */
  lemma NormalizedTwice(p: string)
    ensures NormalizedPath(NormalizedPath(p)) == NormalizedPath(p) <==> Settles(p)
    ensures CleanPath(NormalizedPath(p)) <==> Settles(p)
  {
    var q := NormalizedPath(p);
    if Rooted(p) {
      NormalizedRooted(p);
      NormalizedFixed(q);
    } else {
      UnrootedClean(p);
      assert q == "/" + Clean(p) && q[1..] == Clean(p);
      assert CleanPath(q) <==> Settles(p);
      NormalizedRooted(q);
      if CleanPath(q) { NormalizedFixed(q); }
    }
  }
}
