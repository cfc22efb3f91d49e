/** Matching a request path against a route and rewriting it for the upstream. */
module Routing {
  import opened Common
  import opened GoStrings
  import opened PathClean

  /** A compiled ingress row. */
  datatype IngressRoute = IngressRoute(pathPrefix: string, upstream: string, stripPrefix: string)

  datatype RouteMeta = RouteMeta(prefixNorm: string, stripPath: string)

  function NormalizePathPrefix(raw: string): (p: string)
    ensures Rooted(p)
  {
    var t := TrimSpace(raw);
    if t == "" || t == "/" then "/"
    else
      var q := if HasPrefix(t, "/") then t else "/" + t;
      if q != "/" then
        assert HasSuffix(q, "/") && |q| == 1 ==> q == "/";
        TrimSuffix(q, "/")
      else q
  }

  function StripPath(strip: string): (r: string)
    ensures Rooted(r)
  {
    var c := Clean(strip);
    if c != "/" && !HasPrefix(c, "/") then "/" + c else c
  }

  /** newRouteMeta, which refuses a route without an upstream. */
  function NewRouteMeta(r: IngressRoute): Option<RouteMeta> {
    if TrimSpace(r.upstream) == "" then None
    else
      var pp := NormalizePathPrefix(r.pathPrefix);
      if pp == "/" then Some(RouteMeta("", "/"))
      else
        var strip := TrimSpace(r.stripPrefix);
        Some(RouteMeta(Trim(TrimPrefix(pp, "/"), IsSlash), StripPath(if strip == "" then pp else strip)))
  }

  predicate Matches(m: RouteMeta, reqPath: string) {
    || m.prefixNorm == ""
    || reqPath == "/" + m.prefixNorm
    || HasPrefix(reqPath, "/" + m.prefixNorm + "/")
  }

  /** pathRel: the path sent upstream, or None when the strip prefix is not there. */
  function PathRel(m: RouteMeta, reqPath: string): Option<string> {
    if m.prefixNorm == "" then Some(reqPath)
    else if !HasPrefix(reqPath, m.stripPath) then None
    else
      var rel := TrimPrefix(reqPath, m.stripPath);
      if rel == "" then Some("/") else if HasPrefix(rel, "/") then Some(rel) else Some("/" + rel)
  }

  /** The rewriting handler: None is a 404. */
  function Rewrite(m: RouteMeta, urlPath: string): Option<string> {
    var p := NormalizedPath(urlPath);
    if Matches(m, p) then PathRel(m, p) else None
  }

  // ---- matching and stripping, segment by segment ----

  lemma MatchIsSegments(norm: string, q: string)
    requires q == norm || HasPrefix(q, norm + "/")
    ensures Split(norm, '/') <= Split(q, '/')
  {
    if q != norm {
      var tail := q[|norm| + 1..];
      assert q == norm + ['/'] + tail;
      SplitAppend(norm, tail, '/');
    }
  }

  lemma SegmentsAreMatch(norm: string, q: string)
    requires Split(norm, '/') <= Split(q, '/')
    ensures q == norm || HasPrefix(q, norm + "/")
  {
    var a, b := Split(norm, '/'), Split(q, '/');
    var rest := b[|a|..];
    JoinSplit(norm, '/');
    JoinSplit(q, '/');
    assert b == a + rest;
    if rest == [] {
      assert b == a;
    } else {
      JoinAppend(a, rest);
      assert q == (norm + "/") + Join(rest, '/');
    }
  }

  lemma UnderSlash(norm: string, p: string)
    requires Rooted(p)
    ensures p == "/" + norm <==> p[1..] == norm
    ensures HasPrefix(p, "/" + norm + "/") <==> HasPrefix(p[1..], norm + "/")
  {
    assert p == "/" + p[1..];
    assert "/" + norm + "/" == "/" + (norm + "/");
    if HasPrefix(p, "/" + (norm + "/")) { assert p[1..][..|norm| + 1] == norm + "/"; }
    if HasPrefix(p[1..], norm + "/") { assert p[..|norm| + 2] == "/" + (norm + "/"); }
  }

  /** A rooted path matches a prefix exactly when the prefix's segments begin the path's segments. */
  lemma MatchesExactly(m: RouteMeta, p: string)
    requires Rooted(p) && m.prefixNorm != ""
    ensures Matches(m, p) <==> Split(m.prefixNorm, '/') <= Split(p[1..], '/')
  {
    UnderSlash(m.prefixNorm, p);
    if Matches(m, p) { MatchIsSegments(m.prefixNorm, p[1..]); }
    if Split(m.prefixNorm, '/') <= Split(p[1..], '/') { SegmentsAreMatch(m.prefixNorm, p[1..]); }
  }

  lemma {:induction false} JoinAppend(a: seq<string>, b: seq<string>)
    requires a != [] && b != []
    ensures Join(a + b, '/') == Join(a, '/') + "/" + Join(b, '/')
  {
    if |a| > 1 {
      assert (a + b)[0] == a[0] && (a + b)[1..] == a[1..] + b;
      JoinAppend(a[1..], b);
    } else {
      assert (a + b)[1..] == b;
    }
  }

  /** What is left of a path below its strip prefix: the rest, with a slash in front if it has none. */
  ghost predicate Below(strip: string, p: string, rel: string) {
    exists tail :: p == strip + tail && (if HasPrefix(tail, "/") then rel == tail else rel == "/" + tail)
  }

  /** A path is stripped exactly when it begins with the strip prefix, and to what is left below it. */
  lemma PathRelExactly(m: RouteMeta, p: string, rel: string)
    requires m.prefixNorm != ""
    ensures PathRel(m, p) == Some(rel) <==> Below(m.stripPath, p, rel)
  {
    if HasPrefix(p, m.stripPath) {
      var tail := p[|m.stripPath|..];
      assert p == m.stripPath + tail;
      assert "/" + "" == "/";
    }
    if Below(m.stripPath, p, rel) {
      var tail :| p == m.stripPath + tail && (if HasPrefix(tail, "/") then rel == tail else rel == "/" + tail);
      assert p[|m.stripPath|..] == tail;
    }
  }

  /** What the rewriting handler sends upstream: at the root prefix the normalized path itself; below a prefix, what
      is left of it under the strip path, if the prefix's segments begin its segments; a 404 otherwise. */
  lemma RewriteExactly(m: RouteMeta, urlPath: string, rel: string)
    ensures var p := NormalizedPath(urlPath);
      Rewrite(m, urlPath) == Some(rel) <==>
        if m.prefixNorm == "" then rel == p
        else Split(m.prefixNorm, '/') <= Split(p[1..], '/') && Below(m.stripPath, p, rel)
  {
    var p := NormalizedPath(urlPath);
    if m.prefixNorm != "" {
      MatchesExactly(m, p);
      PathRelExactly(m, p, rel);
    }
  }

  /** An accepted route's prefix is its path prefix without the spaces, and then without the slashes, around it. Its
      strip path is the cleaned strip prefix, or the cleaned prefix if that is blank. */
  lemma MetaExactly(r: IngressRoute)
    ensures NewRouteMeta(r).Some? <==> TrimSpace(r.upstream) != ""
    ensures NewRouteMeta(r).Some? ==>
      var m, strip := NewRouteMeta(r).value, TrimSpace(r.stripPrefix);
      && m.prefixNorm == Trim(TrimSpace(r.pathPrefix), IsSlash)
      && (m.prefixNorm != "" ==> m.stripPath == NormalizedPath(if strip == "" then "/" + m.prefixNorm else strip))
  {
    if TrimSpace(r.upstream) != "" {
      MetaShape(r);
      PrefixTrimmed(TrimSpace(r.pathPrefix));
      var pp, norm := NormalizePathPrefix(r.pathPrefix), NewRouteMeta(r).value.prefixNorm;
      if norm != "" && TrimSpace(r.stripPrefix) == "" { CleanOfPrefix(pp, norm); }
    }
  }

  lemma TrimSlash(t: string)
    ensures HasPrefix(t, "/") ==> Trim(t[1..], IsSlash) == Trim(t, IsSlash)
    ensures HasSuffix(t, "/") ==> Trim(t[..|t| - 1], IsSlash) == Trim(t, IsSlash)
  {
    if HasSuffix(t, "/") { TrimLeftButLast(t); }
  }

  lemma {:induction false} TrimLeftButLast(t: string)
    requires t != "" && t[|t| - 1] == '/'
    ensures TrimRight(TrimLeft(t[..|t| - 1], IsSlash), IsSlash) == TrimRight(TrimLeft(t, IsSlash), IsSlash)
  {
    if t[0] == '/' && |t| > 1 {
      assert t[..|t| - 1][1..] == t[1..][..|t| - 2];
      TrimLeftButLast(t[1..]);
    }
  }

  lemma PrefixTrimmed(t: string)
    ensures var q := if HasPrefix(t, "/") then t else "/" + t;
      Trim(TrimSuffix(q, "/"), IsSlash) == Trim(q, IsSlash) == Trim(t, IsSlash)
  {
    var q := if HasPrefix(t, "/") then t else "/" + t;
    if !HasPrefix(t, "/") { assert q[1..] == t && q[0] == '/'; }
    TrimSlash(q);
  }

  lemma CleanOfPrefix(pp: string, norm: string)
    requires Rooted(pp) && norm == Trim(pp[1..], IsSlash) && norm != ""
    ensures StripPath(pp) == NormalizedPath("/" + norm)
  {
    ReduceTrimmed(pp);
    ReduceTrimmed("/" + norm);
    assert ("/" + norm)[1..] == norm;
    assert Clean(pp) == Clean("/" + norm);
    assert HasPrefix(Clean(pp), "/");
  }

  // ---- prefixes ----

  lemma {:induction false} ReduceTrimLeft(x: string, acc: seq<string>)
    ensures Reduce(Split(TrimLeft(x, IsSlash), '/'), true, acc) == Reduce(Split(x, '/'), true, acc)
  {
    if x != "" && IsSlash(x[0]) {
      assert Split(x, '/')[1..] == Split(x[1..], '/');
      ReduceTrimLeft(x[1..], acc);
    }
  }

  lemma {:induction false} ReduceTrimRight(x: string, acc: seq<string>)
    ensures Reduce(Split(TrimRight(x, IsSlash), '/'), true, acc) == Reduce(Split(x, '/'), true, acc)
  {
    if x != "" && IsSlash(x[|x| - 1]) {
      var y := x[..|x| - 1];
      assert x == y + ['/'] + "";
      SplitAppend(y, "", '/');
      ReduceAppend(Split(y, '/'), [""], true, acc);
      assert Reduce([""], true, Reduce(Split(y, '/'), true, acc)) == Reduce(Split(y, '/'), true, acc) by {
        assert [""][1..] == [];
      }
      ReduceTrimRight(y, acc);
    }
  }

  /** A prefix that matches some clean path is itself made of ordinary segments. */
  lemma MatchedPrefixIsOrdinary(prefixNorm: string, p: string)
    requires CleanPath(p) && prefixNorm != "" && Matches(RouteMeta(prefixNorm, "/"), p)
    ensures AllOrdinary(Split(prefixNorm, '/'))
  {
    var base := "/" + prefixNorm;
    if p == base {
      assert p[1..] == prefixNorm;
    } else {
      var rest := p[|base| + 1..];
      assert p == base + "/" + rest;
      assert p[1..] == prefixNorm + ['/'] + rest;
      SplitAppend(prefixNorm, rest, '/');
      assert forall s | s in Split(prefixNorm, '/') :: s in Split(p[1..], '/');
    }
  }

  /** Slashes around a rooted path do not matter to cleaning. */
  lemma ReduceTrimmed(pp: string)
    requires Rooted(pp)
    ensures Reduce(Split(pp, '/'), true, []) == Reduce(Split(Trim(pp[1..], IsSlash), '/'), true, [])
  {
    var x := pp[1..];
    assert pp == "" + ['/'] + x;
    SplitAppend("", x, '/');
    assert Split(pp, '/') == [""] + Split(x, '/');
    assert Split(pp, '/')[1..] == Split(x, '/');
    ReduceTrimLeft(x, []);
    ReduceTrimRight(TrimLeft(x, IsSlash), []);
  }

  /** However the prefix is written (extra slashes at either end included), cleaning it gives back exactly
      the matched base. */
  lemma CleanedPrefix(pp: string)
    requires Rooted(pp) && AllOrdinary(Split(Trim(pp[1..], IsSlash), '/'))
    ensures Clean(pp) == "/" + Trim(pp[1..], IsSlash)
  {
    var norm := Trim(pp[1..], IsSlash);
    ReduceTrimmed(pp);
    ReduceOrdinary(Split(norm, '/'), true, []);
    assert [] + Split(norm, '/') == Split(norm, '/');
    JoinSplit(norm, '/');
  }

  predicate HasUpstream(r: IngressRoute) { TrimSpace(r.upstream) != "" }

  lemma MetaShape(r: IngressRoute)
    requires HasUpstream(r)
    ensures var m, pp := NewRouteMeta(r).value, NormalizePathPrefix(r.pathPrefix);
      && NewRouteMeta(r).Some?
      && m.prefixNorm == Trim(pp[1..], IsSlash)
      && (m.prefixNorm != "" ==>
            m.stripPath == StripPath(if TrimSpace(r.stripPrefix) == "" then pp else TrimSpace(r.stripPrefix)))
  {
    var pp := NormalizePathPrefix(r.pathPrefix);
    assert TrimPrefix(pp, "/") == pp[1..];
    assert pp == "/" ==> pp[1..] == "";
  }

  lemma StripBase(norm: string, p: string)
    requires CleanPath(p) && norm != "" && Matches(RouteMeta(norm, "/" + norm), p)
    ensures var rel := PathRel(RouteMeta(norm, "/" + norm), p);
      && rel.Some? && Rooted(rel.value)
      && if p == "/" + norm then rel.value == "/" else "/" + norm + rel.value == p
  {
    var base := "/" + norm;
    if p != base {
      assert p[..|base| + 1] == base + "/";
      assert TrimPrefix(p, base) == p[|base|..];
      assert p[|base|] == '/';
    }
  }

  lemma CleanTail(p: string)
    requires CleanPath(p)
    ensures !HasPrefix(p[1..], "/")
  {
    var parts := Split(p[1..], '/');
    assert parts[0] in parts;
    if p != "/" { FirstPiece(p[1..]); }
  }

  lemma FirstPiece(s: string)
    requires s != ""
    ensures HasPrefix(s, "/") <==> Split(s, '/')[0] == ""
  {
  }

  lemma StripSlash(norm: string, p: string)
    requires CleanPath(p) && norm != "" && Matches(RouteMeta(norm, "/"), p)
    ensures PathRel(RouteMeta(norm, "/"), p) == Some(p)
  {
    CleanTail(p);
    assert TrimPrefix(p, "/") == p[1..];
    assert "/" + p[1..] == p;
  }

  /** With the default strip prefix, every clean path that matches is stripped, and the matched base followed
      by the result is the path again; a path equal to the base becomes `/`. */
  lemma DefaultStripRebuilds(r: IngressRoute, p: string)
    requires HasUpstream(r) && TrimSpace(r.stripPrefix) == "" && CleanPath(p)
    requires Matches(NewRouteMeta(r).value, p)
    ensures var m := NewRouteMeta(r).value;
      var rel := PathRel(m, p);
      && rel.Some? && Rooted(rel.value)
      && if m.prefixNorm == "" then rel.value == p
         else if p == "/" + m.prefixNorm then rel.value == "/"
         else "/" + m.prefixNorm + rel.value == p
  {
    MetaShape(r);
    var norm := NewRouteMeta(r).value.prefixNorm;
    if norm != "" {
      MatchedPrefixIsOrdinary(norm, p);
      CleanedPrefix(NormalizePathPrefix(r.pathPrefix));
      assert NewRouteMeta(r).value == RouteMeta(norm, "/" + norm);
      StripBase(norm, p);
    }
  }

  lemma SlashStripPath()
    ensures TrimSpace("/") == "/" && StripPath("/") == "/"
  {
    assert !IsSpace('/');
    CleanFixed("/");
  }

  /** With the strip prefix `/`, every clean path that matches goes upstream unchanged. */
  lemma SlashStripKeeps(r: IngressRoute, p: string)
    requires HasUpstream(r) && r.stripPrefix == "/" && CleanPath(p)
    requires Matches(NewRouteMeta(r).value, p)
    ensures PathRel(NewRouteMeta(r).value, p) == Some(p)
  {
    MetaShape(r);
    SlashStripPath();
    var norm := NewRouteMeta(r).value.prefixNorm;
    if norm != "" {
      assert NewRouteMeta(r).value == RouteMeta(norm, "/");
      StripSlash(norm, p);
    }
  }

  // ---- two hops ----

  /** A request forwarded through a remote-forwarding node and rewritten there on the way to the assigned
      node ends up with the same upstream path as one rewritten only on the assigned node. The first node
      refuses exactly the requests that the second would refuse. */
  lemma TwoHopsEqualOne(forward: IngressRoute, serve: IngressRoute, urlPath: string)
    requires HasUpstream(forward) && HasUpstream(serve) && forward.pathPrefix == serve.pathPrefix
    requires forward.stripPrefix == "/" && TrimSpace(serve.stripPrefix) == ""
    requires Settles(urlPath)
    ensures var a, b := NewRouteMeta(forward).value, NewRouteMeta(serve).value;
      && (Rewrite(a, urlPath).Some? <==> Rewrite(b, urlPath).Some?)
      && (Rewrite(a, urlPath).Some? ==> Rewrite(b, Rewrite(a, urlPath).value) == Rewrite(b, urlPath))
  {
    var a, b := NewRouteMeta(forward).value, NewRouteMeta(serve).value;
    MetaShape(forward);
    MetaShape(serve);
    var p := NormalizedPath(urlPath);
    NormalizedTwice(urlPath);
    assert Matches(a, p) <==> Matches(b, p);
    if Matches(a, p) {
      SlashStripKeeps(forward, p);
      DefaultStripRebuilds(serve, p);
    }
  }

  /** What a request receives that passes through the forwarding node first. */
  function TwoHops(forward: RouteMeta, serve: RouteMeta, urlPath: string): Option<string> {
    match Rewrite(forward, urlPath)
    case None => None
    case Some(p) => Rewrite(serve, p)
  }

  /** A path that does not settle starts with a dot or dot-dot segment. */
  lemma UnsettledShape(urlPath: string)
    requires !Settles(urlPath)
    ensures var p := NormalizedPath(urlPath);
      && p == "/" + Clean(urlPath) && Split(p[1..], '/')[0] in {".", ".."} && !HasPrefix(p[1..], "/")
      && NormalizedPath(p) != p && CleanPath(NormalizedPath(p))
  {
    var p := NormalizedPath(urlPath);
    UnrootedClean(urlPath);
    assert !HasPrefix(Clean(urlPath), "/");
    assert p[1..] == Clean(urlPath);
    NormalizedTwice(urlPath);
    NormalizedRooted(p);
  }

  lemma FirstOfMatch(norm: string, p: string)
    requires Rooted(p) && norm != "" && Matches(RouteMeta(norm, "/"), p)
    ensures Split(norm, '/')[0] == Split(p[1..], '/')[0]
  {
    if p != "/" + norm {
      var rest := p[|norm| + 2..];
      assert p[1..] == norm + ['/'] + rest;
      SplitAppend(norm, rest, '/');
    } else {
      assert p[1..] == norm;
    }
  }

  /** Beyond the first hop nothing matches: the forwarded path is clean by then, and the prefix is not. */
  lemma UnsettledSecondHop(norm: string, strip: string, p: string, q: string)
    requires Rooted(p) && norm != "" && Matches(RouteMeta(norm, "/"), p)
    requires Split(p[1..], '/')[0] in {".", ".."} && CleanPath(q)
    ensures !Matches(RouteMeta(norm, strip), q)
  {
    FirstOfMatch(norm, p);
    assert !Ordinary(Split(norm, '/')[0]) && Split(norm, '/')[0] in Split(norm, '/');
    if Matches(RouteMeta(norm, strip), q) { MatchedPrefixIsOrdinary(norm, q); }
  }

  /** A text that starts another text up to a separator has the same first piece, or a beginning of it. */
  lemma {:induction false} FirstPieceOfPrefix(s: string, t: string)
    requires s <= t
    ensures Split(s, '/')[0] <= Split(t, '/')[0]
  {
    if s != "" && s[0] != '/' { FirstPieceOfPrefix(s[1..], t[1..]); }
  }

  /** A clean strip path below the root starts no path whose first segment is a dot or dot-dot. */
  lemma CleanStripMisses(strip: string, p: string)
    requires CleanPath(strip) && strip != "/"
    requires Rooted(p) && Split(p[1..], '/')[0] in {".", ".."}
    ensures !HasPrefix(p, strip)
  {
    var piece := Split(strip[1..], '/')[0];
    assert piece in Split(strip[1..], '/') && Ordinary(piece);
    if HasPrefix(p, strip) {
      FirstPieceOfPrefix(strip[1..], p[1..]);
    }
  }

  lemma SlashStripsAny(norm: string, p: string)
    requires Rooted(p) && !HasPrefix(p[1..], "/") && p != "/"
    ensures PathRel(RouteMeta(norm, "/"), p) == Some(p)
  {
    assert TrimPrefix(p, "/") == p[1..] != "" && "/" + p[1..] == p;
  }

  /** A prefix of nothing but slashes cleans to the root. */
  lemma CleanedRoot(pp: string)
    requires Rooted(pp) && Trim(pp[1..], IsSlash) == ""
    ensures Clean(pp) == "/"
  {
    ReduceTrimmed(pp);
    assert Split("", '/') == [""] && [""][1..] == [];
    assert Reduce([""], true, []) == [];
  }

  lemma DefaultStripIsClean(r: IngressRoute)
    requires HasUpstream(r) && TrimSpace(r.stripPrefix) == ""
    ensures var m := NewRouteMeta(r).value;
      CleanPath(m.stripPath) && (m.prefixNorm == "" ==> m.stripPath == "/")
  {
    var pp := NormalizePathPrefix(r.pathPrefix);
    CleanIsClean(pp);
    assert HasPrefix(Clean(pp), "/");
    assert CleanPath("/");
    if Trim(pp[1..], IsSlash) == "" { CleanedRoot(pp); }
    assert TrimPrefix(pp, "/") == pp[1..];
  }

  lemma SamePrefix(forward: IngressRoute, serve: IngressRoute)
    requires HasUpstream(forward) && HasUpstream(serve) && forward.pathPrefix == serve.pathPrefix
    requires forward.stripPrefix == "/"
    ensures NewRouteMeta(forward).value == RouteMeta(NewRouteMeta(serve).value.prefixNorm, "/")
  {
    SlashStripPath();
  }

  lemma UnsettledHops(norm: string, strip: string, urlPath: string)
    requires !Settles(urlPath) && CleanPath(strip) && (norm == "" ==> strip == "/")
    requires Matches(RouteMeta(norm, strip), NormalizedPath(urlPath))
    ensures TwoHops(RouteMeta(norm, "/"), RouteMeta(norm, strip), urlPath) == Rewrite(RouteMeta(norm, strip), urlPath)
      <==> strip != "/"
  {
    var p := NormalizedPath(urlPath);
    UnsettledShape(urlPath);
    assert p[1..] == Clean(urlPath) != "";
    SlashStripsAny(norm, p);
    if norm != "" { UnsettledSecondHop(norm, strip, p, NormalizedPath(p)); }
    if strip != "/" { CleanStripMisses(strip, p); }
  }

  /** Two hops give what the serving node alone gives exactly when one normalization brings the path to rest, or
      the route does not match the path at all, or the route's prefix cleans to something below the root. */
  lemma TwoHopsExactly(forward: IngressRoute, serve: IngressRoute, urlPath: string)
    requires HasUpstream(forward) && HasUpstream(serve) && forward.pathPrefix == serve.pathPrefix
    requires forward.stripPrefix == "/" && TrimSpace(serve.stripPrefix) == ""
    ensures var a, b := NewRouteMeta(forward).value, NewRouteMeta(serve).value;
      TwoHops(a, b, urlPath) == Rewrite(b, urlPath) <==>
        Settles(urlPath) || !Matches(b, NormalizedPath(urlPath)) || b.stripPath != "/"
  {
    var a, b := NewRouteMeta(forward).value, NewRouteMeta(serve).value;
    SamePrefix(forward, serve);
    if Settles(urlPath) {
      TwoHopsEqualOne(forward, serve, urlPath);
    } else if Matches(b, NormalizedPath(urlPath)) {
      DefaultStripIsClean(serve);
      UnsettledHops(b.prefixNorm, b.stripPath, urlPath);
    }
  }

  /** An empty request path is an input on which the two disagree, at the root prefix. */
  lemma TwoHopsDisagree(forward: IngressRoute, serve: IngressRoute)
    requires HasUpstream(forward) && HasUpstream(serve) && forward.pathPrefix == serve.pathPrefix == "/"
    requires forward.stripPrefix == "/" && TrimSpace(serve.stripPrefix) == ""
    ensures TwoHops(NewRouteMeta(forward).value, NewRouteMeta(serve).value, "") != Rewrite(NewRouteMeta(serve).value, "")
  {
    assert Split("", '/') == [""];
    assert [""][1..] == [];
    assert Reduce([""], false, []) == [];
    assert Clean("") == ".";
    SplitPlain(".", '/');
    SlashStripPath();
    assert NewRouteMeta(serve).value == RouteMeta("", "/");
    TwoHopsExactly(forward, serve, "");
  }
}
