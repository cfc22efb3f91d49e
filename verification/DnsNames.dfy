/** Workload service names: how they are printed, parsed and turned into index keys. */
module DnsNames {
  import opened Common
  import opened GoStrings
  import opened DeployModel

  function NamespaceLabel(ns: string): (r: string)
    ensures r != ""
  {
    ToLower(NamespaceOrDefault(ns))
  }

  function WorkloadLabel(workload: string): string { ToLower(TrimSpace(workload)) }

  function RecordKey(ns: string, workload: string): string {
    NamespaceLabel(ns) + "/" + WorkloadLabel(workload)
  }

  function ServiceName(ns: string, workload: string, zone: string): string {
    WorkloadLabel(workload) + "." + NamespaceLabel(ns) + ".svc." + Trim(ToLower(zone), IsDot)
  }

  /** A name as the parser reads it. */
  function Canonical(name: string): string { Trim(ToLower(TrimSpace(name)), IsDot) }

  /** Not empty and free of dots: one label of a domain name. */
  predicate IsLabel(s: string) { s != "" && '.' !in s }

  /** parseWorkloadServiceFQDN: the namespace and the workload. */
  function Parse(name: string, zone: string): (r: Option<(string, string)>)
    ensures r.Some? ==> IsLabel(r.value.0) && IsLabel(r.value.1)
  {
    var query, base := Canonical(name), Canonical(zone);
    var suffix := ".svc." + base;
    if query == "" || base == "" || !HasSuffix(query, suffix) then None
    else
      var parts := Split(Trim(TrimSuffix(query, suffix), IsDot), '.');
      if |parts| != 2 || parts[0] == "" || parts[1] == "" then None else Some((parts[1], parts[0]))
  }

  /** DNSConfig.ZoneName. */
  function ZoneName(configured: string): (z: string)
    ensures z != ""
  {
    var z := Canonical(configured);
    if z == "" then "orch.local" else z
  }

  /** Lower case with no space or dot at either end. */
  predicate Settled(s: string) { s != "" && ToLower(s) == s && TrimSpace(s) == s && Trim(s, IsDot) == s }

  // ---- labels ----

  lemma LowerKeepsEnds(s: string)
    requires TrimSpace(s) == s
    ensures TrimSpace(ToLower(s)) == ToLower(s)
  {
    var l := ToLower(s);
    if s != "" { assert !IsSpace(l[0]) && !IsSpace(l[|l| - 1]); }
  }

  lemma LowerTwice(s: string)
    ensures ToLower(ToLower(s)) == ToLower(s)
  {}

  lemma LabelsAreSettled(ns: string, workload: string)
    ensures var n, w := NamespaceLabel(ns), WorkloadLabel(workload);
      ToLower(n) == n && ToLower(w) == w && TrimSpace(w) == w && TrimSpace(n) == n
  {
    TrimSpaceIdempotent(ns);
    TrimSpaceIdempotent(workload);
    LowerKeepsEnds(NamespaceOrDefault(ns));
    LowerKeepsEnds(TrimSpace(workload));
    LowerTwice(NamespaceOrDefault(ns));
    LowerTwice(TrimSpace(workload));
  }

  /** Labels are their own labels. */
  lemma LabelsAreFixed(ns: string, workload: string)
    ensures NamespaceLabel(NamespaceLabel(ns)) == NamespaceLabel(ns)
    ensures WorkloadLabel(WorkloadLabel(workload)) == WorkloadLabel(workload)
  {
    LabelsAreSettled(ns, workload);
  }

  lemma {:induction false} TrimLeftLower(s: string)
    requires ToLower(s) == s
    ensures ToLower(TrimLeft(s, IsDot)) == TrimLeft(s, IsDot)
  {
    if s != "" && s[0] == '.' {
      assert ToLower(s[1..]) == ToLower(s)[1..];
      TrimLeftLower(s[1..]);
    }
  }

  lemma {:induction false} TrimRightLower(s: string)
    requires ToLower(s) == s
    ensures ToLower(TrimRight(s, IsDot)) == TrimRight(s, IsDot)
  {
    if s != "" && s[|s| - 1] == '.' {
      assert ToLower(s[..|s| - 1]) == ToLower(s)[..|s| - 1];
      TrimRightLower(s[..|s| - 1]);
    }
  }

  lemma TrimDotsSettles(s: string)
    requires ToLower(s) == s
    ensures var t := Trim(s, IsDot); ToLower(t) == t && Trim(t, IsDot) == t
  {
    TrimLeftLower(s);
    TrimRightLower(TrimLeft(s, IsDot));
  }

  lemma DefaultZoneSettled()
    ensures Settled("orch.local")
  {
    assert ToLower("orch.local") == "orch.local";
  }

  /** The zone in use is settled exactly when trimming the configured dots leaves no space at either end. */
  lemma ZoneSettled(configured: string)
    ensures Settled(ZoneName(configured)) <==> TrimSpace(Canonical(configured)) == Canonical(configured)
    ensures Trim(ToLower(TrimSpace(configured)), IsDot) == "" ==> ZoneName(configured) == "orch.local"
  {
    var s := ToLower(TrimSpace(configured));
    LowerTwice(TrimSpace(configured));
    TrimDotsSettles(s);
    if Trim(s, IsDot) == "" { DefaultZoneSettled(); }
  }

  // ---- what the parser accepts ----

  function Dots(k: nat): (s: string)
    ensures |s| == k && forall i | 0 <= i < k :: s[i] == '.'
  {
    seq(k, _ => '.')
  }

  lemma {:induction false} TrimRightDots(s: string, k: nat)
    requires s == "" || s[|s| - 1] != '.'
    ensures TrimRight(s + Dots(k), IsDot) == s
  {
    if k == 0 {
      assert s + Dots(0) == s;
    } else {
      var t := s + Dots(k);
      assert t[..|t| - 1] == s + Dots(k - 1);
      TrimRightDots(s, k - 1);
    }
  }

  lemma {:induction false} TrimRightSplits(s: string) returns (k: nat)
    ensures s == TrimRight(s, IsDot) + Dots(k)
  {
    if s != "" && s[|s| - 1] == '.' {
      var j := TrimRightSplits(s[..|s| - 1]);
      k := j + 1;
      assert s == s[..|s| - 1] + ".";
    } else {
      k := 0;
    }
  }

  lemma SplitInTwo(s: string, a: string, b: string)
    ensures Split(s, '.') == [a, b] <==> '.' !in a && '.' !in b && s == a + "." + b
  {
    if Split(s, '.') == [a, b] {
      JoinSplit(s, '.');
      assert a in Split(s, '.') && b in Split(s, '.');
      assert [a, b][1..] == [b];
    }
    if '.' !in a && '.' !in b && s == a + "." + b {
      SplitAppend(a, b, '.');
      SplitPlain(a, '.');
      SplitPlain(b, '.');
    }
  }

  /** The names that stand for a workload: its two labels, any number of stray dots, and the service suffix. */
  ghost predicate Names(query: string, ns: string, workload: string, zone: string) {
    exists k: nat :: query == workload + "." + ns + Dots(k) + ".svc." + zone
  }

  lemma SuffixOf(left: string, suffix: string)
    ensures HasSuffix(left + suffix, suffix) && TrimSuffix(left + suffix, suffix) == left
  {}

  /** The parser accepts a name exactly when it names the workload it answers with. */
  lemma ParseExactly(name: string, zone: string, ns: string, workload: string)
    requires Settled(zone)
    ensures Parse(name, zone) == Some((ns, workload)) <==>
      IsLabel(ns) && IsLabel(workload) && Names(Canonical(name), ns, workload, zone)
  {
    if Parse(name, zone) == Some((ns, workload)) {
      ParsedIsNamed(Canonical(name), zone, ns, workload);
    }
    if IsLabel(ns) && IsLabel(workload) && Names(Canonical(name), ns, workload, zone) {
      NamedIsParsed(Canonical(name), zone, ns, workload);
    }
  }

  lemma ParsedIsNamed(query: string, zone: string, ns: string, workload: string)
    requires query == "" || query[0] != '.'
    requires HasSuffix(query, ".svc." + zone)
    requires Split(Trim(TrimSuffix(query, ".svc." + zone), IsDot), '.') == [workload, ns]
    ensures Names(query, ns, workload, zone)
  {
    var left := TrimSuffix(query, ".svc." + zone);
    assert query == left + (".svc." + zone);
    assert left != "" && left[0] == query[0];
    var k := TrimRightSplits(left);
    SplitInTwo(Trim(left, IsDot), workload, ns);
    assert query == workload + "." + ns + Dots(k) + ".svc." + zone;
  }

  lemma NamedIsParsed(query: string, zone: string, ns: string, workload: string)
    requires IsLabel(ns) && IsLabel(workload) && Names(query, ns, workload, zone)
    ensures HasSuffix(query, ".svc." + zone)
    ensures Split(Trim(TrimSuffix(query, ".svc." + zone), IsDot), '.') == [workload, ns]
  {
    var k: nat :| query == workload + "." + ns + Dots(k) + ".svc." + zone;
    var both := workload + "." + ns;
    assert query == (both + Dots(k)) + (".svc." + zone);
    SuffixOf(both + Dots(k), ".svc." + zone);
    assert both[0] == workload[0] && both[|both| - 1] == ns[|ns| - 1];
    assert (both + Dots(k))[0] == workload[0];
    TrimRightDots(both, k);
    SplitInTwo(both, workload, ns);
  }

  // ---- printing, then parsing ----

  function Printed(ns: string, workload: string, zone: string): string { workload + "." + ns + ".svc." + zone }

  lemma LowerAppend(a: string, b: string)
    requires ToLower(a) == a && ToLower(b) == b
    ensures ToLower(a + b) == a + b
  {
    forall i | 0 <= i < |a + b| ensures ToLower(a + b)[i] == (a + b)[i] {
      if i < |a| { assert ToLower(a)[i] == a[i]; } else { assert ToLower(b)[i - |a|] == b[i - |a|]; }
    }
  }

  lemma PrintedIsLower(ns: string, workload: string, zone: string)
    requires ToLower(ns) == ns && ToLower(workload) == workload && ToLower(zone) == zone
    ensures ToLower(Printed(ns, workload, zone)) == Printed(ns, workload, zone)
  {
    LowerAppend(workload, ".");
    LowerAppend(workload + ".", ns);
    LowerAppend(workload + "." + ns, ".svc.");
    LowerAppend(workload + "." + ns + ".svc.", zone);
  }

  /** A name printed from settled parts is read as it stands, apart from dots at the front. */
  lemma PrintedIsCanonical(ns: string, workload: string, zone: string)
    requires ToLower(ns) == ns && ToLower(workload) == workload && TrimSpace(workload) == workload && Settled(zone)
    ensures var s := Printed(ns, workload, zone);
      Canonical(s) == Trim(s, IsDot) && (workload != "" && workload[0] != '.' ==> Canonical(s) == s)
  {
    var s := Printed(ns, workload, zone);
    PrintedIsLower(ns, workload, zone);
    assert s[|s| - 1] == zone[|zone| - 1];
    assert s[0] == if workload == "" then '.' else workload[0];
    assert TrimSpace(s) == s;
  }

  lemma ServiceNameIsPrinted(ns: string, workload: string, zone: string)
    requires Settled(zone)
    ensures ServiceName(ns, workload, zone) == Printed(NamespaceLabel(ns), WorkloadLabel(workload), zone)
  {}

  /** Dots around the zone do not get into a service name. */
  lemma ZoneDotsAreDropped(ns: string, workload: string, zone: string)
    requires Settled(zone)
    ensures ServiceName(ns, workload, "." + zone + ".") == ServiceName(ns, workload, zone)
  {
    LowerAppend(".", zone);
    LowerAppend("." + zone, ".");
    var s := "." + zone + ".";
    assert s[1..] == zone + "." && TrimLeft(s, IsDot) == TrimLeft(zone + ".", IsDot) == zone + ".";
    assert (zone + ".")[..|zone|] == zone;
    assert TrimRight(zone + ".", IsDot) == TrimRight(zone, IsDot) == zone;
  }

  lemma PrintedNames(n: string, w: string, zone: string)
    ensures Names(Printed(n, w, zone), n, w, zone)
  {
    assert Printed(n, w, zone) == w + "." + n + Dots(0) + ".svc." + zone;
  }

  lemma NamedParses(name: string, zone: string, n: string, w: string)
    requires Settled(zone) && IsLabel(n) && IsLabel(w) && Canonical(name) == Printed(n, w, zone)
    ensures Parse(name, zone) == Some((n, w))
  {
    PrintedNames(n, w, zone);
    ParseExactly(name, zone, n, w);
  }

  lemma PrintedLabelsParse(n: string, w: string, zone: string)
    requires ToLower(n) == n && ToLower(w) == w && TrimSpace(w) == w && Settled(zone) && IsLabel(n) && IsLabel(w)
    ensures Parse(Printed(n, w, zone), zone) == Some((n, w))
  {
    assert w[0] in w;
    PrintedIsCanonical(n, w, zone);
    NamedParses(Printed(n, w, zone), zone, n, w);
  }

  /** A printed name parses back to its labels exactly when the labels are free of dots and the workload is
      not blank. */
  lemma RoundTrip(ns: string, workload: string, zone: string)
    requires Settled(zone)
    ensures Parse(ServiceName(ns, workload, zone), zone) == Some((NamespaceLabel(ns), WorkloadLabel(workload))) <==>
      '.' !in NamespaceLabel(ns) && IsLabel(WorkloadLabel(workload))
  {
    LabelsAreSettled(ns, workload);
    ServiceNameIsPrinted(ns, workload, zone);
    if IsLabel(NamespaceLabel(ns)) && IsLabel(WorkloadLabel(workload)) {
      PrintedLabelsParse(NamespaceLabel(ns), WorkloadLabel(workload), zone);
    }
  }

  /** A label that can be told apart in both the service name and the record key. */
  predicate IsPlain(s: string) { IsLabel(s) && '/' !in s }

  predicate PlainNames(ns: string, workload: string) { IsPlain(NamespaceLabel(ns)) && IsPlain(WorkloadLabel(workload)) }

  /** For plain labels the record key, the service name and the labels determine one another. */
  lemma NamesAreKeys(ns: string, workload: string, ns': string, workload': string, zone: string)
    requires Settled(zone) && PlainNames(ns, workload) && PlainNames(ns', workload')
    ensures
      var same := NamespaceLabel(ns) == NamespaceLabel(ns') && WorkloadLabel(workload) == WorkloadLabel(workload');
      && (ServiceName(ns, workload, zone) == ServiceName(ns', workload', zone) <==> same)
      && (RecordKey(ns, workload) == RecordKey(ns', workload') <==> same)
  {
    RoundTrip(ns, workload, zone);
    RoundTrip(ns', workload', zone);
    if RecordKey(ns, workload) == RecordKey(ns', workload') {
      FirstSeparator(NamespaceLabel(ns), WorkloadLabel(workload), NamespaceLabel(ns'), WorkloadLabel(workload'), '/');
    }
  }

  // ---- where the round trip fails ----

  /** Moving a dot between the workload and the namespace keeps the service name but changes the record key. */
  lemma DottedNamesAlias(a: string, b: string, c: string, zone: string)
    requires IsPlain(a) && IsPlain(b) && IsPlain(c)
    ensures Printed(c, a + "." + b, zone) == Printed(b + "." + c, a, zone)
    ensures c + "/" + (a + "." + b) != (b + "." + c) + "/" + a
  {
    assert a + "." + b + "." + c == a + "." + (b + "." + c);
    if c + "/" + (a + "." + b) == (b + "." + c) + "/" + a {
      FirstSeparator(c, a + "." + b, b + "." + c, a, '/');
    }
  }

  // ---- which workload a printed name is answered for ----

  lemma {:induction false} TrimLeftAppend(x: string, y: string)
    ensures TrimLeft(x + y, IsDot) == if TrimLeft(x, IsDot) == "" then TrimLeft(y, IsDot) else TrimLeft(x, IsDot) + y
  {
    if x == "" {
      assert x + y == y;
    } else if x[0] == '.' {
      assert (x + y)[1..] == x[1..] + y;
      TrimLeftAppend(x[1..], y);
    }
  }

  lemma TrimLeftTwice(x: string)
    ensures TrimLeft(TrimLeft(x, IsDot), IsDot) == TrimLeft(x, IsDot)
  {}

  /** What the parser is left with once the dots around a printed name are gone. */
  lemma PrintedTrimmed(n: string, w: string, zone: string)
    requires Settled(zone)
    ensures var left := TrimLeft(w + "." + n, IsDot);
      Trim(Printed(n, w, zone), IsDot) == if left == "" then "svc." + zone else left + (".svc." + zone)
  {
    var suffix := ".svc." + zone;
    assert Printed(n, w, zone) == (w + "." + n) + suffix;
    SuffixEnds(zone);
    TrimWithTail(w + "." + n, suffix);
  }

  lemma SuffixEnds(zone: string)
    requires Settled(zone)
    ensures var suffix := ".svc." + zone;
      suffix[|suffix| - 1] != '.' && TrimLeft(suffix, IsDot) == "svc." + zone
  {
    var suffix := ".svc." + zone;
    assert suffix[|suffix| - 1] == zone[|zone| - 1];
    assert suffix[1..] == "svc." + zone;
  }

  lemma TrimWithTail(x: string, y: string)
    requires y != "" && y[|y| - 1] != '.'
    ensures Trim(x + y, IsDot) == if TrimLeft(x, IsDot) == "" then TrimLeft(y, IsDot) else TrimLeft(x, IsDot) + y
  {
    TrimLeftAppend(x, y);
    var t := TrimLeft(x + y, IsDot);
    assert (x + y)[|x + y| - 1] == y[|y| - 1];
    assert t == "" || t[|t| - 1] != '.';
  }

  /** The labels between the dots, and nothing when there are only dots. */
  lemma ReadLabels(name: string, zone: string, left: string, b: string, a: string)
    requires Settled(zone) && left == TrimLeft(left, IsDot)
    requires Canonical(name) == if left == "" then "svc." + zone else left + (".svc." + zone)
    ensures Parse(name, zone) == Some((b, a)) <==> IsLabel(a) && IsLabel(b) && TrimRight(left, IsDot) == a + "." + b
  {
    var suffix := ".svc." + zone;
    if left == "" {
      assert |Canonical(name)| < |suffix|;
    } else {
      SuffixOf(left, suffix);
      SplitInTwo(Trim(left, IsDot), a, b);
    }
  }

  lemma PrintedIsAnsweredFor(n: string, w: string, zone: string, b: string, a: string)
    requires ToLower(n) == n && ToLower(w) == w && TrimSpace(w) == w && Settled(zone)
    ensures Parse(Printed(n, w, zone), zone) == Some((b, a)) <==>
      IsLabel(a) && IsLabel(b) && Trim(w + "." + n, IsDot) == a + "." + b
  {
    PrintedIsCanonical(n, w, zone);
    PrintedTrimmed(n, w, zone);
    TrimLeftTwice(w + "." + n);
    ReadLabels(Printed(n, w, zone), zone, TrimLeft(w + "." + n, IsDot), b, a);
  }

  /** The exact answer: a service name is answered for workload `a` in namespace `b` exactly when those are dot-free
      labels and the two printed labels, with the dots around them dropped, read `a.b`. */
  lemma AnsweredExactly(ns: string, workload: string, zone: string, b: string, a: string)
    requires Settled(zone)
    ensures Parse(ServiceName(ns, workload, zone), zone) == Some((b, a)) <==>
      IsLabel(a) && IsLabel(b) && Trim(WorkloadLabel(workload) + "." + NamespaceLabel(ns), IsDot) == a + "." + b
  {
    LabelsAreSettled(ns, workload);
    ServiceNameIsPrinted(ns, workload, zone);
    PrintedIsAnsweredFor(NamespaceLabel(ns), WorkloadLabel(workload), zone, b, a);
  }

  /** A service name is answered for another workload exactly when the printed labels, with the dots around them
      dropped, are two labels, and were not two labels as they stood. */
  lemma AnsweredForAnotherExactly(ns: string, workload: string, zone: string)
    requires Settled(zone)
    ensures var n, w := NamespaceLabel(ns), WorkloadLabel(workload);
      var q := Parse(ServiceName(ns, workload, zone), zone);
      q.Some? && q != Some((n, w)) <==>
        (exists a, b :: IsLabel(a) && IsLabel(b) && Trim(w + "." + n, IsDot) == a + "." + b) && !(IsLabel(n) && IsLabel(w))
  {
    var n, w := NamespaceLabel(ns), WorkloadLabel(workload);
    var q := Parse(ServiceName(ns, workload, zone), zone);
    RoundTrip(ns, workload, zone);
    if q.Some? { AnsweredExactly(ns, workload, zone, q.value.0, q.value.1); }
    if a, b :| IsLabel(a) && IsLabel(b) && Trim(w + "." + n, IsDot) == a + "." + b {
      AnsweredExactly(ns, workload, zone, b, a);
    }
  }

  lemma LowerDotted(w: string, n: string)
    requires ToLower(n) == n && ToLower(w) == w
    ensures ToLower(w + "." + n) == w + "." + n
  {
    LowerAppend(w, ".");
    LowerAppend(w + ".", n);
  }

  lemma LabelsMeet(n: string, w: string)
    requires IsLabel(n) && IsLabel(w)
    ensures var both := w + "." + n; Trim("." + both, IsDot) == both && Trim(both + ".", IsDot) == both
  {
    var both := w + "." + n;
    assert both[0] == w[0] && w[0] in w && both[|both| - 1] == n[|n| - 1] && n[|n| - 1] in n;
    DotsAround(both);
  }

  /** A workload name with a leading dot is answered for the workload without it. */
  lemma LeadingDotIsAnotherWorkload(n: string, w: string, zone: string)
    requires IsLabel(n) && IsLabel(w) && ToLower(n) == n && ToLower(w) == w && TrimSpace("." + w) == "." + w
    requires Settled(zone)
    ensures Parse(Printed(n, "." + w, zone), zone) == Some((n, w))
  {
    LowerAppend(".", w);
    LabelsMeet(n, w);
    assert ("." + w) + "." + n == "." + (w + "." + n);
    PrintedIsAnsweredFor(n, "." + w, zone, n, w);
  }

  /** A namespace with a trailing dot is answered for the namespace without it. */
  lemma TrailingDotIsAnotherNamespace(n: string, w: string, zone: string)
    requires IsLabel(n) && IsLabel(w) && ToLower(n) == n && ToLower(w) == w && TrimSpace(w) == w && Settled(zone)
    ensures Parse(Printed(n + ".", w, zone), zone) == Some((n, w))
  {
    LowerAppend(n, ".");
    LabelsMeet(n, w);
    assert w + "." + (n + ".") == (w + "." + n) + ".";
    PrintedIsAnsweredFor(n + ".", w, zone, n, w);
  }

  /** A blank workload in the namespace `w.n` is answered for `w` in `n`. */
  lemma BlankWorkloadIsAnother(n: string, w: string, zone: string)
    requires IsLabel(n) && IsLabel(w) && ToLower(n) == n && ToLower(w) == w && Settled(zone)
    ensures Parse(Printed(w + "." + n, "", zone), zone) == Some((n, w))
  {
    var both := w + "." + n;
    LowerDotted(w, n);
    LabelsMeet(n, w);
    assert "" + "." + both == "." + both;
    PrintedIsAnsweredFor(both, "", zone, n, w);
  }

  lemma DotsAround(s: string)
    requires s != "" && s[0] != '.' && s[|s| - 1] != '.'
    ensures Trim("." + s, IsDot) == s && Trim(s + ".", IsDot) == s
  {
    assert ("." + s)[1..] == s && TrimLeft("." + s, IsDot) == TrimLeft(s, IsDot) == s;
    assert (s + ".")[..|s|] == s && TrimLeft(s + ".", IsDot) == s + ".";
    assert TrimRight(s + ".", IsDot) == TrimRight(s, IsDot) == s;
  }
}
