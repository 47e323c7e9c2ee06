/** What UnusedFindings promises: which findings exist, in which order,
    and what they look like. Each lemma is about the specification
    functions of UnusedVariables, which DetectUnusedVariables is proved
    to compute. */
module UnusedVariablesFacts {
  import opened PhpScanner
  import opened UnusedVariables

  // ---------------------------------------------------------------------
  // The ignore lists

  /** The assignment pass's single list holds exactly the names of both source lists. */
  lemma AssignmentIgnoresAreBothLists(name: string)
    ensures InList(name, AssignmentIgnores) <==> IgnoredOnAssignment(name)
  {
    InListIsMembership(name, AssignmentIgnores);
    InListIsMembership(name, SpecialVars);
    InListIsMembership(name, LaravelFrameworkVars);
  }

  // ---------------------------------------------------------------------
  // What each pass records

  /** A capture is recorded on its own line exactly when it is not ignored. */
  lemma {:induction false} TrackedAssignmentsMembers(names: seq<string>, lineNo: nat, ignored: seq<string>, s: Site)
    ensures s in TrackedAssignments(names, lineNo, ignored) <==>
      s.line == lineNo && s.name in names && !InList(s.name, ignored)
  {
    if |names| > 0 {
      var init := names[..|names| - 1];
      TrackedAssignmentsMembers(init, lineNo, ignored, s);
      assert names == init + [names[|names| - 1]];
    }
  }

  /** A site is recorded exactly when its own line, if not skipped, has that capture. */
  lemma {:induction false} SitesMembers(lines: seq<string>, ignored: seq<string>, v: string, n: nat)
    ensures Site(v, n) in AssignmentSites(lines, ignored) <==>
      1 <= n <= |lines| && Site(v, n) in LineAssignments(lines[n - 1], n, ignored)
  {
    if |lines| > 0 {
      var init := lines[..|lines| - 1];
      var last := lines[|lines| - 1];
      SitesMembers(init, ignored, v, n);
      if 1 <= n <= |init| {
        assert lines[n - 1] == init[n - 1];
      }
      if !SkipsAssignments(last) {
        TrackedAssignmentsMembers(AssignNames(last), |lines|, ignored, Site(v, n));
      }
    }
  }

  /** No name twice. */
  predicate Distinct(s: seq<string>) {
    forall i, j :: 0 <= i < j < |s| ==> s[i] != s[j]
  }

  predicate Ascending(s: seq<nat>) {
    forall i, j :: 0 <= i < j < |s| ==> s[i] <= s[j]
  }

  /** Sites in recording order never go back to an earlier line. */
  predicate LineOrdered(sites: seq<Site>) {
    forall i, j :: 0 <= i < j < |sites| ==> sites[i].line <= sites[j].line
  }

  /** Every recorded site lies on a line of the file, and sites are recorded line by line. */
  lemma {:induction false} SitesAscend(lines: seq<string>, ignored: seq<string>)
    ensures forall s :: s in AssignmentSites(lines, ignored) ==> 1 <= s.line <= |lines|
    ensures LineOrdered(AssignmentSites(lines, ignored))
  {
    forall s | s in AssignmentSites(lines, ignored)
      ensures 1 <= s.line <= |lines|
    {
      SitesMembers(lines, ignored, s.name, s.line);
    }
    if |lines| > 0 {
      var init := lines[..|lines| - 1];
      var last := lines[|lines| - 1];
      SitesAscend(init, ignored);
      var here := LineAssignments(last, |lines|, ignored);
      forall s | s in here
        ensures s.line == |lines|
      {
        if !SkipsAssignments(last) {
          TrackedAssignmentsMembers(AssignNames(last), |lines|, ignored, s);
        }
      }
      LineOrderedAppend(AssignmentSites(init, ignored), here, |init|);
    }
  }

  /** Sites of earlier lines followed by sites of one later line stay in line order. */
  lemma LineOrderedAppend(prev: seq<Site>, here: seq<Site>, k: nat)
    requires LineOrdered(prev)
    requires forall s :: s in prev ==> s.line <= k
    requires forall s :: s in here ==> s.line == k + 1
    ensures LineOrdered(prev + here)
  {
    var sites := prev + here;
    forall i, j | 0 <= i < j < |sites|
      ensures sites[i].line <= sites[j].line
    {
      if j >= |prev| {
        assert sites[j] == here[j - |prev|] && sites[j] in here;
        if i < |prev| {
          assert sites[i] == prev[i] && sites[i] in prev;
        } else {
          assert sites[i] == here[i - |prev|] && sites[i] in here;
        }
      } else {
        assert sites[i] == prev[i] && sites[j] == prev[j];
      }
    }
  }

  /** A name gets a usage entry exactly when it is not special and some line captures it. */
  lemma {:induction false} TrackedUsesMembers(names: seq<string>, ignored: seq<string>, v: string)
    ensures v in TrackedUses(names, ignored) <==> v in names && !InList(v, ignored)
  {
    if |names| > 0 {
      var init := names[..|names| - 1];
      TrackedUsesMembers(init, ignored, v);
      assert names == init + [names[|names| - 1]];
    }
  }

  lemma {:induction false} UsedNamesSound(lines: seq<string>, ignored: seq<string>, v: string)
    requires v in UsedNames(lines, ignored)
    ensures !InList(v, ignored) && exists k :: 0 <= k < |lines| && v in UseNames(lines[k])
  {
    var init := lines[..|lines| - 1];
    var last := lines[|lines| - 1];
    TrackedUsesMembers(UseNames(last), ignored, v);
    if v in UsedNames(init, ignored) {
      UsedNamesSound(init, ignored, v);
      var k :| 0 <= k < |init| && v in UseNames(init[k]);
      assert lines[k] == init[k];
    } else {
      assert v in UseNames(lines[|lines| - 1]);
    }
  }

  lemma {:induction false} UsedNamesComplete(lines: seq<string>, ignored: seq<string>, v: string, k: nat)
    requires k < |lines| && v in UseNames(lines[k]) && !InList(v, ignored)
    ensures v in UsedNames(lines, ignored)
  {
    var init := lines[..|lines| - 1];
    if k < |init| {
      assert init[k] == lines[k];
      UsedNamesComplete(init, ignored, v, k);
    } else {
      TrackedUsesMembers(UseNames(lines[k]), ignored, v);
    }
  }

  // ---------------------------------------------------------------------
  // The keys of `$assignedVars`

  /** The keys are the recorded names, ... */
  lemma {:induction false} FirstSeenMembers(sites: seq<Site>, v: string)
    ensures v in FirstSeenOrder(sites) <==> exists i :: 0 <= i < |sites| && sites[i].name == v
  {
    if |sites| > 0 {
      var init := sites[..|sites| - 1];
      FirstSeenMembers(init, v);
      if exists i :: 0 <= i < |sites| && sites[i].name == v {
        var i :| 0 <= i < |sites| && sites[i].name == v;
        if i < |init| {
          assert init[i] == sites[i];
        }
      }
      if exists i :: 0 <= i < |init| && init[i].name == v {
        var i :| 0 <= i < |init| && init[i].name == v;
        assert sites[i] == init[i];
      }
    }
  }

  /** ... each once, ... */
  lemma {:induction false} FirstSeenDistinct(sites: seq<Site>)
    ensures Distinct(FirstSeenOrder(sites))
  {
    if |sites| > 0 {
      var prev := FirstSeenOrder(sites[..|sites| - 1]);
      FirstSeenDistinct(sites[..|sites| - 1]);
      var name := sites[|sites| - 1].name;
      if name !in prev {
        var order := prev + [name];
        assert FirstSeenOrder(sites) == order;
        forall i, j | 0 <= i < j < |order|
          ensures order[i] != order[j]
        {
          if j == |prev| {
            assert order[i] == prev[i];
          } else {
            assert order[i] == prev[i] && order[j] == prev[j];
          }
        }
      }
    }
  }

  /** ... and a key keeps its position while more sites are recorded. */
  lemma {:induction false} FirstSeenGrows(sites: seq<Site>, more: seq<Site>)
    ensures FirstSeenOrder(sites) <= FirstSeenOrder(sites + more)
    decreases |more|
  {
    if |more| > 0 {
      var init := more[..|more| - 1];
      FirstSeenGrows(sites, init);
      assert (sites + more)[..|sites + more| - 1] == sites + init;
    } else {
      assert sites + more == sites;
    }
  }

  /** The key order is the order of first assignment: a name whose first site comes
      earlier has the earlier key. */
  lemma {:induction false} FirstSeenByFirstSite(sites: seq<Site>, i: nat, j: nat)
    requires i < j < |sites|
    requires forall k :: 0 <= k < j ==> sites[k].name != sites[j].name
    ensures var order := FirstSeenOrder(sites);
      sites[i].name in order && sites[j].name in order &&
      IndexOf(order, sites[i].name) < IndexOf(order, sites[j].name)
  {
    var before := FirstSeenOrder(sites[..j]);
    var at := FirstSeenOrder(sites[..j + 1]);
    FirstSeenMembers(sites[..j], sites[i].name);
    assert sites[..j][i] == sites[i];
    FirstSeenMembers(sites[..j], sites[j].name);
    assert sites[..j + 1][..j] == sites[..j];
    assert at == before + [sites[j].name];
    FirstSeenDistinct(sites[..j + 1]);
    IndexOfPrefix(before, at, sites[i].name);
    IndexOfLast(at);
    FirstSeenGrows(sites[..j + 1], sites[j + 1..]);
    assert sites[..j + 1] + sites[j + 1..] == sites;
    IndexOfPrefix(at, FirstSeenOrder(sites), sites[i].name);
    IndexOfPrefix(at, FirstSeenOrder(sites), sites[j].name);
  }

  /** Position of the first occurrence of `v` in `s`. */
  function IndexOf(s: seq<string>, v: string): (k: nat)
    requires v in s
    ensures k < |s| && s[k] == v
    ensures forall i :: 0 <= i < k ==> s[i] != v
  {
    if s[0] == v then 0 else 1 + IndexOf(s[1..], v)
  }

  lemma {:induction false} IndexOfPrefix(s: seq<string>, t: seq<string>, v: string)
    requires s <= t && v in s
    ensures v in t && IndexOf(t, v) == IndexOf(s, v)
  {
    var k := IndexOf(s, v);
    assert t[k] == s[k];
  }

  lemma IndexOfLast(s: seq<string>)
    requires |s| > 0
    requires Distinct(s)
    ensures IndexOf(s, s[|s| - 1]) == |s| - 1
  {
  }

  // ---------------------------------------------------------------------
  // The values of `$assignedVars`

  /** How many times x occurs in s. */
  function Occurrences<T(==)>(s: seq<T>, x: T): nat {
    if |s| == 0 then 0
    else Occurrences(s[..|s| - 1], x) + (if s[|s| - 1] == x then 1 else 0)
  }

  lemma {:induction false} OccurrencesAppend<T>(a: seq<T>, b: seq<T>, x: T)
    ensures Occurrences(a + b, x) == Occurrences(a, x) + Occurrences(b, x)
  {
    if |b| > 0 {
      var init := b[..|b| - 1];
      OccurrencesAppend(a, init, x);
      assert (a + b)[..|a + b| - 1] == a + init;
      assert (a + b)[|a + b| - 1] == b[|b| - 1];
    } else {
      assert a + b == a;
    }
  }

  lemma {:induction false} OccurrencesAbsent<T>(s: seq<T>, x: T)
    requires x !in s
    ensures Occurrences(s, x) == 0
  {
    if |s| > 0 {
      OccurrencesAbsent(s[..|s| - 1], x);
    }
  }

  /** A name's lines are exactly the lines of its sites ... */
  lemma {:induction false} LinesOfMembers(sites: seq<Site>, v: string, n: nat)
    ensures n in LinesOf(sites, v) <==> Site(v, n) in sites
  {
    if |sites| > 0 {
      var init := sites[..|sites| - 1];
      LinesOfMembers(init, v, n);
      assert sites == init + [sites[|sites| - 1]];
    }
  }

  /** ... one entry per site, so duplicates on one line are kept ... */
  lemma {:induction false} LinesOfCount(sites: seq<Site>, v: string, n: nat)
    ensures Occurrences(LinesOf(sites, v), n) == Occurrences(sites, Site(v, n))
  {
    if |sites| > 0 {
      var init := sites[..|sites| - 1];
      var last := sites[|sites| - 1];
      LinesOfCount(init, v, n);
      OccurrencesAppend(LinesOf(init, v), if last.name == v then [last.line] else [], n);
    }
  }

  /** ... and ascending when the sites are. */
  lemma {:induction false} LinesOfAscend(sites: seq<Site>, v: string)
    requires LineOrdered(sites)
    ensures Ascending(LinesOf(sites, v))
  {
    if |sites| > 0 {
      var init := sites[..|sites| - 1];
      var last := sites[|sites| - 1];
      LinesOfAscend(init, v);
      var prev := LinesOf(init, v);
      forall n | n in prev
        ensures n <= last.line
      {
        LinesOfMembers(init, v, n);
        var i :| 0 <= i < |init| && init[i] == Site(v, n);
        assert sites[i] == init[i];
      }
      var ls := LinesOf(sites, v);
      forall i, j | 0 <= i < j < |ls|
        ensures ls[i] <= ls[j]
      {
        if j < |prev| {
          assert ls[i] == prev[i] && ls[j] == prev[j];
        } else {
          assert ls[j] == last.line;
          if i < |prev| {
            assert ls[i] in prev;
          }
        }
      }
    }
  }

  // ---------------------------------------------------------------------
  // The report

  lemma FindingsForMembers(name: string, lineNos: seq<nat>, f: Finding)
    ensures f in FindingsFor(name, lineNos) <==>
      f.variable == name && f.line in lineNos && f == UnusedVariableFinding(name, f.line)
  {
    var fs := FindingsFor(name, lineNos);
    if f.variable == name && f.line in lineNos && f == UnusedVariableFinding(name, f.line) {
      var k :| 0 <= k < |lineNos| && lineNos[k] == f.line;
      assert fs[k] == f;
    }
  }

  /** A finding is reported exactly when its name is a key with no usage entry
      and its line is one of that key's lines. */
  lemma {:induction false} ReportMembers(order: seq<string>, sites: seq<Site>, used: set<string>, f: Finding)
    ensures f in Report(order, sites, used) <==>
      f.variable in order && f.variable !in used && f.line in LinesOf(sites, f.variable) &&
      f == UnusedVariableFinding(f.variable, f.line)
  {
    if |order| > 0 {
      var init := order[..|order| - 1];
      var name := order[|order| - 1];
      var tail := if name in used then [] else FindingsFor(name, LinesOf(sites, name));
      assert f in Report(order, sites, used) <==> f in Report(init, sites, used) || f in tail by {
        assert Report(order, sites, used) == Report(init, sites, used) + tail;
      }
      ReportMembers(init, sites, used, f);
      FindingsForMembers(name, LinesOf(sites, name), f);
      InitMembers(order, f.variable);
    }
  }

  /** The findings about one variable, in order. */
  function FindingsOf(fs: seq<Finding>, v: string): seq<Finding> {
    if |fs| == 0 then []
    else FindingsOf(fs[..|fs| - 1], v) + (if fs[|fs| - 1].variable == v then [fs[|fs| - 1]] else [])
  }

  lemma {:induction false} FindingsOfAppend(a: seq<Finding>, b: seq<Finding>, v: string)
    ensures FindingsOf(a + b, v) == FindingsOf(a, v) + FindingsOf(b, v)
    decreases |b|
  {
    if |b| == 0 {
      assert a + b == a;
    } else {
      var init := b[..|b| - 1];
      FindingsOfAppend(a, init, v);
      assert (a + b)[..|a + b| - 1] == a + init;
      assert (a + b)[|a + b| - 1] == b[|b| - 1];
    }
  }

  lemma {:induction false} FindingsOfOne(name: string, lineNos: seq<nat>, v: string)
    ensures FindingsOf(FindingsFor(name, lineNos), v) == if name == v then FindingsFor(name, lineNos) else []
  {
    if |lineNos| > 0 {
      var init := lineNos[..|lineNos| - 1];
      FindingsOfOne(name, init, v);
      var fs := FindingsFor(name, lineNos);
      assert fs[..|fs| - 1] == FindingsFor(name, init);
    }
  }

  /** For distinct keys, the findings about `v` are one run: all of v's lines,
      in recording order, when v is unused, and nothing otherwise. */
  lemma {:induction false} ReportOfVariable(order: seq<string>, sites: seq<Site>, used: set<string>, v: string)
    requires Distinct(order)
    ensures FindingsOf(Report(order, sites, used), v) ==
      if v in order && v !in used then FindingsFor(v, LinesOf(sites, v)) else []
  {
    if |order| > 0 {
      var init := order[..|order| - 1];
      var name := order[|order| - 1];
      var earlier := Report(init, sites, used);
      var tail := if name in used then [] else FindingsFor(name, LinesOf(sites, name));
      assert FindingsOf(Report(order, sites, used), v) == FindingsOf(earlier, v) + FindingsOf(tail, v) by {
        assert Report(order, sites, used) == earlier + tail;
        FindingsOfAppend(earlier, tail, v);
      }
      assert FindingsOf(tail, v) == if v == name then tail else [] by {
        if name !in used {
          FindingsOfOne(name, LinesOf(sites, name), v);
        }
      }
      DistinctInit(order);
      ReportOfVariable(init, sites, used, v);
      InitMembers(order, v);
    }
  }

  /** A key is either among the earlier keys or the last one. */
  lemma InitMembers(order: seq<string>, v: string)
    requires |order| > 0
    ensures v in order <==> v in order[..|order| - 1] || v == order[|order| - 1]
  {
    assert order == order[..|order| - 1] + [order[|order| - 1]];
  }

  /** Dropping the last key keeps the keys distinct, and that key is not among the others. */
  lemma DistinctInit(order: seq<string>)
    requires Distinct(order) && |order| > 0
    ensures Distinct(order[..|order| - 1])
    ensures order[|order| - 1] !in order[..|order| - 1]
  {
    var init := order[..|order| - 1];
    forall i, j | 0 <= i < j < |init| ensures init[i] != init[j] {
      assert init[i] == order[i] && init[j] == order[j];
    }
    forall i | 0 <= i < |init| ensures init[i] != order[|order| - 1] {
      assert init[i] == order[i];
    }
  }

  /** Every finding names a key, and findings never go back to an earlier key. */
  predicate GroupedInOrder(fs: seq<Finding>, order: seq<string>) {
    (forall f :: f in fs ==> f.variable in order) &&
    forall i, j :: 0 <= i < j < |fs| && fs[i].variable in order && fs[j].variable in order ==>
      IndexOf(order, fs[i].variable) <= IndexOf(order, fs[j].variable)
  }

  /** Findings are grouped by variable in key order. */
  lemma ReportGrouped(order: seq<string>, sites: seq<Site>, used: set<string>)
    requires Distinct(order)
    ensures GroupedInOrder(Report(order, sites, used), order)
  {
    var fs := Report(order, sites, used);
    forall f | f in fs
      ensures f.variable in order
    {
      ReportMembers(order, sites, used, f);
    }
    forall i, j | 0 <= i < j < |fs|
      ensures IndexOf(order, fs[i].variable) <= IndexOf(order, fs[j].variable)
    {
      GroupedPair(order, sites, used, i, j);
    }
  }

  lemma {:induction false} GroupedPair(order: seq<string>, sites: seq<Site>, used: set<string>, i: nat, j: nat)
    requires Distinct(order)
    requires i < j < |Report(order, sites, used)|
    ensures var fs := Report(order, sites, used);
      fs[i].variable in order && fs[j].variable in order &&
      IndexOf(order, fs[i].variable) <= IndexOf(order, fs[j].variable)
  {
    var init := order[..|order| - 1];
    var name := order[|order| - 1];
    var prev := Report(init, sites, used);
    var tail := if name in used then [] else FindingsFor(name, LinesOf(sites, name));
    var fs := prev + tail;
    assert fs == Report(order, sites, used);
    assert init <= order;
    if j < |prev| {
      assert fs[i] == prev[i] && fs[j] == prev[j];
      GroupedPair(init, sites, used, i, j);
      IndexOfPrefix(init, order, prev[i].variable);
      IndexOfPrefix(init, order, prev[j].variable);
    } else {
      assert fs[j] == tail[j - |prev|];
      assert fs[j].variable == name;
      IndexOfLast(order);
      if i < |prev| {
        assert fs[i] == prev[i];
        ReportMembers(init, sites, used, prev[i]);
        IndexOfPrefix(init, order, prev[i].variable);
      } else {
        assert fs[i] == tail[i - |prev|];
      }
    }
  }

  // ---------------------------------------------------------------------
  // How many times each site is recorded

  /** Each capture of a name that is not ignored records one site, so a name captured
      twice on one line is recorded twice. */
  lemma {:induction false} TrackedAssignmentsCount(names: seq<string>, lineNo: nat, ignored: seq<string>, v: string)
    requires !InList(v, ignored)
    ensures Occurrences(TrackedAssignments(names, lineNo, ignored), Site(v, lineNo)) == Occurrences(names, v)
  {
    if |names| > 0 {
      var init := names[..|names| - 1];
      var last := names[|names| - 1];
      TrackedAssignmentsCount(init, lineNo, ignored, v);
      OccurrencesAppend(TrackedAssignments(init, lineNo, ignored),
        if InList(last, ignored) then [] else [Site(last, lineNo)], Site(v, lineNo));
    }
  }

  lemma {:induction false} SitesCount(lines: seq<string>, ignored: seq<string>, v: string, n: nat)
    ensures Occurrences(AssignmentSites(lines, ignored), Site(v, n)) ==
      if 1 <= n <= |lines| then Occurrences(LineAssignments(lines[n - 1], n, ignored), Site(v, n)) else 0
  {
    if |lines| > 0 {
      var init := lines[..|lines| - 1];
      var last := lines[|lines| - 1];
      SitesCount(init, ignored, v, n);
      OccurrencesAppend(AssignmentSites(init, ignored), LineAssignments(last, |lines|, ignored), Site(v, n));
      if 1 <= n <= |init| {
        assert lines[n - 1] == init[n - 1];
      }
      if n != |lines| {
        if !SkipsAssignments(last) {
          TrackedAssignmentsMembers(AssignNames(last), |lines|, ignored, Site(v, n));
        }
        OccurrencesAbsent(LineAssignments(last, |lines|, ignored), Site(v, n));
      }
    }
  }

  // ---------------------------------------------------------------------
  // The findings for a list of lines

  /** A finding is reported exactly when its name and line form a recorded site and
      the name has no usage entry. */
  lemma ReportIff(sites: seq<Site>, used: set<string>, f: Finding)
    ensures f in Report(FirstSeenOrder(sites), sites, used) <==>
      Site(f.variable, f.line) in sites && f.variable !in used && f == UnusedVariableFinding(f.variable, f.line)
  {
    var v, n := f.variable, f.line;
    ReportMembers(FirstSeenOrder(sites), sites, used, f);
    LinesOfMembers(sites, v, n);
    if Site(v, n) in sites {
      var i :| 0 <= i < |sites| && sites[i] == Site(v, n);
      FirstSeenMembers(sites, v);
    }
  }

  lemma FindingsOfLinesIff(lines: seq<string>, assignIgnored: seq<string>, useIgnored: seq<string>, f: Finding)
    ensures f in FindingsOfLines(lines, assignIgnored, useIgnored) <==>
      Site(f.variable, f.line) in AssignmentSites(lines, assignIgnored) &&
      f.variable !in UsedNames(lines, useIgnored) &&
      f == UnusedVariableFinding(f.variable, f.line)
  {
    ReportIff(AssignmentSites(lines, assignIgnored), UsedNames(lines, useIgnored), f);
  }

  /** One line records (v, n) exactly when it is not skipped and captures v, and v is
      not ignored. */
  lemma LineSiteIff(line: string, n: nat, ignored: seq<string>, v: string)
    ensures Site(v, n) in LineAssignments(line, n, ignored) <==>
      !SkipsAssignments(line) && v in AssignNames(line) && !InList(v, ignored)
  {
    if !SkipsAssignments(line) {
      TrackedAssignmentsMembers(AssignNames(line), n, ignored, Site(v, n));
    }
  }

  /** Lines are split on newlines, so every finding's line is within 1..(newlines + 1). */
  lemma LineWithinContent(content: string, f: Finding)
    requires f in UnusedFindings(content)
    ensures 1 <= f.line <= NewlineCount(content) + 1
  {
    FindingsOfLinesIff(SplitLines(content), AssignmentIgnores, SpecialVars, f);
    SitesAscend(SplitLines(content), AssignmentIgnores);
    LineCount(content);
  }

  // ---------------------------------------------------------------------
  // What detectUnusedVariables returns

  /** v is captured as assigned on line n, the line is not skipped, v is not
      ignored, and no line at all gives v a usage entry. */
  predicate ReportedOn(lines: seq<string>, v: string, n: nat) {
    1 <= n <= |lines| &&
    !SkipsAssignments(lines[n - 1]) &&
    v in AssignNames(lines[n - 1]) &&
    !IgnoredOnAssignment(v) &&
    v !in UsedNames(lines, SpecialVars)
  }

  /** ReportedOn for any line list and any ignore lists, with the line's part
      stated as a recorded site. */
  predicate ReportedOnLines(lines: seq<string>, assignIgnored: seq<string>, useIgnored: seq<string>, v: string, n: nat) {
    1 <= n <= |lines| &&
    Site(v, n) in LineAssignments(lines[n - 1], n, assignIgnored) &&
    v !in UsedNames(lines, useIgnored)
  }

  lemma FindingsOfLinesSound(lines: seq<string>, assignIgnored: seq<string>, useIgnored: seq<string>, f: Finding)
    requires f in FindingsOfLines(lines, assignIgnored, useIgnored)
    ensures ReportedOnLines(lines, assignIgnored, useIgnored, f.variable, f.line)
    ensures f == UnusedVariableFinding(f.variable, f.line)
  {
    FindingsOfLinesIff(lines, assignIgnored, useIgnored, f);
    SitesMembers(lines, assignIgnored, f.variable, f.line);
  }

  lemma FindingsOfLinesComplete(lines: seq<string>, assignIgnored: seq<string>, useIgnored: seq<string>, v: string, n: nat)
    requires ReportedOnLines(lines, assignIgnored, useIgnored, v, n)
    ensures UnusedVariableFinding(v, n) in FindingsOfLines(lines, assignIgnored, useIgnored)
  {
    SitesMembers(lines, assignIgnored, v, n);
    FindingsOfLinesIff(lines, assignIgnored, useIgnored, UnusedVariableFinding(v, n));
  }

  /** ReportedOn is ReportedOnLines with the detector's two ignore lists. */
  lemma ReportedOnBridge(lines: seq<string>, v: string, n: nat)
    ensures ReportedOn(lines, v, n) <==> ReportedOnLines(lines, AssignmentIgnores, SpecialVars, v, n)
  {
    AssignmentIgnoresAreBothLists(v);
    ReportedOnLinesUnfolded(lines, AssignmentIgnores, SpecialVars, v, n);
  }

  lemma ReportedOnLinesUnfolded(lines: seq<string>, assignIgnored: seq<string>, useIgnored: seq<string>, v: string, n: nat)
    ensures ReportedOnLines(lines, assignIgnored, useIgnored, v, n) <==>
      1 <= n <= |lines| && !SkipsAssignments(lines[n - 1]) && v in AssignNames(lines[n - 1]) &&
      !InList(v, assignIgnored) && v !in UsedNames(lines, useIgnored)
  {
    if 1 <= n <= |lines| {
      LineSiteIff(lines[n - 1], n, assignIgnored, v);
    }
  }

  lemma UnusedFindingSound(content: string, f: Finding)
    requires f in UnusedFindings(content)
    ensures ReportedOn(SplitLines(content), f.variable, f.line)
    ensures f == UnusedVariableFinding(f.variable, f.line)
  {
    FindingsOfLinesSound(SplitLines(content), AssignmentIgnores, SpecialVars, f);
    ReportedOnBridge(SplitLines(content), f.variable, f.line);
  }

  lemma UnusedFindingComplete(content: string, v: string, n: nat)
    requires ReportedOn(SplitLines(content), v, n)
    ensures UnusedVariableFinding(v, n) in UnusedFindings(content)
  {
    ReportedOnBridge(SplitLines(content), v, n);
    FindingsOfLinesComplete(SplitLines(content), AssignmentIgnores, SpecialVars, v, n);
  }

  /** A finding for (v, n) is produced exactly when ReportedOn holds for v and n; the
      finding is then the one built from v and n. */
  lemma UnusedFindingIff(content: string, f: Finding)
    ensures f in UnusedFindings(content) <==>
      ReportedOn(SplitLines(content), f.variable, f.line) && f == UnusedVariableFinding(f.variable, f.line)
  {
    if f in UnusedFindings(content) {
      UnusedFindingSound(content, f);
    } else if ReportedOn(SplitLines(content), f.variable, f.line) {
      UnusedFindingComplete(content, f.variable, f.line);
    }
  }

  /** Every finding is well formed: its type, its bare name, its exact message. */
  lemma FindingShape(content: string, f: Finding)
    requires f in UnusedFindings(content)
    ensures f.kind == "unused_variable"
    ensures f.message == "Unused variable '$" + f.variable + "' on line " + Decimal.FromNat(f.line)
    ensures IsIdentifier(f.variable)
  {
    UnusedFindingSound(content, f);
    var names := AssignNames(SplitLines(content)[f.line - 1]);
    var k :| 0 <= k < |names| && names[k] == f.variable;
  }

  /** The message alone tells which name and which line a finding is about: a
      name cannot run into the `' on line ` that follows it. */
  lemma MessageIdentifiesSite(n1: string, a: nat, n2: string, b: nat)
    requires IsIdentifier(n1) && IsIdentifier(n2)
    requires UnusedVariableFinding(n1, a).message == UnusedVariableFinding(n2, b).message
    ensures n1 == n2 && a == b
  {
    var m := UnusedVariableFinding(n1, a).message;
    MessageParts(n1, Decimal.FromNat(a));
    MessageParts(n2, Decimal.FromNat(b));
    if |n1| != |n2| {
      assert false;
    }
    assert n1 == m[18..18 + |n1|] == n2;
    assert Decimal.FromNat(a) == m[28 + |n1|..] == Decimal.FromNat(b);
    Decimal.FromNatInjective(a, b);
  }

  /** Where the name, the `' on line ` and the number sit in a message. */
  lemma MessageParts(name: string, digits: string)
    ensures var m := "Unused variable '$" + name + "' on line " + digits;
      |m| == 28 + |name| + |digits| && m[18..18 + |name|] == name &&
      m[18 + |name|] == '\'' && m[28 + |name|..] == digits
  {
    var m := "Unused variable '$" + name + "' on line " + digits;
    var head := "Unused variable '$" + name;
    assert m == head + ("' on line " + digits);
    assert m[..|head|] == head;
    assert head[18..] == name;
    assert m[|head|..] == "' on line " + digits;
  }

  /** `$this`, the superglobals and Laravel's property names are never reported. */
  lemma IgnoredNeverReported(content: string, f: Finding)
    requires f in UnusedFindings(content)
    ensures f.variable !in SpecialVars && f.variable !in LaravelFrameworkVars
  {
    UnusedFindingSound(content, f);
    InListIsMembership(f.variable, SpecialVars);
    InListIsMembership(f.variable, LaravelFrameworkVars);
  }

  /** A skipped line (a comment, a doc-block line or a protected declaration) gives
      no finding. */
  lemma SkippedLineNotReported(content: string, f: Finding)
    requires f in UnusedFindings(content)
    ensures 1 <= f.line <= |SplitLines(content)| && !SkipsAssignments(SplitLines(content)[f.line - 1])
  {
    UnusedFindingSound(content, f);
  }

  /** A name the usage scanner captures on any line, comment lines included, is
      never reported. */
  lemma UseAnywhereSilences(content: string, v: string, k: nat, f: Finding)
    requires k < |SplitLines(content)| && v in UseNames(SplitLines(content)[k])
    requires f in UnusedFindings(content)
    ensures f.variable != v
  {
    UnusedFindingSound(content, f);
    if f.variable == v {
      InListIsMembership(v, SpecialVars);
      UsedNamesComplete(SplitLines(content), SpecialVars, v, k);
    }
  }

  /** A name that no unskipped line captures as assigned, such as one that is only
      read, is never reported. */
  lemma NeverAssignedNeverReported(content: string, v: string, f: Finding)
    requires forall k :: 0 <= k < |SplitLines(content)| && !SkipsAssignments(SplitLines(content)[k]) ==>
      v !in AssignNames(SplitLines(content)[k])
    requires f in UnusedFindings(content)
    ensures f.variable != v
  {
    UnusedFindingSound(content, f);
  }

  /** Content where no line captures an assignment gives no findings at all. */
  lemma NoAssignmentsNoFindings(content: string)
    requires forall k :: 0 <= k < |SplitLines(content)| ==> AssignNames(SplitLines(content)[k]) == []
    ensures UnusedFindings(content) == []
  {
    var fs := UnusedFindings(content);
    if |fs| > 0 {
      UnusedFindingSound(content, fs[0]);
      assert false;
    }
  }

  lemma EmptyContentNoFindings()
    ensures UnusedFindings("") == []
  {
    assert SplitLines("") == [""];
    assert AssignNames("") == [];
    NoAssignmentsNoFindings("");
  }

  /** The findings are grouped by variable, the variables in the order of their first
      recorded assignment. */
  lemma UnusedFindingsGrouped(content: string)
    ensures var sites := AssignmentSites(SplitLines(content), AssignmentIgnores);
      Distinct(FirstSeenOrder(sites)) && GroupedInOrder(UnusedFindings(content), FirstSeenOrder(sites))
  {
    var sites := AssignmentSites(SplitLines(content), AssignmentIgnores);
    FirstSeenDistinct(sites);
    ReportGrouped(FirstSeenOrder(sites), sites, UsedNames(SplitLines(content), SpecialVars));
  }

  /** The findings about one variable: all of its recorded lines, in ascending order,
      when it has no usage entry, and none otherwise. */
  lemma {:induction false} FindingsOfLinesForVariable(lines: seq<string>, assignIgnored: seq<string>, useIgnored: seq<string>, v: string)
    ensures var sites := AssignmentSites(lines, assignIgnored);
      FindingsOf(FindingsOfLines(lines, assignIgnored, useIgnored), v) ==
        (if v in UsedNames(lines, useIgnored) then [] else FindingsFor(v, LinesOf(sites, v))) &&
      Ascending(LinesOf(sites, v))
  {
    var sites := AssignmentSites(lines, assignIgnored);
    FirstSeenDistinct(sites);
    ReportOfVariable(FirstSeenOrder(sites), sites, UsedNames(lines, useIgnored), v);
    if v !in FirstSeenOrder(sites) {
      UnseenHasNoLines(sites, v);
    }
    SitesAscend(lines, assignIgnored);
    LinesOfAscend(sites, v);
  }

  /** The line numbers of some findings, in order. */
  function LineNumbers(fs: seq<Finding>): (ls: seq<nat>)
    ensures |ls| == |fs|
  {
    seq(|fs|, k requires 0 <= k < |fs| => fs[k].line)
  }

  lemma FindingsForLines(name: string, lineNos: seq<nat>)
    ensures LineNumbers(FindingsFor(name, lineNos)) == lineNos
  {
    var fs := FindingsFor(name, lineNos);
    forall k | 0 <= k < |lineNos|
      ensures LineNumbers(fs)[k] == lineNos[k]
    {
      assert fs[k] == UnusedVariableFinding(name, lineNos[k]);
    }
  }

  lemma FindingsOfLinesCount(lines: seq<string>, assignIgnored: seq<string>, useIgnored: seq<string>, v: string, n: nat)
    requires v !in UsedNames(lines, useIgnored)
    ensures Occurrences(LineNumbers(FindingsOf(FindingsOfLines(lines, assignIgnored, useIgnored), v)), n) ==
      Occurrences(AssignmentSites(lines, assignIgnored), Site(v, n))
  {
    var sites := AssignmentSites(lines, assignIgnored);
    FindingsOfLinesForVariable(lines, assignIgnored, useIgnored, v);
    FindingsForLines(v, LinesOf(sites, v));
    LinesOfCount(sites, v, n);
  }

  /** The sites recorded for line n hold v as many times as the line captures it. */
  lemma SitesOnLineCount(lines: seq<string>, assignIgnored: seq<string>, v: string, n: nat)
    requires 1 <= n <= |lines| && !SkipsAssignments(lines[n - 1]) && !InList(v, assignIgnored)
    ensures Occurrences(AssignmentSites(lines, assignIgnored), Site(v, n)) == Occurrences(AssignNames(lines[n - 1]), v)
  {
    SitesCount(lines, assignIgnored, v, n);
    LineAssignmentsCount(lines[n - 1], n, assignIgnored, v);
  }

  lemma LineAssignmentsCount(line: string, n: nat, assignIgnored: seq<string>, v: string)
    requires !SkipsAssignments(line) && !InList(v, assignIgnored)
    ensures Occurrences(LineAssignments(line, n, assignIgnored), Site(v, n)) == Occurrences(AssignNames(line), v)
  {
    TrackedAssignmentsCount(AssignNames(line), n, assignIgnored, v);
  }

  lemma FindingCountOnLines(lines: seq<string>, assignIgnored: seq<string>, useIgnored: seq<string>, v: string, n: nat)
    requires 1 <= n <= |lines| && !SkipsAssignments(lines[n - 1])
    requires !InList(v, assignIgnored) && v !in UsedNames(lines, useIgnored)
    ensures Occurrences(LineNumbers(FindingsOf(FindingsOfLines(lines, assignIgnored, useIgnored), v)), n) ==
      Occurrences(AssignNames(lines[n - 1]), v)
  {
    SitesOnLineCount(lines, assignIgnored, v, n);
    FindingsOfLinesCount(lines, assignIgnored, useIgnored, v, n);
  }

  /** One finding per recorded assignment: v is reported on line n as many times as
      line n captures v, so a name assigned twice on one line is reported twice. */
  lemma FindingCount(content: string, v: string, n: nat)
    requires ReportedOn(SplitLines(content), v, n)
    ensures Occurrences(LineNumbers(FindingsOf(UnusedFindings(content), v)), n) ==
      Occurrences(AssignNames(SplitLines(content)[n - 1]), v)
  {
    AssignmentIgnoresAreBothLists(v);
    FindingCountOnLines(SplitLines(content), AssignmentIgnores, SpecialVars, v, n);
  }
}
