/** detectUnusedVariables (examples/laravel/detect-unused-vars.php): an
    assignment pass and a usage pass over the lines of one file, then one
    finding per recorded assignment of every name that has no usage entry.

    The method below does what the PHP function does, with `$assignedVars`
    as an insertion-ordered map (its keys in a sequence, its values in a
    map). It is proved equal to UnusedFindings, a definition by recursion
    over the lines, and the lemmas after it say what that definition
    promises. The `$filename` parameter is never read by the source, and is
    kept here only so that the signature matches. */
module UnusedVariables {
  import opened PhpScanner
  import opened Sequences
  import Decimal

  /** `$this` and the superglobals: neither pass records them. */
  const SpecialVars: seq<string> :=
    ["this", "_GET", "_POST", "_SESSION", "_COOKIE", "_SERVER", "_ENV", "_FILES", "_REQUEST"]

  /** Laravel's declared property names: the assignment pass does not record them. */
  const LaravelFrameworkVars: seq<string> := [
    "fillable", "guarded", "hidden", "visible", "casts", "dates", "appends",
    "touches", "with", "withCount", "perPage", "incrementing", "timestamps",
    "dateFormat", "connection", "table", "primaryKey", "keyType", "morphClass",
    "middleware", "middlewareGroups", "routeMiddleware", "middlewarePriority",
    "dontReport", "dontFlash", "except", "policies", "listen", "commands"
  ]

  /** in_array($name, $list), searched front to back. */
  predicate InList(name: string, list: seq<string>)
    decreases |list|
  {
    |list| > 0 && (list[0] == name || InList(name, list[1..]))
  }

  lemma {:induction false} InListIsMembership(name: string, list: seq<string>)
    ensures InList(name, list) <==> name in list
    decreases |list|
  {
    if |list| > 0 {
      InListIsMembership(name, list[1..]);
      assert list == [list[0]] + list[1..];
    }
  }

  /** Every name the assignment pass leaves out: it checks both lists. */
  const AssignmentIgnores: seq<string> := SpecialVars + LaravelFrameworkVars

  predicate IgnoredOnAssignment(name: string) {
    InList(name, SpecialVars) || InList(name, LaravelFrameworkVars)
  }

  /** One recorded assignment: a name and its 1-based line number. */
  datatype Site = Site(name: string, line: nat)

  /** One element of the returned array: type, variable, line, message. */
  datatype Finding = Finding(kind: string, variable: string, line: nat, message: string)

  /** The finding for `name` assigned on `line`: the name is stored without its
      `$`, and the message shows it with the `$` and the line in decimal. */
  function UnusedVariableFinding(name: string, line: nat): (f: Finding)
    ensures f.kind == "unused_variable" && f.variable == name && f.line == line
    ensures f.message == "Unused variable '$" + name + "' on line " + Decimal.FromNat(line)
  {
    Finding("unused_variable", name, line, "Unused variable '$" + name + "' on line " + Decimal.FromNat(line))
  }

  // ---------------------------------------------------------------------
  // The specification: what each pass records

  /** The captures of one line that the assignment pass records, in order;
      `ignored` is the list of names it leaves out (AssignmentIgnores). */
  function TrackedAssignments(names: seq<string>, lineNo: nat, ignored: seq<string>): seq<Site> {
    if |names| == 0 then []
    else
      var last := names[|names| - 1];
      TrackedAssignments(names[..|names| - 1], lineNo, ignored) + (if InList(last, ignored) then [] else [Site(last, lineNo)])
  }

  function LineAssignments(line: string, lineNo: nat, ignored: seq<string>): seq<Site> {
    if SkipsAssignments(line) then [] else TrackedAssignments(AssignNames(line), lineNo, ignored)
  }

  /** Every assignment the first pass records, in recording order (line by line). */
  function AssignmentSites(lines: seq<string>, ignored: seq<string>): seq<Site> {
    if |lines| == 0 then []
    else AssignmentSites(lines[..|lines| - 1], ignored) + LineAssignments(lines[|lines| - 1], |lines|, ignored)
  }

  /** The captures of one line that the usage pass records; `ignored` is
      the list it leaves out (SpecialVars). */
  function TrackedUses(names: seq<string>, ignored: seq<string>): set<string> {
    if |names| == 0 then {}
    else
      var last := names[|names| - 1];
      TrackedUses(names[..|names| - 1], ignored) + (if InList(last, ignored) then {} else {last})
  }

  /** The names that get a usage entry; this pass skips no line. */
  function UsedNames(lines: seq<string>, ignored: seq<string>): set<string> {
    if |lines| == 0 then {}
    else UsedNames(lines[..|lines| - 1], ignored) + TrackedUses(UseNames(lines[|lines| - 1]), ignored)
  }

  /** The keys of `$assignedVars` once `sites` are recorded: names by first occurrence. */
  function FirstSeenOrder(sites: seq<Site>): seq<string> {
    if |sites| == 0 then []
    else
      var prev := FirstSeenOrder(sites[..|sites| - 1]);
      var name := sites[|sites| - 1].name;
      if name in prev then prev else prev + [name]
  }

  /** The value `$assignedVars[name]`: the lines of name's sites, in recording order. */
  function LinesOf(sites: seq<Site>, name: string): seq<nat> {
    if |sites| == 0 then []
    else
      var last := sites[|sites| - 1];
      LinesOf(sites[..|sites| - 1], name) + (if last.name == name then [last.line] else [])
  }

  function FindingsFor(name: string, lineNos: seq<nat>): (fs: seq<Finding>)
    ensures |fs| == |lineNos|
    ensures forall k :: 0 <= k < |fs| ==> fs[k] == UnusedVariableFinding(name, lineNos[k])
  {
    if |lineNos| == 0 then []
    else FindingsFor(name, lineNos[..|lineNos| - 1]) + [UnusedVariableFinding(name, lineNos[|lineNos| - 1])]
  }

  /** The third loop: names in key order, each unused one with all its lines. */
  function Report(order: seq<string>, sites: seq<Site>, used: set<string>): seq<Finding> {
    if |order| == 0 then []
    else
      var name := order[|order| - 1];
      Report(order[..|order| - 1], sites, used) +
      (if name in used then [] else FindingsFor(name, LinesOf(sites, name)))
  }

  /** The findings for `lines`, given the names each pass ignores. */
  function FindingsOfLines(lines: seq<string>, assignIgnored: seq<string>, useIgnored: seq<string>): seq<Finding> {
    var sites := AssignmentSites(lines, assignIgnored);
    Report(FirstSeenOrder(sites), sites, UsedNames(lines, useIgnored))
  }

  /** What detectUnusedVariables returns for `content`: only unused-variable
      findings, and never one for a name that some line uses. */
  function UnusedFindings(content: string): (issues: seq<Finding>)
    ensures forall f :: f in issues ==>
      f.kind == "unused_variable" && f.variable !in UsedNames(SplitLines(content), SpecialVars)
  {
    var lines := SplitLines(content);
    var sites := AssignmentSites(lines, AssignmentIgnores);
    ReportSkipsUsed(FirstSeenOrder(sites), sites, UsedNames(lines, SpecialVars));
    FindingsOfLines(lines, AssignmentIgnores, SpecialVars)
  }

  /** The third loop reports only unused-variable findings, and none for a name with a usage entry. */
  lemma {:induction false} ReportSkipsUsed(order: seq<string>, sites: seq<Site>, used: set<string>)
    ensures forall f :: f in Report(order, sites, used) ==> f.kind == "unused_variable" && f.variable !in used
  {
    if |order| > 0 {
      var name := order[|order| - 1];
      ReportSkipsUsed(order[..|order| - 1], sites, used);
      var tail := if name in used then [] else FindingsFor(name, LinesOf(sites, name));
      assert Report(order, sites, used) == Report(order[..|order| - 1], sites, used) + tail;
      forall f | f in tail
        ensures f.kind == "unused_variable" && f.variable !in used
      {
        var k :| 0 <= k < |tail| && tail[k] == f;
      }
    }
  }

  /** `$assignedVars` once `sites` are recorded: each key with its lines. */
  function LinesByName(sites: seq<Site>): map<string, seq<nat>> {
    map v | v in FirstSeenOrder(sites) :: LinesOf(sites, v)
  }

  /** A name that is not yet a key has no lines recorded. */
  lemma {:induction false} UnseenHasNoLines(sites: seq<Site>, name: string)
    requires name !in FirstSeenOrder(sites)
    ensures LinesOf(sites, name) == []
  {
    if |sites| > 0 {
      UnseenHasNoLines(sites[..|sites| - 1], name);
    }
  }

  // ---------------------------------------------------------------------
  // The detector

  /** The first loop: `$assignedVars` as its keys in insertion order plus the map itself. */
  method CollectAssignments(lines: seq<string>, ignored: seq<string>)
    returns (assignedOrder: seq<string>, assignedVars: map<string, seq<nat>>)
    ensures assignedOrder == FirstSeenOrder(AssignmentSites(lines, ignored))
    ensures assignedVars == LinesByName(AssignmentSites(lines, ignored))
  {
    assignedOrder, assignedVars := [], map[];
    for lineNum := 0 to |lines|
      invariant assignedOrder == FirstSeenOrder(AssignmentSites(lines[..lineNum], ignored))
      invariant assignedVars == LinesByName(AssignmentSites(lines[..lineNum], ignored))
    {
      var line := lines[lineNum];
      SitesStep(lines, lineNum, ignored);
      // Skip comments, and Laravel's protected property declarations
      if !SkipsAssignments(line) {
        assignedOrder, assignedVars :=
          RecordAssignments(assignedOrder, assignedVars, AssignmentSites(lines[..lineNum], ignored), AssignNames(line), lineNum + 1, ignored);
      } else {
        assert AssignmentSites(lines[..lineNum], ignored) + [] == AssignmentSites(lines[..lineNum], ignored);
      }
    }
    assert lines[..|lines|] == lines;
  }

  /** The sites of one more line come after those of the lines before it. */
  lemma SitesStep(lines: seq<string>, k: nat, ignored: seq<string>)
    requires k < |lines|
    ensures AssignmentSites(lines[..k + 1], ignored) ==
      AssignmentSites(lines[..k], ignored) + LineAssignments(lines[k], k + 1, ignored)
  {
    assert lines[..k + 1][..k] == lines[..k];
  }

  /** The inner loop of the first pass: `$assignedVars[$varName][] = $lineNum + 1`
      for each capture of one line that is not ignored. */
  method RecordAssignments(assignedOrder: seq<string>, assignedVars: map<string, seq<nat>>, ghost sites: seq<Site>,
                           names: seq<string>, lineNo: nat, ignored: seq<string>)
    returns (order': seq<string>, vars': map<string, seq<nat>>)
    requires assignedOrder == FirstSeenOrder(sites)
    requires assignedVars == LinesByName(sites)
    ensures order' == FirstSeenOrder(sites + TrackedAssignments(names, lineNo, ignored))
    ensures vars' == LinesByName(sites + TrackedAssignments(names, lineNo, ignored))
  {
    order', vars' := assignedOrder, assignedVars;
    ghost var now := sites;
    for j := 0 to |names|
      invariant now == sites + TrackedAssignments(names[..j], lineNo, ignored)
      invariant order' == FirstSeenOrder(now)
      invariant vars' == LinesByName(now)
    {
      var varName := names[j];
      TrackedStep(names, j, lineNo, ignored);
      if !InList(varName, ignored) {
        RecordSite(now, Site(varName, lineNo));
        var seen := if varName in vars' then vars'[varName] else [];
        if varName !in vars' {
          order' := order' + [varName];
        }
        vars' := vars'[varName := seen + [lineNo]];
        AppendAssoc(sites, TrackedAssignments(names[..j], lineNo, ignored), [Site(varName, lineNo)]);
        now := now + [Site(varName, lineNo)];
      }
    }
    assert names[..|names|] == names;
  }

  lemma TrackedStep(names: seq<string>, j: nat, lineNo: nat, ignored: seq<string>)
    requires j < |names|
    ensures TrackedAssignments(names[..j + 1], lineNo, ignored) == TrackedAssignments(names[..j], lineNo, ignored) +
      (if InList(names[j], ignored) then [] else [Site(names[j], lineNo)])
  {
    assert names[..j + 1][..j] == names[..j];
  }

  /** Recording one more site: a new name is appended to the keys, and the
      site's line is appended to its name's lines. */
  lemma RecordSite(sites: seq<Site>, site: Site)
    ensures FirstSeenOrder(sites + [site]) ==
      if site.name in FirstSeenOrder(sites) then FirstSeenOrder(sites) else FirstSeenOrder(sites) + [site.name]
    ensures LinesByName(sites + [site]) ==
      LinesByName(sites)[site.name := (if site.name in LinesByName(sites) then LinesByName(sites)[site.name] else []) + [site.line]]
  {
    var s' := sites + [site];
    assert s'[..|sites|] == sites;
    if site.name !in FirstSeenOrder(sites) {
      UnseenHasNoLines(sites, site.name);
    }
    var m, m' := LinesByName(sites), LinesByName(s');
    var expected := m[site.name := (if site.name in m then m[site.name] else []) + [site.line]];
    assert m'.Keys == expected.Keys;
    assert forall v :: v in m' ==> m'[v] == expected[v];
  }

  /** The second loop: the keys of `$usedVars` (each value lists the lines of the uses). */
  method CollectUses(lines: seq<string>, ignored: seq<string>) returns (usedVars: map<string, seq<nat>>)
    ensures usedVars.Keys == UsedNames(lines, ignored)
  {
    usedVars := map[];
    for lineNum := 0 to |lines|
      invariant usedVars.Keys == UsedNames(lines[..lineNum], ignored)
    {
      usedVars := RecordUses(usedVars, UseNames(lines[lineNum]), lineNum + 1, ignored);
      assert lines[..lineNum + 1][..lineNum] == lines[..lineNum];
    }
    assert lines[..|lines|] == lines;
  }

  /** The inner loop of the second pass, over the captures of one line. */
  method RecordUses(usedVars: map<string, seq<nat>>, names: seq<string>, lineNo: nat, ignored: seq<string>)
    returns (updated: map<string, seq<nat>>)
    ensures updated.Keys == usedVars.Keys + TrackedUses(names, ignored)
  {
    updated := usedVars;
    for j := 0 to |names|
      invariant updated.Keys == usedVars.Keys + TrackedUses(names[..j], ignored)
    {
      var varName := names[j];
      assert names[..j + 1][..j] == names[..j];
      if !InList(varName, ignored) {
        var seen := if varName in updated then updated[varName] else [];
        updated := updated[varName := seen + [lineNo]];
      }
    }
    assert names[..|names|] == names;
  }

  /** The third loop: for each key with no usage entry, one finding per recorded line. */
  method ReportUnused(assignedOrder: seq<string>, assignedVars: map<string, seq<nat>>, ghost sites: seq<Site>,
                      usedVars: map<string, seq<nat>>) returns (issues: seq<Finding>)
    requires forall v :: v in assignedOrder ==> v in assignedVars && assignedVars[v] == LinesOf(sites, v)
    ensures issues == Report(assignedOrder, sites, usedVars.Keys)
  {
    issues := [];
    for i := 0 to |assignedOrder|
      invariant issues == Report(assignedOrder[..i], sites, usedVars.Keys)
    {
      var varName := assignedOrder[i];
      assert assignedOrder[..i + 1][..i] == assignedOrder[..i];
      if varName !in usedVars {
        var found := ReportLines(varName, assignedVars[varName]);
        issues := issues + found;
      }
    }
    assert assignedOrder[..|assignedOrder|] == assignedOrder;
  }

  /** The inner loop of the report: one finding per recorded line, in order. */
  method ReportLines(varName: string, assignmentLines: seq<nat>) returns (found: seq<Finding>)
    ensures found == FindingsFor(varName, assignmentLines)
  {
    found := [];
    for k := 0 to |assignmentLines|
      invariant found == FindingsFor(varName, assignmentLines[..k])
    {
      assert assignmentLines[..k + 1][..k] == assignmentLines[..k];
      found := found + [UnusedVariableFinding(varName, assignmentLines[k])];
    }
    assert assignmentLines[..|assignmentLines|] == assignmentLines;
  }

  method DetectUnusedVariables(content: string, filename: string) returns (issues: seq<Finding>)
    ensures issues == UnusedFindings(content)
  {
    var lines := SplitLines(content);
    var assignedOrder, assignedVars := CollectAssignments(lines, AssignmentIgnores);
    var usedVars := CollectUses(lines, SpecialVars);
    issues := ReportUnused(assignedOrder, assignedVars, AssignmentSites(lines, AssignmentIgnores), usedVars);
  }
}
