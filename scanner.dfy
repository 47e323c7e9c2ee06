/** The text handling of detect-unused-vars.php, written out character by
    character: splitting on line feeds, PHP's trim(), the `protected\s+\$`
    test and the two PCRE patterns the detector runs with preg_match_all.

    Strings are sequences of characters. Every character class the patterns
    use is ASCII, so a character here stands for one byte of the PHP string. */
module PhpScanner {
  import opened Wrappers

  /** `[a-zA-Z_]` */
  predicate IsIdentStart(c: char) {
    'a' <= c <= 'z' || 'A' <= c <= 'Z' || c == '_'
  }

  /** `[a-zA-Z0-9_]` */
  predicate IsIdentChar(c: char) {
    IsIdentStart(c) || '0' <= c <= '9'
  }

  /** PCRE's `\s`: space, tab, line feed, vertical tab, form feed, carriage return. */
  predicate IsSpace(c: char) {
    c == ' ' || c == '\t' || c == '\n' || c == '\U{000B}' || c == '\U{000C}' || c == '\r'
  }

  /** The characters PHP's trim() strips when given no character list. */
  predicate IsTrimChar(c: char) {
    c == ' ' || c == '\t' || c == '\n' || c == '\r' || c == '\0' || c == '\U{000B}'
  }

  /** A name the capture group `([a-zA-Z_][a-zA-Z0-9_]*)` can hold. */
  predicate IsIdentifier(s: string) {
    |s| > 0 && IsIdentStart(s[0]) && forall i :: 1 <= i < |s| ==> IsIdentChar(s[i])
  }

  predicate AllSpace(s: string) {
    forall i :: 0 <= i < |s| ==> IsSpace(s[i])
  }

  predicate StartsWith(s: string, prefix: string) {
    |prefix| <= |s| && s[..|prefix|] == prefix
  }

  // ---------------------------------------------------------------------
  // explode("\n", $content)

  /** implode("\n", lines): the inverse of SplitLines. */
  function JoinLines(lines: seq<string>): string
    requires |lines| >= 1
  {
    if |lines| == 1 then lines[0] else lines[0] + "\n" + JoinLines(lines[1..])
  }

  /** The pieces between line feeds; never empty (the empty text is one empty line). */
  function SplitLines(content: string): (lines: seq<string>)
    ensures |lines| >= 1
    ensures forall i :: 0 <= i < |lines| ==> '\n' !in lines[i]
    ensures JoinLines(lines) == content
  {
    if |content| == 0 then [""]
    else
      var rest := SplitLines(content[1..]);
      if content[0] == '\n' then
        assert JoinLines([""] + rest) == "" + "\n" + JoinLines(rest);
        [""] + rest
      else
        var lines := [[content[0]] + rest[0]] + rest[1..];
        assert lines[1..] == rest[1..];
        if |rest| == 1 then lines
        else
          assert JoinLines(rest) == rest[0] + "\n" + JoinLines(rest[1..]);
          assert JoinLines(lines) == [content[0]] + rest[0] + "\n" + JoinLines(rest[1..]);
          lines
  }

  function NewlineCount(s: string): nat {
    if |s| == 0 then 0 else (if s[0] == '\n' then 1 else 0) + NewlineCount(s[1..])
  }

  /** The number of lines is one more than the number of line feeds. */
  lemma {:induction false} LineCount(content: string)
    ensures |SplitLines(content)| == NewlineCount(content) + 1
  {
    if |content| > 0 {
      LineCount(content[1..]);
    }
  }

  lemma {:induction false} SplitPrefix(a: string, t: string)
    requires '\n' !in a
    ensures SplitLines(a + t) == [a + SplitLines(t)[0]] + SplitLines(t)[1..]
  {
    var st := SplitLines(t);
    if |a| > 0 {
      assert (a + t)[1..] == a[1..] + t;
      SplitPrefix(a[1..], t);
      var rest := SplitLines(a[1..] + t);
      assert rest[0] == a[1..] + st[0] && rest[1..] == st[1..];
      assert (a + t)[0] == a[0] != '\n';
      assert SplitLines(a + t) == [[a[0]] + rest[0]] + rest[1..];
      assert [a[0]] + (a[1..] + st[0]) == a + st[0];
    } else {
      assert a + t == t;
      assert a + st[0] == st[0];
      assert st == [st[0]] + st[1..];
    }
  }

  /** Splitting a text built by joining lines without line feeds gives those lines back. */
  lemma {:induction false} SplitJoin(lines: seq<string>)
    requires |lines| >= 1
    requires forall i :: 0 <= i < |lines| ==> '\n' !in lines[i]
    ensures SplitLines(JoinLines(lines)) == lines
  {
    if |lines| == 1 {
      SplitPrefix(lines[0], "");
      assert SplitLines("") == [""];
      assert lines[0] + "" == lines[0];
    } else {
      var tail := JoinLines(lines[1..]);
      SplitJoin(lines[1..]);
      assert lines[0] + "\n" + tail == lines[0] + ("\n" + tail);
      SplitPrefix(lines[0], "\n" + tail);
      assert ("\n" + tail)[1..] == tail;
      assert SplitLines("\n" + tail) == [""] + lines[1..];
      assert lines[0] + "" == lines[0];
      assert lines == [lines[0]] + lines[1..];
    }
  }

  // ---------------------------------------------------------------------
  // trim($line)

  function TrimLeft(s: string): (r: string)
    ensures |r| <= |s| && r == s[|s| - |r|..]
    ensures forall i :: 0 <= i < |s| - |r| ==> IsTrimChar(s[i])
    ensures |r| > 0 ==> !IsTrimChar(r[0])
  {
    if |s| > 0 && IsTrimChar(s[0]) then TrimLeft(s[1..]) else s
  }

  function TrimRight(s: string): (r: string)
    ensures |r| <= |s| && r == s[..|r|]
    ensures forall i :: |r| <= i < |s| ==> IsTrimChar(s[i])
    ensures |r| > 0 ==> !IsTrimChar(r[|r| - 1])
  {
    if |s| > 0 && IsTrimChar(s[|s| - 1]) then TrimRight(s[..|s| - 1]) else s
  }

  /** trim(): what is left has no trim character at either end, takes every
      character from the input, and is empty exactly for a blank input. */
  function Trim(s: string): (t: string)
    ensures |t| > 0 ==> !IsTrimChar(t[0]) && !IsTrimChar(t[|t| - 1])
    ensures forall k :: 0 <= k < |t| ==> t[k] in s
    ensures t == "" <==> forall i :: 0 <= i < |s| ==> IsTrimChar(s[i])
  {
    TrimBothEnds(s);
    TrimRight(TrimLeft(s))
  }

  /** The facts behind Trim's contract, kept out of the function's own context. */
  lemma TrimBothEnds(s: string)
    ensures var t := TrimRight(TrimLeft(s));
      (|t| > 0 ==> !IsTrimChar(t[0]) && !IsTrimChar(t[|t| - 1])) &&
      (forall k :: 0 <= k < |t| ==> t[k] in s) &&
      (t == "" <==> forall i :: 0 <= i < |s| ==> IsTrimChar(s[i]))
  {
    TrimKeepsChars(s);
    TrimBlank(s);
  }

  /** What trim() keeps is a run of the input's own characters. */
  lemma TrimKeepsChars(s: string)
    ensures var l := TrimLeft(s); var t := TrimRight(l);
      forall k :: 0 <= k < |t| ==> t[k] == s[|s| - |l| + k]
  {
  }

  /** trim() leaves nothing exactly when every character is a trim character. */
  lemma TrimBlank(s: string)
    ensures TrimRight(TrimLeft(s)) == "" <==> forall i :: 0 <= i < |s| ==> IsTrimChar(s[i])
  {
    var l := TrimLeft(s);
    var t := TrimRight(l);
    if t == "" {
      assert |l| == 0;
    } else {
      assert t[0] == l[0] == s[|s| - |l|];
    }
  }

  /** A text whose first non-blank character is not a trim character keeps,
      after trim(), everything from that character on up to its last
      non-blank character. */
  lemma TrimIndented(indent: string, body: string)
    requires forall i :: 0 <= i < |indent| ==> IsTrimChar(indent[i])
    requires |body| > 0 && !IsTrimChar(body[0])
    ensures TrimLeft(indent + body) == body
  {
    var s := indent + body;
    var r := TrimLeft(s);
    assert !IsTrimChar(s[|indent|]);
    assert |s| - |r| <= |indent|;
    assert |r| > 0 ==> r[0] == s[|s| - |r|];
  }

  // ---------------------------------------------------------------------
  // Maximal runs

  /** End of the run of identifier characters starting at p. */
  function IdentEnd(line: string, p: nat): (e: nat)
    requires p <= |line|
    ensures p <= e <= |line|
    ensures forall k :: p <= k < e ==> IsIdentChar(line[k])
    ensures e == |line| || !IsIdentChar(line[e])
    decreases |line| - p
  {
    if p < |line| && IsIdentChar(line[p]) then IdentEnd(line, p + 1) else p
  }

  /** End of the run of `\s` characters starting at p. */
  function SpaceEnd(line: string, p: nat): (e: nat)
    requires p <= |line|
    ensures p <= e <= |line|
    ensures forall k :: p <= k < e ==> IsSpace(line[k])
    ensures e == |line| || !IsSpace(line[e])
    decreases |line| - p
  {
    if p < |line| && IsSpace(line[p]) then SpaceEnd(line, p + 1) else p
  }

  // ---------------------------------------------------------------------
  // preg_match('/protected\s+\$/', $line)

  predicate ProtectedAt(line: string, i: nat) {
    i + 9 <= |line| && line[i..i + 9] == "protected" &&
    var j := SpaceEnd(line, i + 9); i + 9 < j < |line| && line[j] == '$'
  }

  predicate DeclaresProtected(line: string) {
    exists i: nat :: i < |line| && ProtectedAt(line, i)
  }

  /** Lines the assignment pass passes over: after trim() they start with
      `//` or `*`, or they hold `protected`, whitespace, `$`. */
  predicate SkipsAssignments(line: string)
    ensures SkipsAssignments(line) ==> '/' in line || '*' in line || DeclaresProtected(line)
  {
    StartsWith(Trim(line), "//") || StartsWith(Trim(line), "*") || DeclaresProtected(line)
  }

  /** A line comment or a doc-block continuation, however indented, is passed over. */
  lemma CommentLineSkipped(indent: string, marker: string, rest: string)
    requires forall i :: 0 <= i < |indent| ==> IsTrimChar(indent[i])
    requires marker == "//" || marker == "*"
    ensures SkipsAssignments(indent + marker + rest)
  {
    var body := marker + rest;
    assert indent + marker + rest == indent + body;
    assert body[..|marker|] == marker;
    TrimStartsWith(indent, body, marker);
  }

  lemma TrimStartsWith(indent: string, body: string, prefix: string)
    requires forall i :: 0 <= i < |indent| ==> IsTrimChar(indent[i])
    requires 0 < |prefix| <= |body| && body[..|prefix|] == prefix
    requires !IsTrimChar(prefix[0]) && !IsTrimChar(prefix[|prefix| - 1])
    ensures StartsWith(Trim(indent + body), prefix)
  {
    var t := TrimRight(body);
    assert |prefix| <= |t| by {
      assert body[|prefix| - 1] == prefix[|prefix| - 1];
      TrimRightKeeps(body, |prefix| - 1);
    }
    assert StartsWith(t, prefix) by {
      assert t[..|prefix|] == body[..|prefix|];
    }
    assert Trim(indent + body) == t by {
      assert body[0] == prefix[0];
      TrimIndented(indent, body);
    }
  }

  /** trim() never removes a character that has a non-blank one at or after it. */
  lemma TrimRightKeeps(s: string, k: nat)
    requires k < |s| && !IsTrimChar(s[k])
    ensures |TrimRight(s)| > k
  {
  }

  /** A line holding `protected`, whitespace and `$` anywhere is passed over,
      whatever comes before it (a comment, or a longer word such as `unprotected`). */
  lemma ProtectedPropertySkipped(pre: string, gap: string, rest: string)
    requires |gap| > 0 && AllSpace(gap)
    ensures SkipsAssignments(pre + "protected" + gap + "$" + rest)
  {
    var line := pre + "protected" + gap + "$" + rest;
    var i := |pre|;
    assert line[i..i + 9] == "protected";
    var j := SpaceEnd(line, i + 9);
    assert forall k :: i + 9 <= k < i + 9 + |gap| ==> line[k] == gap[k - i - 9];
    assert line[i + 9 + |gap|] == '$';
    assert j == i + 9 + |gap|;
    assert ProtectedAt(line, i);
  }

  // ---------------------------------------------------------------------
  // The two patterns, one match attempt at a time

  datatype Match = Match(name: string, end: nat)

  /** The text at p is `$` followed by `name`, which is a possible capture. */
  predicate CapturedAt(line: string, p: nat, name: string) {
    p + 1 + |name| <= |line| && line[p] == '$' && line[p + 1..p + 1 + |name|] == name && IsIdentifier(name)
  }

  /** After the `=` at eq, the final `[^=]` of the assignment pattern can stand at k:
      only spaces in between, and line[k] is not `=`. */
  predicate ClosesAssignment(line: string, eq: nat, k: nat) {
    eq < k < |line| && line[k] != '=' && forall t :: eq < t < k ==> IsSpace(line[t])
  }

  /** One way `\$([a-zA-Z_][a-zA-Z0-9_]*)\s*=\s*[^=]` can match line[p..e]
      capturing `name`, with its `=` at eq. */
  predicate AssignmentShape(line: string, p: nat, name: string, eq: nat, e: nat) {
    CapturedAt(line, p, name) && p + 1 + |name| <= eq < |line| && line[eq] == '=' &&
    (forall t :: p + 1 + |name| <= t < eq ==> IsSpace(line[t])) &&
    e >= 1 && ClosesAssignment(line, eq, e - 1)
  }

  /** PCRE's match of the assignment pattern anchored at p: the identifier is
      taken whole, and the second `\s*` gives back one space when the `[^=]`
      needs it. */
  function AssignMatchAt(line: string, p: nat): (r: Option<Match>)
    requires p <= |line|
    ensures r.Some? ==> p < r.value.end <= |line| && CapturedAt(line, p, r.value.name)
  {
    if p + 1 < |line| && line[p] == '$' && IsIdentStart(line[p + 1]) then
      var ie := IdentEnd(line, p + 2);
      var eq := SpaceEnd(line, ie);
      var name := line[p + 1..ie];
      assert IsIdentifier(name);
      if eq < |line| && line[eq] == '=' then
        var ws := SpaceEnd(line, eq + 1);
        if ws < |line| && line[ws] != '=' then Some(Match(name, ws + 1))
        else if ws > eq + 1 then Some(Match(name, ws))
        else None
      else None
    else
      None
  }

  /** The match found at p is one way the pattern can match there ... */
  lemma AssignMatchSound(line: string, p: nat)
    requires p <= |line|
    ensures var r := AssignMatchAt(line, p);
      r.Some? ==> AssignmentShape(line, p, r.value.name, SpaceEnd(line, p + 1 + |r.value.name|), r.value.end)
  {
    if p + 1 < |line| && line[p] == '$' && IsIdentStart(line[p + 1]) {
      var ie := IdentEnd(line, p + 2);
      var eq := SpaceEnd(line, ie);
      var name := line[p + 1..ie];
      assert p + 1 + |name| == ie;
      if eq < |line| && line[eq] == '=' {
        var ws := SpaceEnd(line, eq + 1);
        if ws < |line| && line[ws] != '=' {
          assert AssignMatchAt(line, p) == Some(Match(name, ws + 1));
          AssignMatchFound(line, p, ie, eq, ws + 1);
        } else if ws > eq + 1 {
          assert AssignMatchAt(line, p) == Some(Match(name, ws));
          assert IsSpace(line[ws - 1]);
          AssignMatchFound(line, p, ie, eq, ws);
        }
      }
    }
  }

  /** ... and every way it can match at p has the returned name and ends no later
      than the returned end (PCRE's greedy choice); with no match there is no way. */
  lemma AssignMatchGreedy(line: string, p: nat, name: string, eq: nat, e: nat)
    requires p <= |line| && AssignmentShape(line, p, name, eq, e)
    ensures var r := AssignMatchAt(line, p);
      r.Some? && r.value.name == name && e <= r.value.end
  {
    ShapeIsMaximal(line, p, name, eq, e);
    assert line[p + 1] == name[0];
    var ie := IdentEnd(line, p + 2);
    var ws := SpaceEnd(line, eq + 1);
    var best := if ws < |line| && line[ws] != '=' then ws + 1 else if ws > eq + 1 then ws else 0;
    AssignMatchComplete(line, p, ie, eq, best);
  }

  /** The match the function returns has the assignment shape. */
  lemma AssignMatchFound(line: string, p: nat, ie: nat, eq: nat, e: nat)
    requires p + 1 < |line| && line[p] == '$' && IsIdentStart(line[p + 1])
    requires ie == IdentEnd(line, p + 2) && eq == SpaceEnd(line, ie)
    requires eq < |line| && line[eq] == '=' && e >= 1 && ClosesAssignment(line, eq, e - 1)
    ensures AssignmentShape(line, p, line[p + 1..ie], eq, e)
  {
    var name := line[p + 1..ie];
    assert IsIdentifier(name);
    assert CapturedAt(line, p, name);
  }

  /** Any shape at p captures the whole identifier run and has its `=` right
      after the following spaces. */
  lemma ShapeIsMaximal(line: string, p: nat, name: string, eq: nat, e: nat)
    requires AssignmentShape(line, p, name, eq, e)
    ensures p + 2 <= |line| && IdentEnd(line, p + 2) == p + 1 + |name|
    ensures SpaceEnd(line, p + 1 + |name|) == eq
  {
    var q := p + 1 + |name|;
    forall k | p + 2 <= k < q ensures IsIdentChar(line[k]) {
      assert line[k] == name[k - p - 1];
    }
    assert !IsIdentChar(line[q]);
    var ie := IdentEnd(line, p + 2);
    if ie < q {
      assert false;
    }
    var se := SpaceEnd(line, q);
    if se != eq {
      assert false;
    }
  }

  /** With the `=` found at eq, every shape at p ends no later than `best`
      (and there is none when best is 0). */
  lemma AssignMatchComplete(line: string, p: nat, ie: nat, eq: nat, best: nat)
    requires p + 1 < |line| && ie == IdentEnd(line, p + 2) && eq == SpaceEnd(line, ie)
    requires eq < |line| && line[eq] == '='
    requires var ws := SpaceEnd(line, eq + 1);
      best == (if ws < |line| && line[ws] != '=' then ws + 1 else if ws > eq + 1 then ws else 0)
    ensures forall name: string, eq': nat, e: nat :: AssignmentShape(line, p, name, eq', e) ==>
              name == line[p + 1..ie] && eq' == eq && e <= best
  {
    var ws := SpaceEnd(line, eq + 1);
    forall name: string, eq': nat, e: nat | AssignmentShape(line, p, name, eq', e)
      ensures name == line[p + 1..ie] && eq' == eq && e <= best
    {
      ShapeIsMaximal(line, p, name, eq', e);
    }
  }

  /** `\s*=(?!=)` at q: optional spaces, one `=`, and no second `=` after it. */
  predicate AssignmentFollows(line: string, q: nat)
    requires q <= |line|
  {
    var eq := SpaceEnd(line, q);
    eq < |line| && line[eq] == '=' && (eq + 1 == |line| || line[eq + 1] != '=')
  }

  /** One way `\$([a-zA-Z_][a-zA-Z0-9_]*)(?!\s*=(?!=))` can match at p with capture
      `name`: the identifier need not be the whole run, since PCRE backtracks
      into it when the negative lookahead fails. */
  predicate UsageShape(line: string, p: nat, name: string) {
    CapturedAt(line, p, name) && !AssignmentFollows(line, p + 1 + |name|)
  }

  /** PCRE's match of the usage pattern anchored at p: the longest capture the
      lookahead accepts, which is the whole identifier run, or the run without
      its last character when an assignment shape follows the run. */
  function UseMatchAt(line: string, p: nat): (r: Option<Match>)
    requires p <= |line|
    ensures r.Some? ==> UsageShape(line, p, r.value.name) && r.value.end == p + 1 + |r.value.name|
  {
    if p + 1 < |line| && line[p] == '$' && IsIdentStart(line[p + 1]) then
      var ie := IdentEnd(line, p + 2);
      if AssignmentFollows(line, ie) then
        if ie > p + 2 then
          assert SpaceEnd(line, ie - 1) == ie - 1;
          assert IsIdentifier(line[p + 1..ie - 1]);
          Some(Match(line[p + 1..ie - 1], ie - 1))
        else
          None
      else
        assert IsIdentifier(line[p + 1..ie]);
        Some(Match(line[p + 1..ie], ie))
    else
      None
  }

  /** Every capture the usage pattern can make at p is no longer than the returned
      one, and there is none when nothing is returned. */
  lemma UseMatchLongest(line: string, p: nat, name: string)
    requires p <= |line| && UsageShape(line, p, name)
    ensures var r := UseMatchAt(line, p);
      r.Some? && |name| <= |r.value.name|
  {
    assert line[p + 1] == name[0];
    UseMatchComplete(line, p, IdentEnd(line, p + 2));
  }

  lemma UseMatchComplete(line: string, p: nat, ie: nat)
    requires p + 1 < |line| && ie == IdentEnd(line, p + 2)
    ensures forall name :: UsageShape(line, p, name) ==>
              p + 1 + |name| <= ie && (AssignmentFollows(line, ie) ==> p + 1 + |name| < ie)
  {
    forall name | UsageShape(line, p, name)
      ensures p + 1 + |name| <= ie && (AssignmentFollows(line, ie) ==> p + 1 + |name| < ie)
    {
      var q := p + 1 + |name|;
      forall k | p + 2 <= k < q ensures IsIdentChar(line[k]) {
        assert line[k] == name[k - p - 1];
      }
    }
  }

  // ---------------------------------------------------------------------
  // preg_match_all: leftmost matches, each search resuming where the last match ended

  /** The names the assignment pattern captures in line[p..]. */
  function AssignNamesFrom(line: string, p: nat): (names: seq<string>)
    requires p <= |line|
    ensures forall i :: 0 <= i < |names| ==> IsIdentifier(names[i])
    decreases |line| - p
  {
    if p == |line| then []
    else
      match AssignMatchAt(line, p)
      case Some(m) => [m.name] + AssignNamesFrom(line, m.end)
      case None => AssignNamesFrom(line, p + 1)
  }

  /** preg_match_all with the assignment pattern: every capture is one the
      pattern can make somewhere in the line. */
  function AssignNames(line: string): (names: seq<string>)
    ensures forall v :: v in names ==> exists q: nat, eq: nat, e: nat :: AssignmentShape(line, q, v, eq, e)
  {
    AssignNamesAllSound(line);
    AssignNamesFrom(line, 0)
  }

  /** The names the usage pattern captures in line[p..]. */
  function UseNamesFrom(line: string, p: nat): (names: seq<string>)
    requires p <= |line|
    ensures forall i :: 0 <= i < |names| ==> IsIdentifier(names[i])
    decreases |line| - p
  {
    if p == |line| then []
    else
      match UseMatchAt(line, p)
      case Some(m) => [m.name] + UseNamesFrom(line, m.end)
      case None => UseNamesFrom(line, p + 1)
  }

  /** preg_match_all with the usage pattern: every capture is one the pattern
      can make somewhere in the line. */
  function UseNames(line: string): (names: seq<string>)
    ensures forall v :: v in names ==> exists q: nat :: UsageShape(line, q, v)
  {
    UseNamesAllSound(line);
    UseNamesFrom(line, 0)
  }

  /** Every name preg_match_all captures with the assignment pattern is the
      capture of a match the pattern can make at that position or later. */
  lemma {:induction false} AssignNamesSound(line: string, p: nat, v: string)
    requires p <= |line| && v in AssignNamesFrom(line, p)
    ensures exists q: nat, eq: nat, e: nat :: p <= q && AssignmentShape(line, q, v, eq, e)
    decreases |line| - p
  {
    if p < |line| {
      match AssignMatchAt(line, p)
      case Some(m) =>
        if v == m.name {
          AssignMatchWitness(line, p);
        } else {
          AssignNamesSound(line, m.end, v);
        }
      case None =>
        AssignNamesSound(line, p + 1, v);
    }
  }

  /** A match at p is a match the pattern can make at p or later. */
  lemma AssignMatchWitness(line: string, p: nat)
    requires p <= |line|
    ensures var r := AssignMatchAt(line, p);
      r.Some? ==> exists q: nat, eq: nat, e: nat :: p <= q && AssignmentShape(line, q, r.value.name, eq, e)
  {
    AssignMatchSound(line, p);
    var r := AssignMatchAt(line, p);
    if r.Some? {
      var eq := SpaceEnd(line, p + 1 + |r.value.name|);
      assert AssignmentShape(line, p, r.value.name, eq, r.value.end);
    }
  }

  /** Every name preg_match_all captures with the usage pattern is a capture the
      pattern can make at that position or later. */
  lemma {:induction false} UseNamesSound(line: string, p: nat, v: string)
    requires p <= |line| && v in UseNamesFrom(line, p)
    ensures exists q: nat :: p <= q && UsageShape(line, q, v)
    decreases |line| - p
  {
    if p < |line| {
      match UseMatchAt(line, p)
      case Some(m) =>
        if v == m.name {
          assert UsageShape(line, p, v);
        } else {
          UseNamesSound(line, m.end, v);
        }
      case None =>
        UseNamesSound(line, p + 1, v);
    }
  }

  lemma AssignNamesAllSound(line: string)
    ensures forall v :: v in AssignNamesFrom(line, 0) ==>
      exists q: nat, eq: nat, e: nat :: AssignmentShape(line, q, v, eq, e)
  {
    forall v | v in AssignNamesFrom(line, 0)
      ensures exists q: nat, eq: nat, e: nat :: AssignmentShape(line, q, v, eq, e)
    {
      AssignNamesSound(line, 0, v);
    }
  }

  lemma UseNamesAllSound(line: string)
    ensures forall v :: v in UseNamesFrom(line, 0) ==> exists q: nat :: UsageShape(line, q, v)
  {
    forall v | v in UseNamesFrom(line, 0)
      ensures exists q: nat :: UsageShape(line, q, v)
    {
      UseNamesSound(line, 0, v);
    }
  }

  /** Text without a `$` holds neither an assignment nor a use. */
  lemma NoDollarNoNames(line: string, p: nat)
    requires p <= |line|
    requires forall k :: p <= k < |line| ==> line[k] != '$'
    ensures AssignNamesFrom(line, p) == [] && UseNamesFrom(line, p) == []
  {
    var captured := AssignNamesFrom(line, p);
    if captured != [] {
      AssignNamesSound(line, p, captured[0]);
    }
    var used := UseNamesFrom(line, p);
    if used != [] {
      UseNamesSound(line, p, used[0]);
    }
  }

  // ---------------------------------------------------------------------
  // preg_match_all reaches every match that no earlier match swallowed

  /** A usage match ends right after its identifier, so it stops before any later `$`. */
  lemma UseMatchStopsAtDollar(line: string, p: nat, q: nat)
    requires p < q < |line| && line[q] == '$' && UseMatchAt(line, p).Some?
    ensures UseMatchAt(line, p).value.end <= q
  {
    var m := UseMatchAt(line, p).value;
    forall k | p + 1 <= k < m.end
      ensures IsIdentChar(line[k])
    {
      assert line[k] == m.name[k - p - 1];
    }
  }

  /** The scan from p captures the usage match at every q at or after p. */
  lemma {:induction false} UseNamesComplete(line: string, p: nat, q: nat)
    requires p <= q < |line| && UseMatchAt(line, q).Some?
    ensures UseMatchAt(line, q).value.name in UseNamesFrom(line, p)
    decreases q - p
  {
    if p < q {
      match UseMatchAt(line, p)
      case Some(m) =>
        UseMatchStopsAtDollar(line, p, q);
        UseNamesComplete(line, m.end, q);
      case None =>
        UseNamesComplete(line, p + 1, q);
    }
  }

  /** An assignment match is `$`, the name, spaces, `=`, spaces and one more
      character, so it runs past a later `$` only by taking that `$` as its
      final `[^=]`. */
  lemma AssignMatchStopsAtDollar(line: string, p: nat, q: nat)
    requires p < q < |line| && line[q] == '$' && AssignMatchAt(line, p).Some?
    ensures AssignMatchAt(line, p).value.end <= q || AssignMatchAt(line, p).value.end == q + 1
  {
    AssignMatchSound(line, p);
    var m := AssignMatchAt(line, p).value;
    forall k | p < k < m.end - 1
      ensures line[k] != '$'
    {
      if k < p + 1 + |m.name| {
        assert line[k] == m.name[k - p - 1];
      }
    }
  }

  /** The scan from p captures the assignment match at every q at or after p
      whose `$` no match starting in between took as its final `[^=]`. */
  lemma {:induction false} AssignNamesComplete(line: string, p: nat, q: nat)
    requires p <= q < |line| && AssignMatchAt(line, q).Some?
    requires forall r :: p <= r < q && AssignMatchAt(line, r).Some? ==> AssignMatchAt(line, r).value.end != q + 1
    ensures AssignMatchAt(line, q).value.name in AssignNamesFrom(line, p)
    decreases q - p
  {
    if p < q {
      match AssignMatchAt(line, p)
      case Some(m) =>
        AssignMatchStopsAtDollar(line, p, q);
        AssignNamesComplete(line, m.end, q);
      case None =>
        AssignNamesComplete(line, p + 1, q);
    }
  }

  /** preg_match_all over a whole line records the usage match at every `$`,
      and the assignment match at every `$` that the text before it does not
      end in `=` and spaces. */
  lemma LineNamesComplete(line: string)
    ensures forall q :: 0 <= q < |line| && UseMatchAt(line, q).Some? ==>
      UseMatchAt(line, q).value.name in UseNames(line)
    ensures forall q :: 0 <= q < |line| && AssignMatchAt(line, q).Some? && !EndsInEquals(line[..q]) ==>
      AssignMatchAt(line, q).value.name in AssignNames(line)
  {
    forall q | 0 <= q < |line| && UseMatchAt(line, q).Some?
      ensures UseMatchAt(line, q).value.name in UseNames(line)
    {
      UseNamesComplete(line, 0, q);
    }
    forall q | 0 <= q < |line| && AssignMatchAt(line, q).Some? && !EndsInEquals(line[..q])
      ensures AssignMatchAt(line, q).value.name in AssignNames(line)
    {
      AssignmentRecorded(line, line[..q]);
    }
  }

  /** A match that takes the `$` at index |pre| as its final `[^=]` needs `pre`
      to end with `=` and spaces. */
  predicate EndsInEquals(pre: string) {
    exists k :: 0 <= k < |pre| && pre[k] == '=' && AllSpace(pre[k + 1..])
  }

  lemma SwallowNeedsEquals(line: string, pre: string, r: nat)
    requires |pre| < |line| && r < |pre| && AssignMatchAt(line, r).Some?
    requires line[..|pre|] == pre
    ensures AssignMatchAt(line, r).value.end == |pre| + 1 ==> EndsInEquals(pre)
  {
    AssignMatchSound(line, r);
    var m := AssignMatchAt(line, r).value;
    if m.end == |pre| + 1 {
      var eq := SpaceEnd(line, r + 1 + |m.name|);
      assert pre[eq] == '=';
      forall i | eq + 1 <= i < |pre|
        ensures IsSpace(pre[i])
      {
        assert pre[i] == line[i];
      }
      assert AllSpace(pre[eq + 1..]);
    }
  }

  // ---------------------------------------------------------------------
  // What the patterns do with the shapes that matter

  /** `$`, then x, then w, then op, written in line from index p. */
  predicate WrittenAt(line: string, p: nat, x: string, w: string, op: string) {
    var e := p + 1 + |x| + |w|;
    e + |op| <= |line| && line[p] == '$' && line[p + 1..p + 1 + |x|] == x &&
    line[p + 1 + |x|..e] == w && line[e..e + |op|] == op
  }

  /** The parts of `pre + "$" + x + w + op + rest` are written in it after `pre`. */
  lemma WrittenAfterPrefix(pre: string, x: string, w: string, op: string, rest: string)
    ensures var line := pre + "$" + x + w + op + rest;
      WrittenAt(line, |pre|, x, w, op) && line[..|pre|] == pre
  {
    var line := pre + "$" + x + w + op + rest;
    var e := |pre| + 1 + |x| + |w|;
    assert line[|pre| + 1..|pre| + 1 + |x|] == x;
    assert line[|pre| + 1 + |x|..e] == w;
    assert line[e..e + |op|] == op;
  }

  /** An identifier x written from p + 1 and followed by a non-identifier character. */
  lemma IdentRunAt(line: string, p: nat, x: string)
    requires IsIdentifier(x) && p + 1 + |x| < |line| && !IsIdentChar(line[p + 1 + |x|])
    requires line[p + 1..p + 1 + |x|] == x
    ensures IsIdentStart(line[p + 1]) && IdentEnd(line, p + 2) == p + 1 + |x|
  {
    assert line[p + 1] == x[0];
    forall k | p + 2 <= k < p + 1 + |x|
      ensures IsIdentChar(line[k])
    {
      assert line[k] == x[k - p - 1];
    }
    IdentEndAt(line, p + 2, p + 1 + |x|);
  }

  /** Spaces w written from s and followed by a character that is not a space. */
  lemma SpaceRunAt(line: string, s: nat, w: string)
    requires AllSpace(w) && s + |w| < |line| && !IsSpace(line[s + |w|])
    requires line[s..s + |w|] == w
    ensures SpaceEnd(line, s) == s + |w|
  {
    forall k | s <= k < s + |w|
      ensures IsSpace(line[k])
    {
      assert line[k] == w[k - s];
    }
    SpaceEndAt(line, s, s + |w|);
  }

  /** `$`, an identifier x and spaces w written from p, then `=`: the identifier
      run ends after x and the space run ends at that `=`. */
  lemma DollarLayout(line: string, p: nat, x: string, w: string)
    requires IsIdentifier(x) && AllSpace(w) && p + 1 + |x| + |w| < |line|
    requires line[p] == '$' && line[p + 1 + |x| + |w|] == '='
    requires line[p + 1..p + 1 + |x|] == x && line[p + 1 + |x|..p + 1 + |x| + |w|] == w
    ensures var ie := p + 1 + |x|;
      IsIdentStart(line[p + 1]) && IdentEnd(line, p + 2) == ie && SpaceEnd(line, ie) == ie + |w|
  {
    var ie := p + 1 + |x|;
    assert !IsIdentChar(line[ie]) by {
      if |w| > 0 {
        assert line[ie] == w[0];
      }
    }
    IdentRunAt(line, p, x);
    SpaceRunAt(line, ie, w);
  }

  /** The identifier run ends at the first character that is not an identifier character. */
  lemma IdentEndAt(line: string, p: nat, e: nat)
    requires p <= e < |line| && !IsIdentChar(line[e])
    requires forall k :: p <= k < e ==> IsIdentChar(line[k])
    ensures IdentEnd(line, p) == e
  {
  }

  /** The space run from q ends at the first character that is not a space. */
  lemma SpaceEndAt(line: string, q: nat, e: nat)
    requires q <= e < |line| && !IsSpace(line[e])
    requires forall k :: q <= k < e ==> IsSpace(line[k])
    ensures SpaceEnd(line, q) == e
  {
  }

  /** `$x == …` and `$x === …`, wherever they stand in a line: no assignment of
      x starts at that `$`, and the line records a use of x. */
  lemma ComparisonIsUse(line: string, p: nat, x: string, w: string)
    requires IsIdentifier(x) && AllSpace(w) && WrittenAt(line, p, x, w, "==")
    ensures AssignMatchAt(line, p) == None && UseMatchAt(line, p) == Some(Match(x, p + 1 + |x|))
    ensures x in UseNames(line)
  {
    var eq := p + 1 + |x| + |w|;
    assert line[eq] == line[eq..eq + 2][0] && line[eq + 1] == line[eq..eq + 2][1];
    DollarLayout(line, p, x, w);
    ComparisonNotAssignment(line, p, eq);
    ComparisonUseMatch(line, p, x, eq);
    UseNamesComplete(line, 0, p);
  }

  /** A `$` whose identifier and spaces run into `==` starts no assignment match. */
  lemma ComparisonNotAssignment(line: string, p: nat, eq: nat)
    requires p + 1 < |line| && line[p] == '$' && IsIdentStart(line[p + 1])
    requires SpaceEnd(line, IdentEnd(line, p + 2)) == eq && eq + 1 < |line| && line[eq] == '=' && line[eq + 1] == '='
    ensures AssignMatchAt(line, p) == None
  {
    assert SpaceEnd(line, eq + 1) == eq + 1;
  }

  /** A `$` whose identifier x and spaces run into `==` matches the usage pattern
      with x whole. */
  lemma ComparisonUseMatch(line: string, p: nat, x: string, eq: nat)
    requires p + 1 + |x| <= eq && eq + 1 < |line| && line[p] == '$' && IsIdentStart(line[p + 1]) && |x| > 0
    requires line[p + 1..p + 1 + |x|] == x && IdentEnd(line, p + 2) == p + 1 + |x|
    requires SpaceEnd(line, p + 1 + |x|) == eq && line[eq] == '=' && line[eq + 1] == '='
    ensures UseMatchAt(line, p) == Some(Match(x, p + 1 + |x|))
  {
    assert !AssignmentFollows(line, p + 1 + |x|);
  }

  /** `$x = …` with something other than `=` after the `=`, wherever it stands
      in a line: an assignment of x starts at that `$`, and the usage pattern
      backtracks to x without its last character, so a one-character x yields no
      use there. The line records x as assigned unless the text before the `$`
      ends with `=` and spaces, when an earlier match swallows the `$`. */
  lemma AssignmentBacktracksUse(line: string, p: nat, x: string, w: string)
    requires IsIdentifier(x) && AllSpace(w) && WrittenAt(line, p, x, w, "=")
    requires p + 2 + |x| + |w| < |line| && line[p + 2 + |x| + |w|] != '='
    ensures AssignMatchAt(line, p).Some? && AssignMatchAt(line, p).value.name == x
    ensures UseMatchAt(line, p) == (if |x| == 1 then None else Some(Match(x[..|x| - 1], p + |x|)))
    ensures |x| > 1 ==> x[..|x| - 1] in UseNames(line)
    ensures !EndsInEquals(line[..p]) ==> x in AssignNames(line)
  {
    var ie := p + 1 + |x|;
    assert line[ie + |w|] == line[ie + |w|..ie + |w| + 1][0];
    DollarLayout(line, p, x, w);
    AssignmentMatch(line, p, x, ie + |w|);
    AssignmentUseBacktracks(line, p, x, ie + |w|);
    if |x| > 1 {
      UseNamesComplete(line, 0, p);
    }
    if !EndsInEquals(line[..p]) {
      AssignmentRecorded(line, line[..p]);
    }
  }

  /** An identifier x run and spaces followed by `=` and a character other than
      `=`: the assignment pattern matches at p and captures x. */
  lemma AssignmentMatch(line: string, p: nat, x: string, eq: nat)
    requires p + 1 + |x| <= eq && eq + 1 < |line| && line[p] == '$' && IsIdentStart(line[p + 1]) && |x| > 0
    requires line[p + 1..p + 1 + |x|] == x && IdentEnd(line, p + 2) == p + 1 + |x|
    requires SpaceEnd(line, p + 1 + |x|) == eq && line[eq] == '=' && line[eq + 1] != '='
    ensures AssignMatchAt(line, p).Some? && AssignMatchAt(line, p).value.name == x
  {
    var ws := SpaceEnd(line, eq + 1);
    if ws < |line| && line[ws] != '=' {
      assert AssignMatchAt(line, p) == Some(Match(x, ws + 1));
    } else {
      assert ws > eq + 1;
      assert AssignMatchAt(line, p) == Some(Match(x, ws));
    }
  }

  /** In the same layout the usage pattern's lookahead fails after the whole of
      x, so it backtracks one character. */
  lemma AssignmentUseBacktracks(line: string, p: nat, x: string, eq: nat)
    requires p + 1 + |x| <= eq && eq + 1 < |line| && line[p] == '$' && IsIdentStart(line[p + 1]) && |x| > 0
    requires line[p + 1..p + 1 + |x|] == x && IdentEnd(line, p + 2) == p + 1 + |x|
    requires SpaceEnd(line, p + 1 + |x|) == eq && line[eq] == '=' && line[eq + 1] != '='
    ensures UseMatchAt(line, p) == if |x| == 1 then None else Some(Match(x[..|x| - 1], p + |x|))
  {
    assert AssignmentFollows(line, p + 1 + |x|);
    if |x| > 1 {
      assert line[p + 1..p + |x|] == x[..|x| - 1] by {
        assert line[p + 1..p + |x|] == line[p + 1..p + 1 + |x|][..|x| - 1];
      }
    }
  }

  /** An assignment match at the `$` after `pre` is recorded unless `pre` ends
      with `=` and spaces. */
  lemma AssignmentRecorded(line: string, pre: string)
    requires |pre| < |line| && line[..|pre|] == pre && AssignMatchAt(line, |pre|).Some?
    requires !EndsInEquals(pre)
    ensures AssignMatchAt(line, |pre|).value.name in AssignNames(line)
  {
    forall r | 0 <= r < |pre| && AssignMatchAt(line, r).Some?
      ensures AssignMatchAt(line, r).value.end != |pre| + 1
    {
      SwallowNeedsEquals(line, pre, r);
    }
    AssignNamesComplete(line, 0, |pre|);
  }

  /** `$a = $b = 1`: the first match swallows the `$` of `$b`, so only a is recorded. */
  lemma ChainedAssignmentRecordsFirst()
    ensures AssignNames("$a = $b = 1") == ["a"]
  {
    var line := "$a = $b = 1";
    assert AssignNamesFrom(line, 6) == [] by {
      ChainedTail();
      NoDollarNoNames(line, 6);
    }
    assert AssignNamesFrom(line, 0) == ["a"] + AssignNamesFrom(line, 6) by {
      assert IdentEnd(line, 2) == 2;
      assert SpaceEnd(line, 2) == 3;
      assert SpaceEnd(line, 4) == 5;
      assert line[1..2] == "a";
      assert AssignMatchAt(line, 0) == Some(Match("a", 6));
    }
  }

  /** What is left of `$a = $b = 1` after the first match holds no `$`. */
  lemma ChainedTail()
    ensures forall k :: 6 <= k < |"$a = $b = 1"| ==> "$a = $b = 1"[k] != '$'
  {
    var line := "$a = $b = 1";
    assert line[6..] == "b = 1";
    forall k | 6 <= k < |line| ensures line[k] != '$' {
      assert line[k] == line[6..][k - 6];
    }
  }

  /** `=>` is an assignment shape: `$k => $v` records k as assigned and only v as used. */
  lemma ArrowIsAssignmentShape()
    ensures AssignNames("$k => $v") == ["k"]
    ensures UseNames("$k => $v") == ["v"]
  {
    var line := "$k => $v";
    assert IdentEnd(line, 2) == 2;
    assert SpaceEnd(line, 2) == 3;
    assert SpaceEnd(line, 4) == 4;
    assert line[1..2] == "k";
    assert AssignMatchAt(line, 0) == Some(Match("k", 5));
    assert AssignNamesFrom(line, 5) == [];
    assert UseMatchAt(line, 0) == None;
    assert IdentEnd(line, 8) == 8;
    assert line[7..8] == "v";
    assert UseMatchAt(line, 6) == Some(Match("v", 8));
  }
}
