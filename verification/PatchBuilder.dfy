/** Inserting an import unless it is present (src/patch_builder.ts). */
module PatchBuilder {
  import opened Wrappers
  import opened Text
  import opened Proposer

  function TrimStart(s: string): string {
    if s != "" && IsSpace(s[0]) then TrimStart(s[1..]) else s
  }

  function TrimEnd(s: string): string {
    if s != "" && IsSpace(s[|s| - 1]) then TrimEnd(s[..|s| - 1]) else s
  }

  function Trim(s: string): string {
    TrimEnd(TrimStart(s))
  }

  /** Every run of white space becomes one space. */
  function Collapse(s: string): string {
    if s == "" then ""
    else if !IsSpace(s[0]) then [s[0]] + Collapse(s[1..])
    else if |s| > 1 && IsSpace(s[1]) then Collapse(s[1..])
    else " " + Collapse(s[1..])
  }

  datatype BuildReason =
    NoStatement | TargetMissing | AlreadyPresent | NoAnchor | NotProposed(reason: Reason)

  datatype BuildResult = Refused(reason: BuildReason) | Inserted(beforeContent: string, afterContent: string)

  predicate IsImportLine(line: string) {
    var t := Trim(line);
    "import " <= t || ("export " <= t && Includes(t, "from"))
  }

  predicate Present(content: string, importStmt: string) {
    Includes(Collapse(content), Collapse(Trim(importStmt)))
  }

  /** The last line that is an import. */
  function LastImport(lines: seq<string>): int {
    if lines == [] then -1
    else if IsImportLine(lines[|lines| - 1]) then |lines| - 1
    else LastImport(lines[..|lines| - 1])
  }

  method FindLastImport(lines: seq<string>) returns (last: int)
    ensures last == LastImport(lines)
    ensures -1 <= last < |lines|
    ensures last >= 0 ==> IsImportLine(lines[last])
    ensures forall i | 0 <= i < |lines| && IsImportLine(lines[i]) :: i <= last
  {
    last := -1;
    for n := 0 to |lines|
      invariant last == LastImport(lines[..n]) && -1 <= last < n
      invariant last >= 0 ==> IsImportLine(lines[last])
      invariant forall i | 0 <= i < n && IsImportLine(lines[i]) :: i <= last
    {
      assert lines[..n + 1][..n] == lines[..n];
      if IsImportLine(lines[n]) {
        last := n;
      }
    }
    assert lines[..|lines|] == lines;
  }

  function Spliced(content: string, importStmt: string, at: nat): string
  {
    var lines := Split(content, '\n');
    if at < |lines| then Join(lines[..at + 1] + [importStmt] + lines[at + 1..], '\n') else content
  }

  function InsertImport(file: Option<string>, importStmt: string, scope: Scope, bytes: string -> nat): BuildResult {
    if importStmt == "" then Refused(NoStatement)
    else if file.None? then Refused(TargetMissing)
    else
      var content := file.value;
      if Present(content, importStmt) then Refused(AlreadyPresent)
      else
        var last := LastImport(Split(content, '\n'));
        if last < 0 then Refused(NoAnchor)
        else
          match ProposeExactBlockReplacement(file, content, Spliced(content, importStmt, last), scope, bytes)
          case NoPatch(reason) => Refused(NotProposed(reason))
          case Proposed(before, after) => Inserted(before, after)
  }

  method DoInsertImportIfAbsent(file: Option<string>, importStmt: string, scope: Scope, bytes: string -> nat)
    returns (result: BuildResult)
    ensures result == InsertImport(file, importStmt, scope, bytes)
  {
    hide Collapse, Trim, Split, Join, Includes, IsImportLine, ProposeExactBlockReplacement, LastImport;
    if importStmt == "" {
      return Refused(NoStatement);
    }
    if file.None? {
      return Refused(TargetMissing);
    }
    var content := file.value;
    var normalized := Collapse(Trim(importStmt));
    var normalizedContent := Collapse(content);
    if Includes(normalizedContent, normalized) {
      return Refused(AlreadyPresent);
    }
    var lines := Split(content, '\n');
    var last := FindLastImport(lines);
    if last < 0 {
      return Refused(NoAnchor);
    }
    var newLines := lines[..last + 1] + [importStmt] + lines[last + 1..];
    var afterContent := Join(newLines, '\n');
    match ProposeExactBlockReplacement(file, content, afterContent, scope, bytes)
    case NoPatch(reason) => return Refused(NotProposed(reason));
    case Proposed(before, after) => return Inserted(before, after);
  }

  // ----- A statement that is in the text is present -----

  /** What the first character of a text contributes to its normal form. */
  function CollapseHead(s: string): string
    requires s != ""
  {
    if !IsSpace(s[0]) then [s[0]] else if |s| > 1 && IsSpace(s[1]) then "" else " "
  }

  lemma CollapseStep(s: string)
    requires s != ""
    ensures Collapse(s) == CollapseHead(s) + Collapse(s[1..])
  {
  }

  lemma EmptyCollapses()
    ensures Collapse("") == ""
  {
  }

  lemma {:induction false} CollapseConcat(a: string, b: string)
    requires a == "" || b == "" || !IsSpace(a[|a| - 1]) || !IsSpace(b[0])
    ensures Collapse(a + b) == Collapse(a) + Collapse(b)
  {
    hide IsSpace, Collapse;
    if a == "" {
      assert a + b == b && Collapse(a) == "" by { EmptyCollapses(); }
    } else if b == "" {
      assert a + b == a && Collapse(b) == "" by { EmptyCollapses(); }
    } else {
      CollapseStep(a + b);
      CollapseStep(a);
      assert (a + b)[1..] == a[1..] + b;
      CollapseConcat(a[1..], b);
    }
  }

  lemma {:induction false} TrimStartParts(s: string) returns (w: string)
    ensures s == w + TrimStart(s) && Blank(w)
    ensures TrimStart(s) == "" || !IsSpace(TrimStart(s)[0])
  {
    w := "";
    if s != "" && IsSpace(s[0]) {
      var rest := TrimStartParts(s[1..]);
      w := [s[0]] + rest;
      assert s == [s[0]] + s[1..];
    }
  }

  lemma {:induction false} TrimEndParts(s: string) returns (w: string)
    ensures s == TrimEnd(s) + w && Blank(w)
    ensures TrimEnd(s) == "" || (!IsSpace(TrimEnd(s)[|TrimEnd(s)| - 1]) && TrimEnd(s)[0] == s[0])
  {
    w := "";
    if s != "" && IsSpace(s[|s| - 1]) {
      var rest := TrimEndParts(s[..|s| - 1]);
      w := rest + [s[|s| - 1]];
      assert s == s[..|s| - 1] + [s[|s| - 1]];
    }
  }

  lemma TrimParts(s: string) returns (before: string, after: string)
    ensures s == before + Trim(s) + after && Blank(before) && Blank(after)
    ensures Trim(s) != "" ==> !IsSpace(Trim(s)[0]) && !IsSpace(Trim(s)[|Trim(s)| - 1])
  {
    before := TrimStartParts(s);
    after := TrimEndParts(TrimStart(s));
    assert s == before + (Trim(s) + after) == before + Trim(s) + after;
  }

  lemma IncludesMiddle(a: string, b: string, c: string)
    ensures Includes(a + b + c, b)
  {
    var s := a + b + c;
    assert s[|a|..|a| + |b|] == b;
    assert MatchAt(s, b, |a|);
  }

  /** A text that contains the statement, in whatever surroundings, has it present. */
  lemma ContainedIsPresent(before: string, importStmt: string, after: string)
    ensures Present(before + importStmt + after, importStmt)
  {
    var t := Trim(importStmt);
    var w, v := TrimParts(importStmt);
    var a, c := before + w, v + after;
    assert before + importStmt + after == a + t + c;
    if t == "" {
      IncludesMiddle("", "", Collapse(a + t + c));
      assert "" + "" + Collapse(a + t + c) == Collapse(a + t + c);
    } else {
      CollapseConcat(a, t);
      CollapseConcat(a + t, c);
      IncludesMiddle(Collapse(a), Collapse(t), Collapse(c));
    }
  }

  // ----- What the normal form is -----

  /** Its only white space is single blanks. */
  predicate Tidy(s: string) {
    forall i | 0 <= i < |s| && IsSpace(s[i]) :: s[i] == ' ' && (i + 1 < |s| ==> !IsSpace(s[i + 1]))
  }

  /** Tidy text is its own normal form. */
  lemma {:induction false} CollapseTidy(s: string)
    requires Tidy(s)
    ensures Collapse(s) == s
  {
    if s != "" { CollapseTidy(s[1..]); }
  }

  lemma {:induction false} CollapseBlank(w: string)
    requires Blank(w) && w != ""
    ensures Collapse(w) == " "
  {
    if |w| > 1 { CollapseBlank(w[1..]); }
  }

  /** A run of white space between two other characters, or at an end, is one blank in the normal form. */
  lemma CollapseRun(a: string, w: string, b: string)
    requires Blank(w) && w != ""
    requires (a == "" || !IsSpace(a[|a| - 1])) && (b == "" || !IsSpace(b[0]))
    ensures Collapse(a + w + b) == Collapse(a) + " " + Collapse(b)
  {
    hide IsSpace, Collapse;
    CollapseConcat(a, w);
    CollapseConcat(a + w, b);
    CollapseBlank(w);
  }

  lemma {:induction false} CollapseIsTidy(s: string)
    ensures Tidy(Collapse(s))
    ensures s != "" ==> Collapse(s) != "" && (IsSpace(Collapse(s)[0]) <==> IsSpace(s[0]))
  {
    if s != "" { CollapseIsTidy(s[1..]); }
  }

  lemma HeadKept(s: string, a: string)
    requires a != "" && a <= s && (CollapseHead(s) == "" ==> |a| > 1)
    ensures CollapseHead(a) == CollapseHead(s)
  {
  }

  /** Every cut of a normal form is the normal form of a cut. */
  lemma {:induction false} CollapseCut(s: string, x: string, y: string) returns (a: string, b: string)
    requires Collapse(s) == x + y
    ensures s == a + b && Collapse(a) == x && Collapse(b) == y
  {
    a, b := "", s;
    if x != "" {
      hide Collapse, IsSpace;
      EmptyCollapses();
      CollapseStep(s);
      var head, rest := CollapseHead(s), Collapse(s[1..]);
      if head == "" {
        a, b := CollapseCut(s[1..], x, y);
        assert a != "";
      } else {
        assert |head| == 1 && head[0] == (head + rest)[0] == (x + y)[0] == x[0];
        assert rest == (head + rest)[1..] == (x + y)[1..] == x[1..] + y;
        a, b := CollapseCut(s[1..], x[1..], y);
      }
      var a' := [s[0]] + a;
      assert s == [s[0]] + s[1..] == a' + b;
      assert a != "" ==> a[0] == s[1];
      CollapseStep(a');
      HeadKept(s, a');
      assert x == [x[0]] + x[1..];
      a := a';
    } else {
      assert x + y == y;
    }
  }

  lemma {:induction false} CollapseLast(m: string)
    requires m != ""
    ensures Collapse(m) != "" && (IsSpace(Collapse(m)[|Collapse(m)| - 1]) <==> IsSpace(m[|m| - 1]))
  {
    if |m| > 1 {
      CollapseLast(m[1..]);
    }
  }

  lemma CollapseEnds(m: string)
    ensures m != "" ==> Collapse(m) != "" && (IsSpace(Collapse(m)[0]) <==> IsSpace(m[0]))
    ensures m != "" ==> (IsSpace(Collapse(m)[|Collapse(m)| - 1]) <==> IsSpace(m[|m| - 1]))
  {
    CollapseIsTidy(m);
    if m != "" { CollapseLast(m); }
  }

  /** A statement is present exactly if the text holds it somewhere, up to the length and kind of white space. */
  lemma PresentIff(content: string, importStmt: string)
    ensures Present(content, importStmt)
       <==> exists a, m, c :: content == a + m + c && Collapse(m) == Collapse(Trim(importStmt))
  {
    hide Collapse, Trim;
    var s, block := Collapse(content), Collapse(Trim(importStmt));
    if Present(content, importStmt) {
      var i := Index(s, block).value;
      assert s == s[..i] + (block + s[i + |block|..]);
      var a, rest := CollapseCut(content, s[..i], block + s[i + |block|..]);
      var m, c := CollapseCut(rest, block, s[i + |block|..]);
      assert content == a + (m + c) == a + m + c;
    }
    if a, m, c :| content == a + m + c && Collapse(m) == block {
      var w, v := TrimParts(importStmt);
      CollapseEnds(m);
      CollapseEnds(Trim(importStmt));
      if m == "" {
        EmptyCollapses();
        IncludesMiddle("", "", s);
        assert "" + "" + s == s;
      } else {
        EmptyCollapses();
        CollapseConcat(a, m);
        CollapseConcat(a + m, c);
        IncludesMiddle(Collapse(a), block, Collapse(c));
      }
    }
  }

  /** Without surrounding white space. */
  predicate Bare(t: string) {
    t != "" ==> !IsSpace(t[0]) && !IsSpace(t[|t| - 1])
  }

  lemma {:induction false} TrimStartUnique(w: string, t: string)
    requires Blank(w) && (t == "" || !IsSpace(t[0]))
    ensures TrimStart(w + t) == t
  {
    if w == "" {
      assert w + t == t;
    } else {
      assert (w + t)[1..] == w[1..] + t;
      TrimStartUnique(w[1..], t);
    }
  }

  lemma {:induction false} TrimEndUnique(t: string, v: string)
    requires Blank(v) && (t == "" || !IsSpace(t[|t| - 1]))
    ensures TrimEnd(t + v) == t
  {
    if v == "" {
      assert t + v == t;
    } else {
      assert (t + v)[..|t + v| - 1] == t + v[..|v| - 1];
      TrimEndUnique(t, v[..|v| - 1]);
    }
  }

  lemma TrimUnique(w: string, t: string, v: string)
    requires Blank(w) && Blank(v) && Bare(t)
    ensures Trim(w + t + v) == t
  {
    if t == "" {
      assert w + t + v == (w + v) + "" && Blank(w + v);
      TrimStartUnique(w + v, "");
    } else {
      assert w + t + v == w + (t + v);
      TrimStartUnique(w, t + v);
      TrimEndUnique(t, v);
    }
  }

  lemma FromIff(t: string)
    ensures Includes(t, "from") <==> exists x, y :: t == x + "from" + y
  {
    if Includes(t, "from") {
      var i := Index(t, "from").value;
      assert t == t[..i] + "from" + t[i + 4..];
    }
    if x, y :| t == x + "from" + y {
      IncludesMiddle(x, "from", y);
    }
  }

  /** Which lines count as imports: up to surrounding white space they start with `import` and a blank, or with `export`
      and a blank and have `from` somewhere. */
  lemma ImportLineIff(line: string)
    ensures IsImportLine(line)
       <==> exists w, t, v ::
              && line == w + t + v && Blank(w) && Blank(v) && Bare(t)
              && ("import " <= t || ("export " <= t && exists x, y :: t == x + "from" + y))
  {
    hide Trim, IsSpace;
    var w, v := TrimParts(line);
    var t := Trim(line);
    FromIff(t);
    if IsImportLine(line) {
      assert line == w + t + v && Bare(t);
    }
    if w', t', v' :| && line == w' + t' + v' && Blank(w') && Blank(v') && Bare(t')
                     && ("import " <= t' || ("export " <= t' && exists x, y :: t' == x + "from" + y)) {
      TrimUnique(w', t', v');
    }
  }

  // ----- The inserted text -----

  lemma {:induction false} LastImportMeaning(lines: seq<string>)
    ensures -1 <= LastImport(lines) < |lines|
    ensures LastImport(lines) >= 0 ==> IsImportLine(lines[LastImport(lines)])
    ensures forall i | LastImport(lines) < i < |lines| :: !IsImportLine(lines[i])
  {
    hide IsImportLine;
    if lines != [] { LastImportMeaning(lines[..|lines| - 1]); }
  }

  /** p ends with the last import line of p + q: no line of q is one, and q is empty or starts on a new line. */
  predicate CutAfterLastImport(p: string, q: string) {
    && IsImportLine(Split(p, '\n')[|Split(p, '\n')| - 1])
    && (forall line | line in Split(q, '\n') :: !IsImportLine(line))
    && (q == "" || q[0] == '\n')
  }

  lemma EmptyIsNoImport()
    ensures !IsImportLine("") && Split("", '\n') == [""]
  {
  }

  lemma JoinOne(part: string)
    ensures Join([part], '\n') == part
  {
  }

  /** Splicing cuts the text in two after a line and puts the new line in between. */
  lemma SpliceCuts(content: string, importStmt: string, at: nat) returns (p: string, q: string)
    requires at < |Split(content, '\n')|
    ensures content == p + q && Spliced(content, importStmt, at) == p + "\n" + importStmt + q
    ensures Split(p, '\n') == Split(content, '\n')[..at + 1]
    ensures Split(q, '\n') == [""] + Split(content, '\n')[at + 1..] && (q == "" || q[0] == '\n')
  {
    hide Split, Join;
    EmptyIsNoImport();
    var lines := Split(content, '\n');
    var head, tail := lines[..at + 1], lines[at + 1..];
    JoinSplit(content, '\n');
    SplitJoin(head, '\n');
    JoinAppend(head, [importStmt], '\n');
    p, q := Join(head, '\n'), "";
    assert lines == head + tail;
    JoinOne(importStmt);
    if tail == [] {
      assert head + [importStmt] + tail == head + [importStmt] && lines == head;
      assert p + "\n" + importStmt + q == p + ['\n'] + importStmt;
    } else {
      JoinAppend(head, tail, '\n');
      JoinAppend(head + [importStmt], tail, '\n');
      SplitJoin(tail, '\n');
      q := "\n" + Join(tail, '\n');
      SplitPrefix("", Join(tail, '\n'), '\n');
      assert "" + ['\n'] + Join(tail, '\n') == q;
    }
  }

  /** Replacing the whole file replaces it by the expansion of the new text. */
  lemma WholeFileReplaced(content: string, replacement: string)
    requires content != ""
    ensures Occurrences(content, content) == 1
    ensures ReplaceFirst(content, content, replacement) == Expand(replacement, "", content, "")
  {
    assert MatchAt(content, content, 0);
    assert Index(content, content) == Some(0);
    assert content[..0] == "" && content[|content|..] == "";
    assert !MatchAt("", content, 0);
    assert SplitOn("", content) == [""];
  }

  lemma EmptyFileHasNoImport()
    ensures LastImport(Split("", '\n')) == -1
  {
  }

  lemma ExpandLineStart(s: string, before: string, found: string, after: string)
    ensures Expand("\n" + s, before, found, after) == "\n" + Expand(s, before, found, after)
  {
    assert ("\n" + s)[1..] == s;
  }

  lemma ExpandShort(a: string, s: string, before: string, found: string, after: string)
    requires |a| < 2
    ensures Expand(a, before, found, after) == a
    ensures Expand(a + "\n" + s, before, found, after) == a + Expand("\n" + s, before, found, after)
  {
    if a == "" {
      assert a + "\n" + s == "\n" + s;
    } else {
      assert (a + "\n" + s)[1..] == "\n" + s;
    }
  }

  lemma ExpandFirst(a: string, s: string, before: string, found: string, after: string)
    returns (head: string, k: nat)
    requires |a| >= 2 && a <= s
    ensures 1 <= k <= 2
    ensures Expand(a, before, found, after) == head + Expand(a[k..], before, found, after)
    ensures Expand(s, before, found, after) == head + Expand(s[k..], before, found, after)
  {
    head, k := [a[0]], 1;
    if a[0] == '$' && a[1] in SPECIAL {
      head := if a[1] == '$' then "$" else if a[1] == '&' then found else if a[1] == '`' then before else after;
      k := 2;
    }
  }

  /** A replacement pattern never reaches across a line end. */
  lemma {:induction false} ExpandLines(a: string, b: string, before: string, found: string, after: string)
    ensures Expand(a + "\n" + b, before, found, after)
         == Expand(a, before, found, after) + "\n" + Expand(b, before, found, after)
  {
    hide Expand;
    var s := a + "\n" + b;
    ExpandLineStart(b, before, found, after);
    if |a| < 2 {
      ExpandShort(a, b, before, found, after);
    } else {
      var head, k := ExpandFirst(a, s, before, found, after);
      assert s[k..] == a[k..] + "\n" + b;
      ExpandLines(a[k..], b, before, found, after);
    }
  }

  lemma {:induction false} ExpandParts(p: string, importStmt: string, q: string, found: string)
    requires q == "" || q[0] == '\n'
    ensures Expand(p + "\n" + importStmt + q, "", found, "")
         == Expand(p, "", found, "") + "\n" + Expand(importStmt, "", found, "") + Expand(q, "", found, "")
  {
    hide Expand;
    assert p + "\n" + importStmt + q == p + "\n" + (importStmt + q);
    ExpandLines(p, importStmt + q, "", found, "");
    if q == "" {
      ExpandLiteral(q, "", found, "");
      assert importStmt + q == importStmt;
    } else {
      assert importStmt + q == importStmt + "\n" + q[1..] && q == "\n" + q[1..];
      ExpandLines(importStmt, q[1..], "", found, "");
      ExpandLineStart(q[1..], "", found, "");
    }
  }

  lemma LiteralParts(p: string, q: string)
    requires Literal(p + q)
    ensures Literal(p) && Literal(q)
  {
    forall i | 0 <= i < |p| - 1 ensures !(p[i] == '$' && p[i + 1] in SPECIAL) {
      assert (p + q)[i] == p[i] && (p + q)[i + 1] == p[i + 1];
    }
    forall i | 0 <= i < |q| - 1 ensures !(q[i] == '$' && q[i + 1] in SPECIAL) {
      assert (p + q)[|p| + i] == q[i] && (p + q)[|p| + i + 1] == q[i + 1];
    }
  }

  /** Something to insert, somewhere to insert it, and not there yet. */
  ghost predicate Insertable(file: Option<string>, importStmt: string) {
    && importStmt != "" && file.Some? && !Present(file.value, importStmt)
    && exists line :: line in Split(file.value, '\n') && IsImportLine(line)
  }

  /** The outcome of an insertion, for every input. An insertable statement goes in exactly when the permissions are
      given and the change fits the budget. The file is cut after its last import line and the statement put there, on
      a line of its own; all three parts are expanded, which changes nothing in parts without a replacement pattern. */
  lemma InsertedText(file: Option<string>, importStmt: string, scope: Scope, bytes: string -> nat)
    returns (p: string, q: string)
    ensures var r := InsertImport(file, importStmt, scope, bytes);
            && (r == Refused(NoStatement) <==> importStmt == "")
            && (r == Refused(TargetMissing) <==> importStmt != "" && file.None?)
            && (r == Refused(AlreadyPresent) <==> importStmt != "" && file.Some? && Present(file.value, importStmt))
            && (r == Refused(NoAnchor) <==>
                  && importStmt != "" && file.Some? && !Present(file.value, importStmt)
                  && forall line | line in Split(file.value, '\n') :: !IsImportLine(line))
    ensures Insertable(file, importStmt) ==>
              var r, content := InsertImport(file, importStmt, scope, bytes), file.value;
              var after := Expand(p, "", content, "") + "\n" + Expand(importStmt, "", content, "")
                           + Expand(q, "", content, "");
              && content == p + q && CutAfterLastImport(p, q)
              && (r == Refused(NotProposed(ModifyNotAllowed)) <==> !scope.allowModify)
              && (r == Refused(NotProposed(OutsideScope)) <==> scope.allowModify && !scope.pathInScope)
              && (r == Refused(NotProposed(OverBudget)) <==>
                    scope.allowModify && scope.pathInScope && !WithinBudget(content, after, scope, bytes))
              && (r == Inserted(content, after) <==>
                    scope.allowModify && scope.pathInScope && WithinBudget(content, after, scope, bytes))
              && (Literal(importStmt) ==> Expand(importStmt, "", content, "") == importStmt)
              && (Literal(importStmt) && Literal(content) ==> after == p + "\n" + importStmt + q)
    ensures InsertImport(file, importStmt, scope, bytes).Inserted? ==> Insertable(file, importStmt)
  {
    hide IsImportLine, Split, Expand, ReplaceFirst, Occurrences, Literal, Present;
    p, q := "", "";
    if importStmt != "" && file.Some? {
      LastImportMeaning(Split(file.value, '\n'));
      if Insertable(file, importStmt) {
        var content := file.value;
        EmptyFileHasNoImport();
        var last := LastImport(Split(content, '\n'));
        p, q := SpliceCuts(content, importStmt, last);
        EmptyIsNoImport();
        WholeFileReplaced(content, Spliced(content, importStmt, last));
        ExpandParts(p, importStmt, q, content);
        if Literal(importStmt) { ExpandLiteral(importStmt, "", content, ""); }
        if Literal(content) {
          LiteralParts(p, q);
          ExpandLiteral(p, "", content, "");
          ExpandLiteral(q, "", content, "");
        }
      }
    }
  }

  // ----- When a second insertion finds the first -----

  /** If the first insertion goes through, the same one on its result is refused as present. */
  predicate SecondRefused(file: Option<string>, importStmt: string, scope: Scope, scope': Scope, bytes: string -> nat) {
    var r := InsertImport(file, importStmt, scope, bytes);
    r.Inserted? ==> InsertImport(Some(r.afterContent), importStmt, scope', bytes) == Refused(AlreadyPresent)
  }

  lemma InsertIsIdempotent(file: Option<string>, importStmt: string, scope: Scope, scope': Scope,
                            bytes: string -> nat)
    requires Literal(importStmt)
    ensures SecondRefused(file, importStmt, scope, scope', bytes)
  {
    hide Present, Expand, Split, Literal;
    var r := InsertImport(file, importStmt, scope, bytes);
    if r.Inserted? {
      var content := r.beforeContent;
      var p, q := InsertedText(file, importStmt, scope, bytes);
      ContainedIsPresent(Expand(p, "", content, "") + "\n", importStmt, Expand(q, "", content, ""));
    }
  }

  function Dollars(s: string): nat {
    if s == "" then 0 else (if s[0] == '$' then 1 else 0) + Dollars(s[1..])
  }

  lemma {:induction false} DollarsAppend(a: string, b: string)
    ensures Dollars(a + b) == Dollars(a) + Dollars(b)
  {
    if a == "" {
      assert a + b == b;
    } else {
      assert (a + b)[1..] == a[1..] + b;
      DollarsAppend(a[1..], b);
    }
  }

  lemma {:induction false} DollarsCollapse(s: string)
    ensures Dollars(Collapse(s)) == Dollars(s)
  {
    if s != "" {
      DollarsCollapse(s[1..]);
      CollapseStep(s);
      DollarsAppend(CollapseHead(s), Collapse(s[1..]));
    }
  }

  lemma {:induction false} DollarsBlank(s: string)
    requires Blank(s)
    ensures Dollars(s) == 0
  {
    if s != "" { DollarsBlank(s[1..]); }
  }

  lemma DollarsTrim(s: string)
    ensures Dollars(Trim(s)) == Dollars(s)
  {
    var before, after := TrimParts(s);
    DollarsAppend(before + Trim(s), after);
    DollarsAppend(before, Trim(s));
    DollarsBlank(before);
    DollarsBlank(after);
  }

  lemma DollarsPair(s: string)
    requires |s| >= 2 && s[0] == '$'
    ensures Dollars(s) == 1 + (if s[1] == '$' then 1 else 0) + Dollars(s[2..])
    ensures Dollars("$") == 1
  {
    assert s[1..][1..] == s[2..];
  }

  /** Expanding spends a dollar sign on every pattern. */
  lemma {:induction false} DollarsExpand(s: string, found: string)
    requires Dollars(found) == 0
    ensures Dollars(Expand(s, "", found, "")) <= Dollars(s)
    ensures !Literal(s) ==> Dollars(Expand(s, "", found, "")) < Dollars(s)
  {
    if |s| >= 2 {
      if s[0] == '$' && s[1] in SPECIAL {
        var c := s[1];
        DollarsExpand(s[2..], found);
        DollarsAppend(if c == '$' then "$" else if c == '&' then found else "", Expand(s[2..], "", found, ""));
        DollarsPair(s);
      } else {
        DollarsExpand(s[1..], found);
        assert !Literal(s) ==> !Literal(s[1..]) by {
          if !Literal(s) {
            var i :| 0 <= i < |s| - 1 && s[i] == '$' && s[i + 1] in SPECIAL;
            assert s[1..][i - 1] == '$' && s[1..][i] in SPECIAL;
          }
        }
      }
    }
  }

  /** A text in which a statement is present has at least its dollar signs. */
  lemma PresentKeepsDollars(content: string, importStmt: string)
    requires Present(content, importStmt)
    ensures Dollars(content) >= Dollars(importStmt)
  {
    hide Collapse, Trim;
    var s, block := Collapse(content), Collapse(Trim(importStmt));
    var i := Index(s, block).value;
    assert s == s[..i] + block + s[i + |block|..];
    DollarsAppend(s[..i] + block, s[i + |block|..]);
    DollarsAppend(s[..i], block);
    DollarsCollapse(content);
    DollarsCollapse(Trim(importStmt));
    DollarsTrim(importStmt);
  }

  lemma NoDollars()
    ensures Dollars("import a") == 0
  {
  }

  lemma BareImport()
    ensures Bare("import a") && Blank("")
  {
  }

  lemma OneImportLine()
    ensures Split("import a", '\n') == ["import a"] && LastImport(["import a"]) == 0 && Dollars("import a") == 0
  {
    hide Trim, Split, IsSpace, Dollars;
    SplitWhole("import a", '\n');
    NoDollars();
    assert Trim("import a") == "import a" by {
      BareImport();
      TrimUnique("", "import a", "");
      assert "" + "import a" + "" == "import a";
    }
    assert "import " <= "import a";
  }

  lemma SplicedAfterOne(importStmt: string)
    ensures Spliced("import a", importStmt, 0) == "import a\n" + importStmt
  {
    hide Split, Join;
    var content := "import a";
    OneImportLine();
    assert [content][..1] + [importStmt] + [content][1..] == [content] + [importStmt];
    JoinAppend([content], [importStmt], '\n');
    JoinOne(content);
    JoinOne(importStmt);
    assert content + ['\n'] == "import a\n";
  }

  lemma PlainIsLiteral()
    ensures Literal("import a")
  {
  }

  lemma EmptyIsLiteral()
    ensures Literal("")
  {
  }

  lemma DollarsLineEnd()
    ensures Dollars("\n") == 0
  {
  }

  /** Whatever statement holds a replacement pattern: after `import a` it goes in expanded, with fewer dollar signs,
      and a second insertion does not find it. */
  lemma PatternBreaksIdempotence(importStmt: string, bytes: string -> nat, scope: Scope, scope': Scope)
    requires !Literal(importStmt) && scope.allowModify && scope.pathInScope
    requires Distance(bytes("import a"), bytes("import a\n" + Expand(importStmt, "", "import a", "")))
          <= scope.maxBytesChanged
    ensures InsertImport(Some("import a"), importStmt, scope, bytes)
         == Inserted("import a", "import a\n" + Expand(importStmt, "", "import a", ""))
    ensures !SecondRefused(Some("import a"), importStmt, scope, scope', bytes)
  {
    hide Present, Spliced, Split, ReplaceFirst, Occurrences, LastImport, Expand, Literal, Dollars;
    var content, inserted := "import a", Expand(importStmt, "", "import a", "");
    OneImportLine();
    DollarsExpand(importStmt, content);
    if Present(content, importStmt) { PresentKeepsDollars(content, importStmt); }
    SplicedAfterOne(importStmt);
    assert content + "\n" == "import a\n";
    WholeFileReplaced(content, content + "\n" + importStmt);
    ExpandLines(content, importStmt, "", content, "");
    assert Literal(content) by { PlainIsLiteral(); }
    ExpandLiteral(content, "", content, "");
    var after := content + "\n" + inserted;
    DollarsAppend(content + "\n", inserted);
    DollarsAppend(content, "\n");
    DollarsLineEnd();
    if Present(after, importStmt) { PresentKeepsDollars(after, importStmt); }
    assert importStmt != "" by { EmptyIsLiteral(); }
  }

  /** Inserting is idempotent, for every file and under all scopes, exactly for statements without a replacement
      pattern. */
  lemma IdempotentIffLiteral(importStmt: string, bytes: string -> nat)
    ensures (forall file, scope, scope' :: SecondRefused(file, importStmt, scope, scope', bytes))
       <==> Literal(importStmt)
  {
    if Literal(importStmt) {
      forall file, scope, scope' ensures SecondRefused(file, importStmt, scope, scope', bytes) {
        InsertIsIdempotent(file, importStmt, scope, scope', bytes);
      }
    } else {
      var after := "import a\n" + Expand(importStmt, "", "import a", "");
      var scope := Scope(true, true, Distance(bytes("import a"), bytes(after)));
      PatternBreaksIdempotence(importStmt, bytes, scope, scope);
    }
  }
}
