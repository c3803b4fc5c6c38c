/** The scan for the block of build-constraint lines a Go file may begin with. */
module BuildConstraints {
  import opened Search
  import opened Whitespace

  const GO_BUILD: Text := "//go:build"
  const PLUS_BUILD: Text := "// +build"

  /** A line is a constraint when, behind white space, a marker and a space are followed by
      something else than white space. */
  ghost predicate IsConstraint(line: Text) {
    Continues(line, GO_BUILD + " ") || Continues(line, PLUS_BUILD + " ")
  }

  ghost predicate Continues(line: Text, m: Text) {
    exists w, r :: line == w + m + r && AllSpace(w) && !AllSpace(r)
  }

  /** The test of the loop on the trimmed line finds exactly that: because it asks for a space behind
      the marker, a marker followed by white space only is no constraint. */
  lemma TrimmedTestIsContinues(line: Text, m: Text)
    requires |m| > 1 && LeadingSpace(m) == 0 && m[0] == '/' && m[|m| - 1] == ' '
    ensures m <= TrimSpace(line) <==> Continues(line, m)
  {
    if m <= TrimSpace(line) {
      TrimmedContinues(line, m);
      hide TrimSpace;
    }
    if Continues(line, m) {
      ContinuesTrimmed(line, m);
      hide TrimSpace;
    }
  }

  /** The two prefixes a constraint line may have, once trimmed. */
  lemma ConstraintExactly(line: Text)
    ensures IsConstraint(line) <==> "//go:build " <= TrimSpace(line) || "// +build " <= TrimSpace(line)
  {
    assert GO_BUILD + " " == "//go:build " && PLUS_BUILD + " " == "// +build ";
    TrimmedTestIsContinues(line, "//go:build ");
    TrimmedTestIsContinues(line, "// +build ");
    hide TrimSpace;
    hide Continues;
  }

  lemma TrimmedContinues(line: Text, m: Text)
    requires |m| > 1 && m[|m| - 1] == ' ' && m <= TrimSpace(line)
    ensures Continues(line, m)
  {
    hide AllSpace;
    hide LeadingSpace;
    var l := TrimLeft(line);
    var n := |line| - |l|;
    TrimLeftLeavesTail(line);
    hide TrimLeft;
    assert l[..|m|] == m;
    assert l == m + l[|m|..];
    TrimRightKeeps(m, l[|m|..]);
    assert line == line[..n] + m + l[|m|..];
  }

  lemma ContinuesTrimmed(line: Text, m: Text)
    requires |m| > 1 && LeadingSpace(m) == 0 && m[0] == '/' && m[|m| - 1] == ' ' && Continues(line, m)
    ensures m <= TrimSpace(line)
  {
    hide AllSpace;
    hide TrimLeft;
    var w, r :| line == w + m + r && AllSpace(w) && !AllSpace(r);
    assert LeadingSpace(m + r) == 0 by {
      assert (m + r)[0] == '/';
    }
    hide LeadingSpace;
    TrimLeftOfSpace(w, m + r);
    assert line == w + (m + r);
    TrimRightKeeps(m, r);
  }

  /** The first line of s, terminator included. */
  ghost function FirstLine(s: Text): (line: Text)
    requires s != ""
    ensures line != "" && line <= s
  {
    var i := Index(s, "\n");
    if i < 0 then s else s[..i + 1]
  }

  /** All lines of s, terminators included. */
  ghost function Lines(s: Text): seq<Text> {
    if s == "" then [] else [FirstLine(s)] + Lines(s[|FirstLine(s)|..])
  }

  function Concat(parts: seq<Text>): Text {
    if parts == [] then "" else parts[0] + Concat(parts[1..])
  }

  /** Length of the leading constraint block of s. */
  ghost function BuildEnd(s: Text): (b: nat)
    ensures b <= |s|
  {
    if s == "" || !IsConstraint(FirstLine(s)) then 0
    else |FirstLine(s)| + BuildEnd(s[|FirstLine(s)|..])
  }

  /** u opens with no constraint line. */
  ghost predicate OpensPlain(u: Text) {
    u == "" || !IsConstraint(FirstLine(u))
  }

  /** What one turn of the line loop finds. */
  lemma ScanStep(src: Text, offset: nat, lineEnd: int)
    requires offset < |src|
    requires var i := Index(src[offset..], "\n"); lineEnd == if i < 0 then |src| else i + offset + 1
    ensures offset < lineEnd <= |src|
    ensures var line := TrimSpace(src[offset..lineEnd]);
            BuildEnd(src[offset..]) ==
            if GO_BUILD + " " <= line || PLUS_BUILD + " " <= line
            then lineEnd - offset + BuildEnd(src[lineEnd..]) else 0
  {
    hide Index;
    hide Continues;
    hide TrimSpace;
    assert src[offset..lineEnd] == FirstLine(src[offset..]);
    assert src[offset..][lineEnd - offset..] == src[lineEnd..];
    TrimmedTestIsContinues(src[offset..lineEnd], GO_BUILD + " ");
    TrimmedTestIsContinues(src[offset..lineEnd], PLUS_BUILD + " ");
  }

  /** The line loop of getLeadingBuildConstraintEnd. */
  method LeadingBuildConstraintEnd(src: Text) returns (end: nat)
    ensures end == BuildEnd(src)
  {
    hide Index;
    hide IsConstraint;
    hide TrimSpace;
    hide FirstLine;
    hide BuildEnd;
    var offset := 0;
    while offset < |src|
      invariant offset <= |src|
      invariant BuildEnd(src) == offset + BuildEnd(src[offset..])
    {
      var lineEnd := FindIndex(src[offset..], "\n");
      if lineEnd < 0 {
        lineEnd := |src|;
      } else {
        lineEnd := lineEnd + offset + 1;
      }
      ScanStep(src, offset, lineEnd);
      var line := TrimSpace(src[offset..lineEnd]);
      if !(GO_BUILD + " " <= line) && !(PLUS_BUILD + " " <= line) {
        break;
      }
      offset := lineEnd;
    }
    if offset > 0 {
      return offset;
    }
    return 0;
  }

  /** Splitting into lines loses nothing, and a newline can only end a line. */
  lemma {:induction false} LinesConcat(s: Text)
    ensures Concat(Lines(s)) == s
    ensures forall i :: 0 <= i < |Lines(s)| ==>
              var line := Lines(s)[i];
              line != "" && '\n' !in line[..|line| - 1] && (i < |Lines(s)| - 1 ==> line[|line| - 1] == '\n')
  {
    hide IsConstraint;
    hide FirstLine;
    hide Index;
    if s != "" {
      var line := FirstLine(s);
      var rest := s[|line|..];
      FirstLineShape(s);
      LinesConcat(rest);
      assert Lines(s)[1..] == Lines(rest);
      if rest == "" {
        assert Lines(rest) == [];
      }
      forall i | 0 <= i < |Lines(s)|
        ensures var l := Lines(s)[i];
                l != "" && '\n' !in l[..|l| - 1] && (i < |Lines(s)| - 1 ==> l[|l| - 1] == '\n')
      {
        if i > 0 {
          assert Lines(s)[i] == Lines(rest)[i - 1];
        }
      }
    }
  }

  lemma FirstLineShape(s: Text)
    requires s != ""
    ensures var line := FirstLine(s);
            '\n' !in line[..|line| - 1] && (line[|line| - 1] == '\n' || line == s)
  {
    var line := FirstLine(s);
    var i := Index(s, "\n");
    forall j | 0 <= j < |line| - 1
      ensures line[j] != '\n'
    {
      if line[j] == '\n' {
        assert s[j..j + 1] == "\n";
        assert MatchesAt(s, "\n", j);
      }
    }
    if i >= 0 {
      MatchCharacter(s, "\n", i, 0);
    }
  }

  /** n leading lines are constraints and line n, if there is one, is not. */
  ghost predicate IsLongestRun(lines: seq<Text>, n: nat) {
    && n <= |lines|
    && (forall i :: 0 <= i < n ==> IsConstraint(lines[i]))
    && (n < |lines| ==> !IsConstraint(lines[n]))
  }

  /** The scan returns the total length of the longest run of leading constraint lines. */
  lemma {:induction false} BuildEndIsLongestRun(s: Text) returns (n: nat)
    ensures IsLongestRun(Lines(s), n)
    ensures BuildEnd(s) == |Concat(Lines(s)[..n])| && s[..BuildEnd(s)] == Concat(Lines(s)[..n])
  {
    hide IsConstraint;
    if s == "" || !IsConstraint(FirstLine(s)) {
      n := 0;
    } else {
      var line := FirstLine(s);
      var rest := s[|line|..];
      var m := BuildEndIsLongestRun(rest);
      n := m + 1;
      assert Lines(s)[..n] == [line] + Lines(rest)[..m];
      assert Concat(Lines(s)[..n]) == line + Concat(Lines(rest)[..m]);
      assert s[..BuildEnd(s)] == line + rest[..BuildEnd(rest)];
    }
  }

  /** A constraint line contains one of the two constraint markers. */
  lemma ConstraintHasMarker(line: Text)
    requires IsConstraint(line)
    ensures Occurs(line, GO_BUILD) || Occurs(line, PLUS_BUILD)
  {
    var m := if Continues(line, GO_BUILD + " ") then GO_BUILD else PLUS_BUILD;
    ContinuesContains(line, m);
    hide IsConstraint;
  }

  lemma ContinuesContains(line: Text, m: Text)
    requires Continues(line, m + " ")
    ensures Occurs(line, m)
  {
    var w, r :| line == w + (m + " ") + r;
    assert line[|w|..|w| + |m|] == m;
    assert MatchesAt(line, m, |w|);
  }

  /** Text free of both markers, followed by a newline, opens with no constraint line. */
  lemma MarkerFreeOpensPlain(a: Text, t: Text)
    requires Index(a, GO_BUILD) < 0 && Index(a, PLUS_BUILD) < 0
    ensures OpensPlain(a + "\n" + t)
  {
    hide IsConstraint;
    var u := a + "\n" + t;
    var i := Index(u, "\n");
    assert u[|a|..|a| + 1] == "\n";
    assert MatchesAt(u, "\n", |a|);
    assert FirstLine(u) == a[..i] + "\n" + "";
    MarkerFreePart(a, i, GO_BUILD);
    MarkerFreePart(a, i, PLUS_BUILD);
    if IsConstraint(FirstLine(u)) {
      ConstraintHasMarker(FirstLine(u));
    }
  }

  lemma MarkerFreePart(a: Text, i: nat, m: Text)
    requires Index(a, m) < 0 && Inline(m) && i <= |a|
    ensures !Occurs(a[..i] + "\n" + "", m)
  {
    IndexOfPrefix(a, m, i);
    IndexAcrossNewline(a[..i], "", m);
  }

  /** How the scan meets a terminated line. */
  lemma ScanTerminatedLine(a: Text, t: Text)
    requires '\n' !in a
    ensures FirstLine(a + "\n" + t) == a + "\n"
    ensures BuildEnd(a + "\n" + t) == if IsConstraint(a + "\n") then |a| + 1 + BuildEnd(t) else 0
  {
    hide IsConstraint;
    var u := a + "\n" + t;
    assert u[|a|..|a| + 1] == "\n";
    assert MatchesAt(u, "\n", |a|);
    var i := Index(u, "\n");
    MatchCharacter(u, "\n", i, 0);
    assert u[..i + 1] == a + "\n";
    assert u[|a| + 1..] == t;
  }

  /** The block ends at a line boundary or at the end of the text. */
  lemma {:induction false} BlockBoundary(s: Text)
    requires BuildEnd(s) > 0
    ensures s[BuildEnd(s) - 1] == '\n' || BuildEnd(s) == |s|
  {
    hide IsConstraint;
    var line := FirstLine(s);
    FirstLineShape(s);
    if BuildEnd(s[|line|..]) > 0 {
      BlockBoundary(s[|line|..]);
    }
  }

  /** Locality: what follows a terminated block may be replaced by anything that opens plain. */
  lemma {:induction false} ScanLocality(s: Text, u: Text)
    requires BuildEnd(s) > 0 && s[BuildEnd(s) - 1] == '\n' && OpensPlain(u)
    ensures BuildEnd(s[..BuildEnd(s)] + u) == BuildEnd(s)
  {
    hide IsConstraint;
    hide FirstLine;
    hide Index;
    var line := FirstLine(s);
    var rest := s[|line|..];
    var b := BuildEnd(rest);
    FirstLineShape(s);
    var body := line[..|line| - 1];
    assert line == body + "\n";
    assert s[..BuildEnd(s)] + u == body + "\n" + (rest[..b] + u);
    ScanTerminatedLine(body, rest[..b] + u);
    if b > 0 {
      ScanLocality(rest, u);
    } else {
      assert rest[..b] + u == u;
    }
  }

  /** A block whose last line has no newline swallows the newline put after it, and no more. */
  lemma {:induction false} ScanUnterminated(s: Text, u: Text)
    requires |s| > 0 && BuildEnd(s) == |s| && s[|s| - 1] != '\n' && OpensPlain(u)
    ensures BuildEnd(s + "\n" + u) == |s| + 1
  {
    hide IsConstraint;
    hide FirstLine;
    hide Index;
    var line := FirstLine(s);
    var rest := s[|line|..];
    FirstLineShape(s);
    if line == s {
      assert s == s[..|s| - 1] + [s[|s| - 1]];
      ConstraintWithNewline(s);
      ScanTerminatedLine(s, u);
    } else {
      var body := line[..|line| - 1];
      assert line == body + "\n";
      ScanTerminatedLine(body, rest + "\n" + u);
      assert s + "\n" + u == body + "\n" + (rest + "\n" + u);
      ScanUnterminated(rest, u);
    }
  }

  lemma ConstraintWithNewline(line: Text)
    requires IsConstraint(line)
    ensures IsConstraint(line + "\n")
  {
    var m := if Continues(line, GO_BUILD + " ") then GO_BUILD + " " else PLUS_BUILD + " ";
    var w, r :| line == w + m + r && AllSpace(w) && !AllSpace(r);
    assert line + "\n" == w + m + (r + "\n");
    AllSpaceThenRune(r, "\n");
  }
}
