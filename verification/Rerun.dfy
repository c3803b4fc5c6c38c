/** What rerunning the rewriter does: it settles after one run on every good source, and
    grows the file for ever on every other one. */
module Rerun {
  import opened Options
  import opened Search
  import opened BuildConstraints
  import opened Rewriter

  /** The file after n runs. */
  ghost function Runs(s: Text, h: Text, n: nat): Text
    decreases n
  {
    if n == 0 then s
    else match AddHeader(s, h)
      case None => s
      case Some(x) => Runs(x, h, n - 1)
  }

  // ---------- sources with `package ` inside the constraint block ----------

  /** The package clause then lies wholly inside the block. */
  lemma PackageInsideBlock(s: Text)
    requires HasPackage(s) && !Good(s)
    ensures Index(s[..BuildEnd(s)], PACKAGE) == Index(s, PACKAGE)
  {
    hide Index;
    hide BuildEnd;
    var b, k := BuildEnd(s), Index(s, PACKAGE);
    BlockBoundary(s);
    assert k + |PACKAGE| <= b by {
      if b < k + |PACKAGE| {
        MatchCharacter(s, PACKAGE, k, b - 1 - k);
      }
    }
    assert s[0..b] == s[..b];
    MatchesInSlice(s, 0, b, PACKAGE, k);
    MatchesInSlice(s, 0, b, PACKAGE, Index(s[..b], PACKAGE));
  }

  /** Divergence: the output is again no good source, and it is strictly longer. */
  lemma BadSourceGrows(s: Text, h: Text)
    requires HasPackage(s) && !Good(s) && Clean(h)
    ensures AddHeader(s, h).Some?
    ensures var x := AddHeader(s, h).value;
            && HasPackage(x) && !Good(x)
            && Index(x, PACKAGE) == Index(s, PACKAGE)
            && BuildEnd(x) == BuildEnd(s) + (if s[BuildEnd(s) - 1] == '\n' then 0 else 1)
            && |x| == |s| + (BuildEnd(s) - Index(s, PACKAGE)) + |h| + 2
  {
    hide Index;
    hide BuildEnd;
    hide CutPoint;
    var b, k := BuildEnd(s), Index(s, PACKAGE);
    var c, t := s[..b], s[k..];
    CutInRange(s);
    PackageInsideBlock(s);
    IndexAcrossNewline(c, h + "\n" + t, PACKAGE);
    assert c + "\n" + (h + "\n" + t) == c + "\n" + h + "\n" + t;
    BadSourceRescanned(s, h, t);
  }

  lemma BadSourceRescanned(s: Text, h: Text, t: Text)
    requires BuildEnd(s) > 0 && Clean(h)
    ensures BuildEnd(s[..BuildEnd(s)] + "\n" + (h + "\n" + t)) ==
            BuildEnd(s) + (if s[BuildEnd(s) - 1] == '\n' then 0 else 1)
  {
    hide BuildEnd;
    hide OpensPlain;
    hide Index;
    var b := BuildEnd(s);
    var u := h + "\n" + t;
    BlockBoundary(s);
    if s[b - 1] == '\n' {
      BlankLineOpensPlain(u);
      ScanLocality(s, "\n" + u);
      assert s[..b] + ("\n" + u) == s[..b] + "\n" + u;
    } else {
      MarkerFreeOpensPlain(h, t);
      ScanUnterminated(s, u);
      assert s[..b] == s;
    }
  }

  /** Every further run adds at least the header, so the file grows without bound. */
  lemma {:induction false} GrowsWithoutBound(s: Text, h: Text, n: nat)
    requires HasPackage(s) && !Good(s) && Clean(h)
    ensures |Runs(s, h, n)| >= |s| + n * (|h| + 3)
    decreases n
  {
    hide AddHeader;
    hide Clean;
    hide Index;
    hide BuildEnd;
    if n > 0 {
      BadSourceGrows(s, h);
      var x, g := AddHeader(s, h).value, |h| + 3;
      assert |x| >= |s| + g;
      GrowsWithoutBound(x, h, n - 1);
      assert Runs(s, h, n) == Runs(x, h, n - 1);
      assert (n - 1) * g + g == n * g;
    } else {
      assert Runs(s, h, n) == s;
    }
  }

  // ---------- exact conditions ----------

  /** The last header wins exactly on good sources. */
  lemma LastHeaderWinsExactly(s: Text, h1: Text, h2: Text)
    requires HasPackage(s) && Clean(h1)
    ensures AddHeader(s, h1).Some?
    ensures AddHeader(AddHeader(s, h1).value, h2) == AddHeader(s, h2) <==> Good(s)
  {
    if Good(s) {
      LastHeaderWins(s, h1, h2);
    } else {
      BadSourceGrows(s, h1);
      RewriteLength(s, h2);
      RewriteLength(AddHeader(s, h1).value, h2);
    }
  }

  lemma RewriteLength(s: Text, h: Text)
    requires HasPackage(s) && !Good(s)
    ensures AddHeader(s, h).Some?
    ensures |AddHeader(s, h).value| == |s| + (BuildEnd(s) - Index(s, PACKAGE)) + |h| + 2
  {
    CutInRange(s);
  }

  /** A second application changes nothing exactly on good sources. */
  lemma IdempotentExactly(s: Text, h: Text)
    requires HasPackage(s) && Clean(h)
    ensures AddHeader(s, h).Some?
    ensures AddHeader(AddHeader(s, h).value, h) == AddHeader(s, h) <==> Good(s)
  {
    LastHeaderWinsExactly(s, h, h);
  }

  /** A rewrite neither repairs nor breaks a source, and never loses the package clause. */
  lemma GoodIsInvariant(s: Text, h: Text)
    requires HasPackage(s) && Clean(h)
    ensures AddHeader(s, h).Some? && HasPackage(AddHeader(s, h).value)
    ensures Good(AddHeader(s, h).value) <==> Good(s)
  {
    hide Index;
    hide BuildEnd;
    hide CutPoint;
    CutInRange(s);
    if !Good(s) {
      BadSourceGrows(s, h);
    } else if BuildEnd(s) > 0 {
      var c, t := s[..BuildEnd(s)], s[Index(s, PACKAGE)..];
      LeadingBlock(s);
      PackageBehind(c, h, t);
      BlockRescanned(c, h + "\n" + t);
      assert c + "\n" + (h + "\n" + t) == c + "\n" + h + "\n" + t;
    } else {
      var t := s[CutPoint(s)..];
      CutTail(s);
      IndexAcrossNewline(h, t, PACKAGE);
      MarkerFreeOpensPlain(h, t);
      OpensPlainEndsAtZero(h + "\n" + t);
    }
  }

  lemma OpensPlainEndsAtZero(u: Text)
    requires OpensPlain(u)
    ensures BuildEnd(u) == 0
  {
  }

  /** One run is as good as any number of runs on a good source. */
  lemma {:induction false} SettlesAfterOneRun(s: Text, h: Text, n: nat)
    requires HasPackage(s) && Good(s) && Clean(h) && n > 0
    ensures AddHeader(s, h) == Some(Runs(s, h, n))
    decreases n
  {
    hide AddHeader;
    hide Good;
    hide Clean;
    hide HasPackage;
    GoodIsInvariant(s, h);
    if n > 1 {
      IdempotentExactly(s, h);
      SettlesAfterOneRun(AddHeader(s, h).value, h, n - 1);
    } else {
      assert Runs(AddHeader(s, h).value, h, 0) == AddHeader(s, h).value;
    }
  }

  // ---------- what a rewrite keeps ----------

  /** The code from the package clause on survives byte for byte; it is where the first
      `package ` of the output stands exactly when the source is good. */
  lemma CodePreserved(s: Text, h: Text)
    requires HasPackage(s) && Clean(h)
    ensures AddHeader(s, h).Some?
    ensures var x, code := AddHeader(s, h).value, s[Index(s, PACKAGE)..];
            && |code| <= |x| && x[|x| - |code|..] == code
            && (Index(x, PACKAGE) == |x| - |code| <==> Good(s))
            && (BuildEnd(s) > 0 ==> s[..BuildEnd(s)] <= x)
  {
    hide Index;
    hide BuildEnd;
    hide CutPoint;
    var k := Index(s, PACKAGE);
    CutInRange(s);
    RewriteParts(s, h);
    if !Good(s) {
      BadSourceGrows(s, h);
    } else if BuildEnd(s) > 0 {
      LeadingBlock(s);
      PackageBehind(s[..BuildEnd(s)], h, s[k..]);
    } else {
      CutTail(s);
      IndexAcrossNewline(h, s[CutPoint(s)..], PACKAGE);
    }
  }

  lemma RewriteParts(s: Text, h: Text)
    requires HasPackage(s)
    ensures AddHeader(s, h).Some?
    ensures var x, code := AddHeader(s, h).value, s[Index(s, PACKAGE)..];
            && |code| <= |x| && x[|x| - |code|..] == code
            && (BuildEnd(s) > 0 ==> x == s[..BuildEnd(s)] + "\n" + (h + "\n" + code) && s[..BuildEnd(s)] <= x)
  {
    hide Index;
    hide BuildEnd;
    hide CutPoint;
    CutInRange(s);
    var p, k := CutPoint(s), Index(s, PACKAGE);
    assert s[p..][k - p..] == s[k..];
  }

  /** Where markers stand after a rewrite without constraint block: those at or behind the cut,
      shifted, and no others. */
  lemma MarkersBehindCut(s: Text, h: Text, m: Text, j: int)
    requires HasPackage(s) && Clean(h) && BuildEnd(s) == 0 && m in MARKERS
    ensures AddHeader(s, h).Some?
    ensures MatchesAt(AddHeader(s, h).value, m, j) <==>
            j > |h| && MatchesAt(s, m, j - |h| - 1 + CutPoint(s))
  {
    hide Index;
    hide BuildEnd;
    hide CutPoint;
    CutInRange(s);
    var p := CutPoint(s);
    NewlineBarrier(h, s[p..], m, j);
    assert s[p..|s|] == s[p..];
    MatchesInSlice(s, p, |s|, m, j - |h| - 1);
  }

  /** No occurrence lies before this position. */
  ghost predicate NoneBefore(s: Text, m: Text, cut: int) {
    forall i :: MatchesAt(s, m, i) ==> cut <= i
  }

  /** Every occurrence is found again, moved by this distance. */
  ghost predicate AllMoved(s: Text, x: Text, m: Text, distance: int) {
    forall i :: MatchesAt(s, m, i) ==> MatchesAt(x, m, i + distance)
  }

  lemma MarkersBeforeCut(s: Text, m: Text)
    requires HasPackage(s) && m in CUT_MARKERS
    ensures NoneBefore(s, m, CutPoint(s)) <==> Index(s, m) != 0
  {
    hide Index;
    var k, q := Index(s, PACKAGE), Index(s, m);
    CutPointIsLeast(s);
    assert m in Elements(CUT_MARKERS);
    if q == 0 {
      MatchCharacter(s, m, 0, 0);
      if k == 0 {
        MatchCharacter(s, PACKAGE, 0, 0);
      }
      assert MatchesAt(s, m, 0);
    }
  }

  /** Without constraint block every occurrence of a marker survives a rewrite, at its place behind the
      new header, unless the file begins with that marker: a generated-code notice on the very first
      line is lost. */
  lemma MarkersSurviveExactly(s: Text, h: Text, m: Text)
    requires HasPackage(s) && Clean(h) && BuildEnd(s) == 0 && m in CUT_MARKERS
    ensures AddHeader(s, h).Some?
    ensures AllMoved(s, AddHeader(s, h).value, m, |h| + 1 - CutPoint(s)) <==> Index(s, m) != 0
  {
    hide *;
    MarkersOfCuts(m);
    MarkersBeforeCut(s, m);
    MarkersMove(s, h, m);
    MovedFrom(s, AddHeader(s, h).value, m, |h| + 1 - CutPoint(s), CutPoint(s));
  }

  lemma MarkersOfCuts(m: Text)
    requires m in CUT_MARKERS
    ensures m in MARKERS
  {
  }

  /** The occurrences from the cut on are found again, moved by this distance, and no others are. */
  ghost predicate TailMoved(s: Text, x: Text, m: Text, distance: int, cut: int) {
    forall j {:trigger MatchesAt(x, m, j)} :: MatchesAt(x, m, j) <==> j >= cut + distance && MatchesAt(s, m, j - distance)
  }

  lemma MarkersMove(s: Text, h: Text, m: Text)
    requires HasPackage(s) && Clean(h) && BuildEnd(s) == 0 && m in MARKERS
    ensures AddHeader(s, h).Some?
    ensures TailMoved(s, AddHeader(s, h).value, m, |h| + 1 - CutPoint(s), CutPoint(s))
  {
    hide CutPoint;
    hide AddHeader;
    hide Index;
    hide MatchesAt;
    hide BuildEnd;
    hide Clean;
    hide HasPackage;
    RewriteParts(s, h);
    var x, cut := AddHeader(s, h).value, CutPoint(s);
    forall j {:trigger MatchesAt(x, m, j)}
      ensures MatchesAt(x, m, j) <==> j > |h| && MatchesAt(s, m, j - (|h| + 1 - cut))
    {
      MarkersBehindCut(s, h, m, j);
      assert j - |h| - 1 + cut == j - (|h| + 1 - cut);
    }
  }

  lemma MovedFrom(s: Text, x: Text, m: Text, distance: int, cut: int)
    requires TailMoved(s, x, m, distance, cut)
    ensures AllMoved(s, x, m, distance) <==> NoneBefore(s, m, cut)
  {
    hide MatchesAt;
    if AllMoved(s, x, m, distance) {
      forall i | MatchesAt(s, m, i)
        ensures cut <= i
      {
        assert MatchesAt(x, m, i + distance);
      }
    }
  }

  /** Where markers stand after a rewrite behind a constraint block: inside the block and from the
      package clause on; everything between the two is gone. */
  lemma MarkersAroundBlock(s: Text, h: Text, m: Text, j: int)
    requires HasPackage(s) && Clean(h) && BuildEnd(s) > 0 && m in MARKERS
    ensures AddHeader(s, h).Some?
    ensures var b, k := BuildEnd(s), Index(s, PACKAGE);
            MatchesAt(AddHeader(s, h).value, m, j) <==>
            (MatchesAt(s, m, j) && j + |m| <= b) || (j > b + |h| + 1 && MatchesAt(s, m, j - b - |h| - 2 + k))
  {
    hide Index;
    hide BuildEnd;
    hide AddHeader;
    RewriteParts(s, h);
    var b, k := BuildEnd(s), Index(s, PACKAGE);
    var c, t := s[..b], s[k..];
    TwoNewlineBarriers(c, h, t, m, j);
    assert !MatchesAt(h, m, j - b - 1);
    hide MatchesAt;
    assert s[0..b] == c && s[k..|s|] == t;
    MatchesInSlice(s, 0, b, m, j);
    MatchesInSlice(s, k, |s|, m, j - b - |h| - 2);
  }
}
