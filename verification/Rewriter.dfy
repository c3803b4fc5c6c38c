/** The license-header rewriter: where it cuts a file, what it puts there, and why it may be rerun. */
module Rewriter {
  import opened Options
  import opened Search
  import opened BuildConstraints

  const PACKAGE: Text := "package "
  const GENERATED: Text := "// Code generated"
  const CUT_MARKERS: seq<Text> := [GO_BUILD, PLUS_BUILD, GENERATED]
  const MARKERS: set<Text> := {PACKAGE, GO_BUILD, PLUS_BUILD, GENERATED}

  /** A header that contains none of the four markers. */
  ghost predicate Clean(h: Text) {
    forall m :: m in MARKERS ==> Index(h, m) < 0
  }

  /** Leading constraint lines, if any, all stand before the first `package `. */
  ghost predicate Good(s: Text) {
    BuildEnd(s) == 0 || Index(s, PACKAGE) >= BuildEnd(s)
  }

  ghost predicate HasPackage(s: Text) {
    Index(s, PACKAGE) >= 0
  }

  ghost predicate StartsWithMarker(t: Text) {
    exists m :: m in MARKERS && m <= t
  }

  // ---------- the cut point ----------

  /** One test of getIdx: a later position takes over when it is positive and smaller. */
  ghost function Earlier(ret: int, idx: int): int {
    if 0 < idx < ret then idx else ret
  }

  ghost function CutPoint(s: Text): int {
    Earlier(Earlier(Earlier(Index(s, PACKAGE), Index(s, GO_BUILD)), Index(s, PLUS_BUILD)), Index(s, GENERATED))
  }

  /** The tests for an arbitrary list of markers. */
  ghost function CutFold(s: Text, order: seq<Text>, ret: int): int {
    if order == [] then ret else CutFold(s, order[1..], Earlier(ret, Index(s, order[0])))
  }

  /** p is the least of `bound` and the positive first positions of the markers in ms. */
  ghost predicate IsLeastCut(s: Text, ms: set<Text>, bound: int, p: int) {
    && (p == bound || (exists m :: m in ms && 0 < p == Index(s, m)))
    && p <= bound
    && (0 <= bound ==> forall m :: m in ms && 0 < Index(s, m) ==> p <= Index(s, m))
  }

  ghost function Elements(order: seq<Text>): set<Text> {
    set m | m in order
  }

  /** The outcome of the tests is that least position, whatever the order they run in. */
  lemma {:induction false} CutFoldIsLeast(s: Text, order: seq<Text>, ret: int)
    requires ret >= -1
    ensures IsLeastCut(s, Elements(order), ret, CutFold(s, order, ret))
    ensures ret < 0 <==> CutFold(s, order, ret) < 0
  {
    hide Index;
    if order != [] {
      CutFoldIsLeast(s, order[1..], Earlier(ret, Index(s, order[0])));
      assert Elements(order) == {order[0]} + Elements(order[1..]);
    }
  }

  lemma CutOrderIrrelevant(s: Text, order: seq<Text>, order': seq<Text>, ret: int)
    requires ret >= -1 && Elements(order) == Elements(order')
    ensures CutFold(s, order, ret) == CutFold(s, order', ret)
  {
    hide Index;
    CutFoldIsLeast(s, order, ret);
    CutFoldIsLeast(s, order', ret);
  }

  /** getIdx. */
  method GetIdx(src: Text) returns (ret: int)
    ensures ret == CutPoint(src)
  {
    hide Index;
    ret := FindIndex(src, PACKAGE);
    var idx := FindIndex(src, GO_BUILD);
    if idx > 0 && idx < ret {
      ret := idx;
    }
    idx := FindIndex(src, PLUS_BUILD);
    if idx > 0 && idx < ret {
      ret := idx;
    }
    idx := FindIndex(src, GENERATED);
    if idx > 0 && idx < ret {
      ret := idx;
    }
  }

  /** The order the source tests in is one of them. */
  lemma CutPointIsLeast(s: Text)
    ensures IsLeastCut(s, Elements(CUT_MARKERS), Index(s, PACKAGE), CutPoint(s))
    ensures CutPoint(s) < 0 <==> !HasPackage(s)
  {
    hide Index;
    var k := Index(s, PACKAGE);
    assert CUT_MARKERS[1..] == [PLUS_BUILD, GENERATED];
    assert [PLUS_BUILD, GENERATED][1..] == [GENERATED];
    var p1 := Earlier(k, Index(s, GO_BUILD));
    var p2 := Earlier(p1, Index(s, PLUS_BUILD));
    assert CutFold(s, [GENERATED], p2) == CutPoint(s);
    assert CutFold(s, [PLUS_BUILD, GENERATED], p1) == CutPoint(s);
    CutFoldIsLeast(s, CUT_MARKERS, k);
  }

  /** The tail a cut leaves behind starts with a marker and still has its package clause. */
  lemma CutTail(s: Text)
    requires HasPackage(s)
    ensures 0 <= CutPoint(s) <= Index(s, PACKAGE) < |s|
    ensures StartsWithMarker(s[CutPoint(s)..])
    ensures Index(s[CutPoint(s)..], PACKAGE) == Index(s, PACKAGE) - CutPoint(s)
  {
    hide Index;
    var k := Index(s, PACKAGE);
    CutPointIsLeast(s);
    var p := CutPoint(s);
    var m :| (m == PACKAGE || m in Elements(CUT_MARKERS)) && p == Index(s, m);
    assert m in MARKERS;
    assert s[p..][..|m|] == s[p..p + |m|] == m;
    IndexOfSuffix(s, PACKAGE, p);
  }

  // ---------- the rewrite ----------

  lemma CutInRange(s: Text)
    ensures CutPoint(s) >= 0 <==> HasPackage(s)
    ensures HasPackage(s) ==> CutPoint(s) <= Index(s, PACKAGE) < |s|
  {
    CutPointIsLeast(s);
  }

  /** addHeader: None where the source returns nil. */
  ghost function AddHeader(src: Text, header: Text): Option<Text> {
    CutInRange(src);
    var p, b := CutPoint(src), BuildEnd(src);
    if p < 0 then None
    else if b > 0 then Some(src[..b] + "\n" + header + "\n" + src[Index(src, PACKAGE)..])
    else Some(header + "\n" + src[p..])
  }

  method RewriteSource(src: Text, header: Text) returns (out: Option<Text>)
    ensures out == AddHeader(src, header)
  {
    var pkgIdx := GetIdx(src);
    CutInRange(src);
    if pkgIdx < 0 {
      return None;
    }
    var buildEnd := LeadingBuildConstraintEnd(src);
    if buildEnd > 0 {
      pkgIdx := FindIndex(src, PACKAGE);
      return Some(src[..buildEnd] + "\n" + header + "\n" + src[pkgIdx..]);
    }
    return Some(header + "\n" + src[pkgIdx..]);
  }

  /** Behind which text the header stands, and behind the header what is left of the source. */
  ghost predicate HeaderBehind(x: Text, block: Text, h: Text, rest: Text) {
    x == block + h + "\n" + rest
  }

  /** The whole output. There is one exactly if the text "package " occurs. Without constraint block it is
      the header, a newline and the source from the least of the package clause and the positive first
      positions of the other markers; otherwise block, newline, header, newline, and the source from the
      package clause on. */
  lemma OutputExactly(s: Text, h: Text)
    ensures AddHeader(s, h).Some? <==> Occurs(s, "package ")
    ensures AddHeader(s, h).Some? && BuildEnd(s) == 0 ==>
              exists p :: 0 <= p < |s| && HeaderBehind(AddHeader(s, h).value, "", h, s[p..])
                          && IsLeastCut(s, {"//go:build", "// +build", "// Code generated"}, Index(s, "package "), p)
    ensures AddHeader(s, h).Some? && BuildEnd(s) > 0 ==>
              0 <= Index(s, "package ") < |s|
              && HeaderBehind(AddHeader(s, h).value, s[..BuildEnd(s)] + "\n", h, s[Index(s, "package ")..])
  {
    hide BuildEnd;
    CutInRange(s);
    CutPointIsLeast(s);
    hide Index;
    hide CutPoint;
    hide IsLeastCut;
    if AddHeader(s, h).Some? && BuildEnd(s) == 0 {
      assert Elements(CUT_MARKERS) == {"//go:build", "// +build", "// Code generated"};
      assert "" + h + "\n" + s[CutPoint(s)..] == h + "\n" + s[CutPoint(s)..];
    }
  }

  /** The cut falls right behind a non-empty marker-free prefix whose tail starts with a marker. */
  lemma CutBehindPrefix(a: Text, t: Text)
    requires Clean(a) && StartsWithMarker(t) && HasPackage(t)
    ensures CutPoint(a + "\n" + t) == |a| + 1
  {
    hide Index;
    var x := a + "\n" + t;
    forall m | m in MARKERS
      ensures Index(x, m) == if Index(t, m) < 0 then -1 else |a| + 1 + Index(t, m)
    {
      IndexAcrossNewline(a, t, m);
    }
    var first :| first in MARKERS && first <= t;
    assert t[0..|first|] == first;
    assert MatchesAt(t, first, 0);
    assert Index(x, first) == |a| + 1;
    CutPointIsLeast(x);
    assert first == PACKAGE || first in Elements(CUT_MARKERS);
  }

  /** Canonical form: the rewrite replaces exactly a non-empty, newline-terminated, marker-free prefix. */
  lemma PrefixReplaced(a: Text, t: Text, h: Text)
    requires Clean(a) && StartsWithMarker(t) && HasPackage(t)
    ensures AddHeader(a + "\n" + t, h) == Some(h + "\n" + t)
  {
    hide Index;
    var x := a + "\n" + t;
    CutBehindPrefix(a, t);
    MarkerFreeOpensPlain(a, t);
    assert BuildEnd(x) == 0 by {
      hide IsConstraint;
    }
    assert x[|a| + 1..] == t;
  }

  /** Headers already in place stay put. */
  lemma HeaderedFileIsFixed(h: Text, t: Text)
    requires Clean(h) && StartsWithMarker(t) && HasPackage(t)
    ensures AddHeader(h + "\n" + t, h) == Some(h + "\n" + t)
  {
    PrefixReplaced(h, t, h);
  }

  /** A newline-terminated block of constraint lines without a package clause. */
  ghost predicate IsBlock(c: Text) {
    && c != "" && BuildEnd(c) == |c| && c[|c| - 1] == '\n'
    && !HasPackage(c)
  }

  /** Behind package-free text the first package clause is the one that opens the tail. */
  lemma PackageBehind(c: Text, a: Text, t: Text)
    requires !HasPackage(c) && !HasPackage(a) && PACKAGE <= t
    ensures Index(c + "\n" + (a + "\n" + t), PACKAGE) == |c| + 1 + |a| + 1
  {
    assert t[0..|PACKAGE|] == PACKAGE;
    assert MatchesAt(t, PACKAGE, 0);
    IndexAcrossNewline(a, t, PACKAGE);
    IndexAcrossNewline(c, a + "\n" + t, PACKAGE);
  }

  lemma BlockRescanned(c: Text, u: Text)
    requires IsBlock(c)
    ensures BuildEnd(c + "\n" + u) == |c|
  {
    hide BuildEnd;
    hide Index;
    hide OpensPlain;
    BlankLineOpensPlain(u);
    assert c[..|c|] == c;
    ScanLocality(c, "\n" + u);
    assert c + ("\n" + u) == c + "\n" + u;
  }

  /** On the constraint path the rewrite replaces exactly what stands between the block and the code. */
  lemma BlockKept(c: Text, a: Text, t: Text, h: Text)
    requires IsBlock(c) && !HasPackage(a) && PACKAGE <= t
    ensures AddHeader(c + "\n" + a + "\n" + t, h) == Some(c + "\n" + h + "\n" + t)
  {
    hide Index;
    hide BuildEnd;
    hide CutPoint;
    var x := c + "\n" + a + "\n" + t;
    PackageBehind(c, a, t);
    BlockRescanned(c, a + "\n" + t);
    assert c + "\n" + (a + "\n" + t) == x;
    CutInRange(x);
    assert x[..|c|] == c;
    assert x[|c| + 1 + |a| + 1..] == t;
  }

  lemma BlankLineOpensPlain(u: Text)
    ensures OpensPlain("\n" + u)
  {
    MarkerFreeOpensPlain("", u);
    assert "" + "\n" + u == "\n" + u;
  }

  /** A good source on the constraint path is its block followed by the rest. */
  lemma LeadingBlock(s: Text)
    requires HasPackage(s) && Good(s) && BuildEnd(s) > 0
    ensures IsBlock(s[..BuildEnd(s)])
    ensures PACKAGE <= s[Index(s, PACKAGE)..]
  {
    hide Index;
    hide IsConstraint;
    hide FirstLine;
    var b, k := BuildEnd(s), Index(s, PACKAGE);
    BlockBoundary(s);
    assert s[..b] + "" == s[..b];
    ScanLocality(s, "");
    IndexOfPrefix(s, PACKAGE, b);
    assert s[k..][..|PACKAGE|] == s[k..k + |PACKAGE|];
  }

  // ---------- main results ----------

  /** Last header wins: rewriting a rewritten file leaves no trace of the earlier header. */
  lemma LastHeaderWins(s: Text, h1: Text, h2: Text)
    requires HasPackage(s) && Good(s) && Clean(h1)
    ensures AddHeader(s, h1).Some?
    ensures AddHeader(AddHeader(s, h1).value, h2) == AddHeader(s, h2)
  {
    hide Index;
    CutInRange(s);
    if BuildEnd(s) > 0 {
      LeadingBlock(s);
      BlockKept(s[..BuildEnd(s)], h1, s[Index(s, PACKAGE)..], h2);
    } else {
      CutTail(s);
      PrefixReplaced(h1, s[CutPoint(s)..], h2);
    }
  }
}
