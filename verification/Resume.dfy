/** Whole runs of the tool: interrupted, resumed, and in any order of the roots. */
module Resume {
  import opened Search
  import opened Rewriter
  import opened Rerun
  import opened Walk

  /** No rewrite gives a file a package clause or takes it away. */
  lemma PackageIsInvariant(s: Text, h: Text)
    requires Clean(h)
    ensures HasPackage(Rewritten(s, h)) <==> HasPackage(s)
  {
    CutInRange(s);
    if HasPackage(s) {
      hide AddHeader;
      GoodIsInvariant(s, h);
    }
  }

  /** The last rewrite alone decides a file exactly when it is good or has no package clause. */
  lemma RewrittenTwice(s: Text, h1: Text, h2: Text)
    requires Clean(h1)
    ensures Rewritten(Rewritten(s, h1), h2) == Rewritten(s, h2) <==> HasPackage(s) ==> Good(s)
    ensures HasPackage(s) && !Good(s) ==> Rewritten(s, h1) != s
  {
    CutInRange(s);
    if HasPackage(s) {
      hide AddHeader;
      hide Good;
      GoodIsInvariant(s, h1);
      LastHeaderWinsExactly(s, h1, h2);
      CutInRange(Rewritten(s, h1));
      DefinedExactlyWithPackage(s, h2);
      DefinedExactlyWithPackage(Rewritten(s, h1), h2);
      if !Good(s) {
        BadRewriteDiffers(s, h1);
      }
    }
  }

  lemma DefinedExactlyWithPackage(s: Text, h: Text)
    ensures AddHeader(s, h).Some? <==> HasPackage(s)
  {
    CutInRange(s);
  }

  lemma BadRewriteDiffers(s: Text, h: Text)
    requires HasPackage(s) && !Good(s) && Clean(h)
    ensures Rewritten(s, h) != s
  {
    BadSourceGrows(s, h);
  }

  /** Resume: let a first walk, with clean header h1, stop anywhere, and let a second walk over at
      least the same files succeed. The tree is then the one a single walk with h2 over the
      original files leaves, exactly when every file the first walk changed was good. */
  lemma ResumeExactly(files: Files, first: seq<Visit>, second: seq<Visit>, h1: Text, h2: Text)
    requires Distinct(first) && Distinct(second) && Clean(h1)
    requires EligiblePaths(first) <= EligiblePaths(second)
    requires Run(files, second, h2).err.None?
    ensures var mid := Run(files, first, h1).files;
            && mid.Keys == files.Keys
            && Run(mid, second, h2).err.None?
            && (Run(mid, second, h2).files == Run(files, second, h2).files <==>
                forall p :: p in files && mid[p] != files[p] ==> Good(files[p]))
  {
    hide Run;
    hide Rewritten;
    hide Good;
    var mid := Run(files, first, h1).files;
    WalkFrame(files, first, h1);
    ResumedWalkSucceeds(files, mid, first, second, h1, h2);
    WalkFrame(files, second, h2);
    WalkFrame(mid, second, h2);
    var one, two := Run(files, second, h2).files, Run(mid, second, h2).files;
    forall p | p in files
      ensures one[p] == two[p] <==> (mid[p] != files[p] ==> Good(files[p]))
    {
      if mid[p] != files[p] {
        RewrittenTwice(files[p], h1, h2);
        UnchangedWithoutPackage(files[p], h1);
      }
    }
    assert one == two <==> forall p :: p in files ==> one[p] == two[p];
  }

  lemma UnchangedWithoutPackage(s: Text, h: Text)
    ensures !HasPackage(s) ==> Rewritten(s, h) == s
  {
    CutInRange(s);
  }

  /** Rewriting files changes no visit's chance to fail. */
  lemma ResumedWalkSucceeds(files: Files, mid: Files, first: seq<Visit>, second: seq<Visit>, h1: Text, h2: Text)
    requires Distinct(second) && Clean(h1) && mid.Keys == files.Keys
    requires forall p :: p in files ==> mid[p] == files[p] || mid[p] == Rewritten(files[p], h1)
    ensures Run(mid, second, h2).err.None? <==> Run(files, second, h2).err.None?
  {
    hide Run;
    hide Rewritten;
    hide HasPackage;
    forall p | p in files
      ensures HasPackage(mid[p]) <==> HasPackage(files[p])
    {
      PackageIsInvariant(files[p], h1);
    }
    assert forall v :: v in second ==> (StepFails(mid, v) <==> StepFails(files, v));
    WalkSucceedsExactly(files, second, h2);
    WalkSucceedsExactly(mid, second, h2);
  }

  /** On a tree of good files an interrupted run leaves nothing a later complete run has not replaced. */
  lemma ResumeAfterFailure(files: Files, first: seq<Visit>, second: seq<Visit>, h1: Text, h2: Text)
    requires Distinct(first) && Distinct(second) && Clean(h1)
    requires EligiblePaths(first) <= EligiblePaths(second)
    requires forall p :: p in files && p in EligiblePaths(first) ==> Good(files[p])
    requires Run(files, second, h2).err.None?
    ensures Run(Run(files, first, h1).files, second, h2) == Run(files, second, h2)
  {
    hide Run;
    hide Good;
    hide Rewritten;
    ResumeExactly(files, first, second, h1, h2);
    WalkFrame(files, first, h1);
  }

  /** The order of the visits does not matter to a successful walk, nor to whether it succeeds. */
  lemma VisitOrderIrrelevant(files: Files, vs: seq<Visit>, ws: seq<Visit>, h: Text)
    requires Distinct(vs) && Distinct(ws) && forall v :: v in vs <==> v in ws
    ensures Run(files, vs, h).err.None? <==> Run(files, ws, h).err.None?
    ensures Run(files, vs, h).err.None? ==> Run(files, vs, h) == Run(files, ws, h)
  {
    hide Run;
    hide StepFails;
    hide Rewritten;
    WalkSucceedsExactly(files, vs, h);
    WalkSucceedsExactly(files, ws, h);
    WalkFrame(files, vs, h);
    WalkFrame(files, ws, h);
    assert EligiblePaths(vs) == EligiblePaths(ws);
    if Run(files, vs, h).err.None? {
      assert Run(files, vs, h).files == Run(files, ws, h).files;
    }
  }

  // ---------- the three roots ----------

  /** The paths `filepath.Walk` reports for the root "./" + dir: the root as given, and cleaned
      paths below it. */
  ghost predicate UnderRoot(dir: Text, visits: seq<Visit>) {
    forall v :: v in visits ==> v.path == "./" + dir || dir + "/" <= v.path
  }

  ghost predicate ToolWalk(apis: seq<Visit>, pkg: seq<Visit>, cluster: seq<Visit>) {
    && Distinct(apis) && Distinct(pkg) && Distinct(cluster)
    && UnderRoot("apis", apis) && UnderRoot("pkg", pkg) && UnderRoot("cluster", cluster)
  }

  lemma DisjointPaths(d: Text, e: Text, p: Path, q: Path)
    requires d != "" && e != "" && d[0] != e[0] && d[0] != '.' && e[0] != '.'
    requires p == "./" + d || d + "/" <= p
    requires q == "./" + e || e + "/" <= q
    ensures p != q
  {
    assert ("./" + d)[2] == d[0] && ("./" + e)[2] == e[0];
    assert (d + "/")[0] == d[0] && (e + "/")[0] == e[0];
  }

  lemma DistinctConcat(vs: seq<Visit>, ws: seq<Visit>)
    requires Distinct(vs) && Distinct(ws)
    requires forall v, w :: v in vs && w in ws ==> v.path != w.path
    ensures Distinct(vs + ws)
  {
  }

  /** The three roots share no path, whatever order they are walked in. */
  lemma RootsAreDisjoint(d: Text, e: Text, f: Text, vs: seq<Visit>, ws: seq<Visit>, xs: seq<Visit>)
    requires Distinct(vs) && Distinct(ws) && Distinct(xs)
    requires UnderRoot(d, vs) && UnderRoot(e, ws) && UnderRoot(f, xs)
    requires d != "" && e != "" && f != "" && d[0] != '.' && e[0] != '.' && f[0] != '.'
    requires d[0] != e[0] && d[0] != f[0] && e[0] != f[0]
    ensures Distinct(vs + ws + xs)
  {
    forall v, w | v in vs && w in ws
      ensures v.path != w.path
    {
      DisjointPaths(d, e, v.path, w.path);
    }
    DistinctConcat(vs, ws);
    forall v, w | v in vs + ws && w in xs
      ensures v.path != w.path
    {
      DisjointPaths(if v in vs then d else e, f, v.path, w.path);
    }
    DistinctConcat(vs + ws, xs);
  }

  /** Root independence: a fully successful run gives the same tree for every order of the roots. */
  lemma RootOrderIrrelevant(files: Files, apis: seq<Visit>, pkg: seq<Visit>, cluster: seq<Visit>, h: Text,
                            order: seq<nat>)
    requires ToolWalk(apis, pkg, cluster)
    requires |order| == 3 && {order[0], order[1], order[2]} == {0, 1, 2}
    requires Run(files, apis + pkg + cluster, h).err.None?
    ensures var roots := [apis, pkg, cluster];
            Run(files, roots[order[0]] + roots[order[1]] + roots[order[2]], h) == Run(files, apis + pkg + cluster, h)
  {
    hide Run;
    var roots, names := [apis, pkg, cluster], ["apis", "pkg", "cluster"];
    assert order[0] in {order[0], order[1], order[2]} && order[1] in {order[0], order[1], order[2]}
           && order[2] in {order[0], order[1], order[2]};
    var vs := apis + pkg + cluster;
    var ws := roots[order[0]] + roots[order[1]] + roots[order[2]];
    RootsAreDisjoint("apis", "pkg", "cluster", apis, pkg, cluster);
    assert 0 in {order[0], order[1], order[2]} && 1 in {order[0], order[1], order[2]} && 2 in {order[0], order[1], order[2]};
    RootsAreDisjoint(names[order[0]], names[order[1]], names[order[2]],
                     roots[order[0]], roots[order[1]], roots[order[2]]);
    assert forall v :: v in vs <==> v in ws;
    VisitOrderIrrelevant(files, vs, ws, h);
  }

  /** An error in one root ends the run with every file of the later roots as it was. */
  lemma FailureSparesLaterRoots(files: Files, vs: seq<Visit>, later: seq<Visit>, h: Text, p: Path)
    requires Distinct(vs) && Run(files, vs, h).err.Some?
    requires p in files && p !in EligiblePaths(vs)
    ensures Run(files, vs + later, h) == Run(files, vs, h)
    ensures p in Run(files, vs + later, h).files && Run(files, vs + later, h).files[p] == files[p]
  {
    RunConcat(files, vs, later, h);
    WalkFrame(files, vs, h);
  }
}
