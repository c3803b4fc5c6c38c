/** The tree walk: one file after another, until the first error. */
module Walk {
  import opened Options
  import opened Search
  import opened BuildConstraints
  import opened Rewriter

  type Path = string
  type Files = map<Path, Text>

  /** What the walk reports at one path, and which operations on it will fail. */
  datatype Visit = Visit(path: Path, statFails: bool, isDir: bool, isRegular: bool,
                         readFails: bool, writeFails: bool)

  datatype Failure = StatFailed(path: Path) | ReadFailed(path: Path) | WriteFailed(path: Path)

  datatype Outcome = Outcome(files: Files, err: Option<Failure>)

  predicate HasSuffix(s: Text, suffix: Text) {
    |suffix| <= |s| && s[|s| - |suffix|..] == suffix
  }

  /** Only regular `.go` files are candidates for a rewrite. */
  predicate Eligible(v: Visit) {
    !v.isDir && v.isRegular && HasSuffix(v.path, ".go")
  }

  /** The walk callback at one path; reading a file that is not there fails. */
  ghost function Step(files: Files, v: Visit, header: Text): Outcome {
    if v.statFails then Outcome(files, Some(StatFailed(v.path)))
    else if !Eligible(v) then Outcome(files, None)
    else if v.readFails || v.path !in files then Outcome(files, Some(ReadFailed(v.path)))
    else match AddHeader(files[v.path], header)
      case None => Outcome(files, None)
      case Some(newFile) =>
        if v.writeFails then Outcome(files, Some(WriteFailed(v.path)))
        else Outcome(files[v.path := newFile], None)
  }

  /** Visits in order; the first error ends the walk. */
  ghost function Run(files: Files, visits: seq<Visit>, header: Text): Outcome
    decreases |visits|
  {
    if visits == [] then Outcome(files, None)
    else
      var o := Step(files, visits[0], header);
      if o.err.Some? then o else Run(o.files, visits[1..], header)
  }

  /** The file tree the tool works on. */
  class Tree {
    var files: Files

    constructor (files: Files)
      ensures this.files == files
    {
      this.files := files;
    }

    /** setHeader. */
    method SetHeader(visits: seq<Visit>, header: Text) returns (err: Option<Failure>)
      modifies this
      ensures Outcome(files, err) == Run(old(files), visits, header)
    {
      hide AddHeader;
      assert visits[0..] == visits;
      for i := 0 to |visits|
        invariant Run(old(files), visits, header) == Run(files, visits[i..], header)
      {
        var v := visits[i];
        assert visits[i..][0] == v && visits[i..][1..] == visits[i + 1..];
        if v.statFails {
          return Some(StatFailed(v.path));
        }
        if v.isDir || !v.isRegular || !HasSuffix(v.path, ".go") {
          continue;
        }
        if v.readFails || v.path !in files {
          return Some(ReadFailed(v.path));
        }
        var newFile := RewriteSource(files[v.path], header);
        if newFile.None? {
          continue;
        }
        if v.writeFails {
          return Some(WriteFailed(v.path));
        }
        files := files[v.path := newFile.value];
      }
      return None;
    }

    /** doMain: three roots, one after the other. */
    method DoMain(apis: seq<Visit>, pkg: seq<Visit>, cluster: seq<Visit>, header: Text)
      returns (err: Option<Failure>)
      modifies this
      ensures Outcome(files, err) == Run(old(files), apis + pkg + cluster, header)
    {
      RunConcat(files, apis + pkg, cluster, header);
      RunConcat(files, apis, pkg, header);
      err := SetHeader(apis, header);
      if err.Some? {
        return;
      }
      err := SetHeader(pkg, header);
      if err.Some? {
        return;
      }
      err := SetHeader(cluster, header);
    }
  }

  /** Walking two lists is walking the first and then, if it succeeds, the second. */
  lemma {:induction false} RunConcat(files: Files, vs: seq<Visit>, ws: seq<Visit>, h: Text)
    ensures var o := Run(files, vs, h);
            Run(files, vs + ws, h) == if o.err.Some? then o else Run(o.files, ws, h)
    decreases |vs|
  {
    hide Step;
    if vs == [] {
      assert vs + ws == ws;
    } else {
      assert (vs + ws)[1..] == vs[1..] + ws;
      var o := Step(files, vs[0], h);
      if o.err.None? {
        RunConcat(o.files, vs[1..], ws, h);
      }
    }
  }

  // ---------- single files ----------

  /** A file's contents once rewritten. */
  ghost function Rewritten(s: Text, h: Text): Text {
    match AddHeader(s, h) case None => s case Some(x) => x
  }

  ghost function EligiblePaths(visits: seq<Visit>): set<Path> {
    set v | v in visits && Eligible(v) :: v.path
  }

  /** The walk reports every path once. */
  ghost predicate Distinct(visits: seq<Visit>) {
    forall i, j :: 0 <= i < j < |visits| ==> visits[i].path != visits[j].path
  }

  lemma DistinctTail(visits: seq<Visit>)
    requires Distinct(visits) && visits != []
    ensures Distinct(visits[1..]) && visits[0].path !in EligiblePaths(visits[1..])
    ensures EligiblePaths(visits) == (if Eligible(visits[0]) then {visits[0].path} else {}) + EligiblePaths(visits[1..])
  {
    var vs := visits[1..];
    assert visits == [visits[0]] + vs;
    forall v | v in vs
      ensures v.path != visits[0].path
    {
      var i :| 0 <= i < |vs| && vs[i] == v;
      assert visits[i + 1] == v;
    }
  }

  /** Would this visit fail on these files? Rewriting other files does not change the answer. */
  ghost predicate StepFails(files: Files, v: Visit) {
    || v.statFails
    || (Eligible(v) && (v.readFails || v.path !in files || (v.writeFails && HasPackage(files[v.path]))))
  }

  lemma StepEffect(files: Files, v: Visit, h: Text)
    ensures Step(files, v, h).err.Some? <==> StepFails(files, v)
    ensures Step(files, v, h).files ==
            if Eligible(v) && !StepFails(files, v) then files[v.path := Rewritten(files[v.path], h)] else files
  {
    if v.path in files {
      CutInRange(files[v.path]);
      hide AddHeader;
      assert files[v.path := files[v.path]] == files;
    }
  }

  // ---------- whole walks ----------

  /** After any walk, ended by an error or not, each file holds its original or its rewritten
      contents, only eligible visited files have changed, and a walk without error has
      rewritten every one of them. */
  lemma {:induction false} WalkFrame(files: Files, visits: seq<Visit>, h: Text)
    requires Distinct(visits)
    ensures var o := Run(files, visits, h);
            && o.files.Keys == files.Keys
            && (forall p :: p in files ==>
                  || o.files[p] == files[p]
                  || (p in EligiblePaths(visits) && o.files[p] == Rewritten(files[p], h)))
            && (o.err.None? ==>
                  && EligiblePaths(visits) <= files.Keys
                  && forall p :: p in EligiblePaths(visits) ==> o.files[p] == Rewritten(files[p], h))
    decreases |visits|
  {
    hide Step;
    hide Rewritten;
    hide HasPackage;
    if visits != [] {
      var o := Step(files, visits[0], h);
      StepEffect(files, visits[0], h);
      DistinctTail(visits);
      if o.err.None? {
        WalkFrame(o.files, visits[1..], h);
      }
    }
  }

  /** A walk succeeds exactly when no single visit would fail on the original files. */
  lemma {:induction false} WalkSucceedsExactly(files: Files, visits: seq<Visit>, h: Text)
    requires Distinct(visits)
    ensures Run(files, visits, h).err.None? <==> forall v :: v in visits ==> !StepFails(files, v)
    decreases |visits|
  {
    hide Step;
    hide HasPackage;
    if visits != [] {
      var o := Step(files, visits[0], h);
      var vs := visits[1..];
      StepEffect(files, visits[0], h);
      DistinctTail(visits);
      assert visits == [visits[0]] + vs;
      if o.err.None? {
        WalkSucceedsExactly(o.files, vs, h);
        forall v | v in vs
          ensures StepFails(files, v) <==> StepFails(o.files, v)
        {
        }
      }
    }
  }

  // ---------- what a walk does, read off the visits ----------

  /** The header stands at the beginning, or in a line of its own behind the constraint block. */
  ghost predicate CarriesHeader(x: Text, s: Text, h: Text) {
    if BuildEnd(s) == 0 then h + "\n" <= x
    else s[..BuildEnd(s)] + "\n" + h + "\n" <= x
  }

  lemma RewrittenCarriesHeader(s: Text, h: Text)
    requires Occurs(s, "package ")
    ensures CarriesHeader(Rewritten(s, h), s, h)
  {
    OutputExactly(s, h);
    hide Index;
    hide BuildEnd;
    hide AddHeader;
    hide IsLeastCut;
  }

  lemma EligibleBySuffix(v: Visit)
    ensures Eligible(v) <==>
              && !v.isDir && v.isRegular
              && |v.path| >= 3 && v.path[|v.path| - 3] == '.' && v.path[|v.path| - 2] == 'g' && v.path[|v.path| - 1] == 'o'
  {
    if |v.path| >= 3 {
      var tail := v.path[|v.path| - 3..];
      assert tail == [v.path[|v.path| - 3], v.path[|v.path| - 2], v.path[|v.path| - 1]];
    }
  }

  /** A path that does not end in ".go", or is a directory or not a regular file, keeps its contents,
      however the walk ends. */
  lemma OnlyGoFilesChange(files: Files, visits: seq<Visit>, h: Text, v: Visit)
    requires Distinct(visits) && v in visits && v.path in files
    requires v.isDir || !v.isRegular || |v.path| < 3
             || v.path[|v.path| - 3] != '.' || v.path[|v.path| - 2] != 'g' || v.path[|v.path| - 1] != 'o'
    ensures v.path in Run(files, visits, h).files && Run(files, visits, h).files[v.path] == files[v.path]
  {
    WalkFrame(files, visits, h);
    EligibleBySuffix(v);
    hide Run;
    hide Eligible;
    assert v.path !in EligiblePaths(visits);
  }

  /** After a walk without error every regular file whose path ends in ".go" and that has a package
      clause carries the header, and every other one is as it was. */
  lemma SuccessMeansHeaders(files: Files, visits: seq<Visit>, h: Text, v: Visit)
    requires Distinct(visits) && v in visits && Run(files, visits, h).err.None?
    requires !v.isDir && v.isRegular && |v.path| >= 3
             && v.path[|v.path| - 3] == '.' && v.path[|v.path| - 2] == 'g' && v.path[|v.path| - 1] == 'o'
    ensures v.path in files && v.path in Run(files, visits, h).files
    ensures var x, s := Run(files, visits, h).files[v.path], files[v.path];
            if Occurs(s, "package ") then CarriesHeader(x, s, h) else x == s
  {
    WalkFrame(files, visits, h);
    EligibleBySuffix(v);
    hide Run;
    hide Eligible;
    assert v.path in EligiblePaths(visits);
    var s := files[v.path];
    OutputExactly(s, h);
    if Occurs(s, "package ") {
      RewrittenCarriesHeader(s, h);
    }
    hide AddHeader;
    hide CarriesHeader;
    hide IsLeastCut;
    hide HeaderBehind;
    hide BuildEnd;
    hide Index;
  }

  /** A visit fails if and only if the walk reports an error at its path, or it is a regular file whose path
      ends in ".go" that cannot be read, or has a package clause and cannot be written. */
  lemma VisitFailsExactly(files: Files, v: Visit)
    ensures StepFails(files, v) <==>
              || v.statFails
              || (&& !v.isDir && v.isRegular && |v.path| >= 3
                  && v.path[|v.path| - 3] == '.' && v.path[|v.path| - 2] == 'g' && v.path[|v.path| - 1] == 'o'
                  && (v.readFails || v.path !in files || (v.writeFails && Occurs(files[v.path], "package "))))
  {
    EligibleBySuffix(v);
    hide Eligible;
  }

  /** The error of one visit. */
  ghost function FailureOf(files: Files, v: Visit): Failure {
    if v.statFails then StatFailed(v.path)
    else if v.readFails || v.path !in files then ReadFailed(v.path)
    else WriteFailed(v.path)
  }

  /** A walk that fails reports the first visit that would fail on the original files, and leaves the
      files as the walk over the visits before it does. */
  lemma {:induction false} FirstFailureIsReported(files: Files, visits: seq<Visit>, h: Text) returns (i: nat)
    requires Distinct(visits) && Run(files, visits, h).err.Some?
    ensures i < |visits| && StepFails(files, visits[i])
    ensures forall j :: 0 <= j < i ==> !StepFails(files, visits[j])
    ensures var v := visits[i];
            Run(files, visits, h).err == Some(if v.statFails then StatFailed(v.path)
                                              else if v.readFails || v.path !in files then ReadFailed(v.path)
                                              else WriteFailed(v.path))
    ensures Run(files, visits[..i], h) == Outcome(Run(files, visits, h).files, None)
    decreases |visits|
  {
    var v, vs := visits[0], visits[1..];
    var o := Step(files, v, h);
    StepEffect(files, v, h);
    StepFailure(files, v, h);
    DistinctTail(visits);
    hide Step;
    hide HasPackage;
    hide Rewritten;
    if o.err.Some? {
      i := 0;
    } else {
      var k := FirstFailureIsReported(o.files, vs, h);
      i := k + 1;
      forall j | 0 <= j < |vs|
        ensures StepFails(o.files, vs[j]) <==> StepFails(files, visits[j + 1])
        ensures FailureOf(o.files, vs[j]) == FailureOf(files, visits[j + 1])
      {
        assert visits[j + 1] == vs[j];
      }
      assert visits[..i][0] == v && visits[..i][1..] == vs[..k];
    }
  }

  lemma StepFailure(files: Files, v: Visit, h: Text)
    ensures Step(files, v, h).err.Some? ==> Step(files, v, h) == Outcome(files, Some(FailureOf(files, v)))
  {
  }
}
