/** `strings.Join` with "|", and how far the joined text determines the parts. */
module Join {
  import opened Search

  function Joined(parts: seq<Text>): Text {
    if parts == [] then ""
    else if |parts| == 1 then parts[0]
    else parts[0] + "|" + Joined(parts[1..])
  }

  /** Puts one more character in front of a split text. */
  function Push(c: char, r: seq<Text>): (q: seq<Text>)
    requires r != []
    ensures q != []
  {
    if c == '|' then [""] + r else [[c] + r[0]] + r[1..]
  }

  /** The stretches between the separators; always at least one. */
  function Split(s: Text): (r: seq<Text>)
    ensures r != []
  {
    if s == "" then [""] else Push(s[0], Split(s[1..]))
  }

  /** The separator-free pieces a list of parts really consists of once joined. */
  function Pieces(parts: seq<Text>): (r: seq<Text>)
    ensures r != []
  {
    if parts == [] then [""]
    else if |parts| == 1 then Split(parts[0])
    else Split(parts[0]) + Pieces(parts[1..])
  }

  predicate Separable(parts: seq<Text>) {
    forall p :: p in parts ==> '|' !in p
  }

  lemma PushConcat(c: char, r: seq<Text>, u: seq<Text>)
    requires r != []
    ensures Push(c, r + u) == Push(c, r) + u
  {
    assert (r + u)[1..] == r[1..] + u;
  }

  lemma {:induction false} SplitAcrossSeparator(a: Text, t: Text)
    ensures Split(a + "|" + t) == Split(a) + Split(t)
  {
    var x := a + "|" + t;
    if a == "" {
      assert x[1..] == t;
    } else {
      assert x[1..] == a[1..] + "|" + t;
      SplitAcrossSeparator(a[1..], t);
      PushConcat(a[0], Split(a[1..]), Split(t));
      hide Push;
    }
  }

  /** Splitting undoes joining, up to separators the parts contained themselves. */
  lemma {:induction false} SplitOfJoin(parts: seq<Text>)
    ensures Split(Joined(parts)) == Pieces(parts)
  {
    if |parts| > 1 {
      SplitAcrossSeparator(parts[0], Joined(parts[1..]));
      SplitOfJoin(parts[1..]);
    }
  }

  /** Joining undoes splitting, for every text. */
  lemma {:induction false} JoinOfSplit(s: Text)
    ensures Joined(Split(s)) == s
  {
    if s != "" {
      JoinOfSplit(s[1..]);
      JoinedPush(s[0], Split(s[1..]));
      hide Push;
    }
  }

  lemma JoinedPush(c: char, r: seq<Text>)
    requires r != []
    ensures Joined(Push(c, r)) == [c] + Joined(r)
  {
    var q := Push(c, r);
    if c == '|' {
      assert q[1..] == r;
    } else if |r| > 1 {
      assert q[1..] == r[1..];
    }
  }

  lemma SplitInjective(s: Text, t: Text)
    requires Split(s) == Split(t)
    ensures s == t
  {
    JoinOfSplit(s);
    JoinOfSplit(t);
  }

  /** Two lists join to the same text exactly when they consist of the same pieces. */
  lemma JoinEqualExactly(ps: seq<Text>, qs: seq<Text>)
    ensures Joined(ps) == Joined(qs) <==> Pieces(ps) == Pieces(qs)
  {
    SplitOfJoin(ps);
    SplitOfJoin(qs);
    if Pieces(ps) == Pieces(qs) {
      SplitInjective(Joined(ps), Joined(qs));
    }
  }

  lemma {:induction false} SplitOfSeparatorFree(s: Text)
    requires '|' !in s
    ensures Split(s) == [s]
  {
    if s != "" {
      SplitOfSeparatorFree(s[1..]);
      assert [s[0]] + s[1..] == s;
    }
  }

  lemma {:induction false} PiecesOfSeparable(parts: seq<Text>)
    requires parts != [] && Separable(parts)
    ensures Pieces(parts) == parts
  {
    SplitOfSeparatorFree(parts[0]);
    if |parts| > 1 {
      PiecesOfSeparable(parts[1..]);
    }
  }

  /** Over non-empty lists of separator-free parts the joined text determines the list. */
  lemma JoinInjective(ps: seq<Text>, qs: seq<Text>)
    requires ps != [] && qs != [] && Separable(ps) && Separable(qs)
    ensures Joined(ps) == Joined(qs) <==> ps == qs
  {
    JoinEqualExactly(ps, qs);
    PiecesOfSeparable(ps);
    PiecesOfSeparable(qs);
  }

  /** Over lists of one length the last part may contain separators. */
  lemma {:induction false} JoinInjectiveUpToLast(ps: seq<Text>, qs: seq<Text>)
    requires |ps| == |qs| > 0
    requires Separable(ps[..|ps| - 1]) && Separable(qs[..|qs| - 1])
    ensures Joined(ps) == Joined(qs) <==> ps == qs
  {
    if |ps| > 1 && Joined(ps) == Joined(qs) {
      var n := |ps| - 1;
      assert ps[0] in ps[..n] && qs[0] in qs[..n];
      SplitAcrossSeparator(ps[0], Joined(ps[1..]));
      SplitAcrossSeparator(qs[0], Joined(qs[1..]));
      SplitOfSeparatorFree(ps[0]);
      SplitOfSeparatorFree(qs[0]);
      var whole := Split(Joined(ps));
      assert whole[0] == ps[0] == qs[0];
      assert whole[1..] == Split(Joined(ps[1..])) == Split(Joined(qs[1..]));
      SplitInjective(Joined(ps[1..]), Joined(qs[1..]));
      assert ps[1..][..n - 1] == ps[..n][1..] && qs[1..][..n - 1] == qs[..n][1..];
      JoinInjectiveUpToLast(ps[1..], qs[1..]);
      assert ps == [ps[0]] + ps[1..] && qs == [qs[0]] + qs[1..];
    }
  }

  /** Without these conditions keys do collide: a separator inside a part, or no part at all. */
  lemma JoinCollides()
    ensures Joined(["a|b", "c"]) == Joined(["a", "b|c"]) && ["a|b", "c"] != ["a", "b|c"]
    ensures Joined([]) == Joined([""]) && [] != [""]
  {
    assert ["a|b", "c"][1..] == ["c"] && ["a", "b|c"][1..] == ["b|c"];
    assert "a|b" + "|" + "c" == "a" + "|" + "b|c";
    assert ["a|b", "c"][0] != ["a", "b|c"][0];
  }
}
