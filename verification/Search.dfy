/** First-occurrence search, the way `bytes.Index` reports it, and how first occurrences
    move when texts are glued together at a newline. */
module Search {

  /** A Go byte slice: the byte with value v is the character with code v. */
  type Text = string

  /** m stands in s at position i. */
  predicate MatchesAt(s: Text, m: Text, i: int) {
    0 <= i && i + |m| <= |s| && s[i..i + |m|] == m
  }

  ghost predicate Occurs(s: Text, m: Text) {
    exists i :: MatchesAt(s, m, i)
  }

  ghost predicate IsFirst(s: Text, m: Text, i: int) {
    MatchesAt(s, m, i) && forall j :: MatchesAt(s, m, j) ==> i <= j
  }

  lemma FirstExists(s: Text, m: Text, i: int)
    requires MatchesAt(s, m, i)
    ensures exists r :: IsFirst(s, m, r)
    decreases i
  {
    if exists j :: MatchesAt(s, m, j) && j < i {
      var j :| MatchesAt(s, m, j) && j < i;
      FirstExists(s, m, j);
    } else {
      assert IsFirst(s, m, i);
    }
  }

  /** The first occurrence of m in s, or -1: what `bytes.Index` returns. */
  ghost function Index(s: Text, m: Text): (r: int)
    ensures r == -1 || MatchesAt(s, m, r)
    ensures forall j :: MatchesAt(s, m, j) ==> 0 <= r <= j
  {
    if exists i :: MatchesAt(s, m, i) then
      var i :| MatchesAt(s, m, i);
      FirstExists(s, m, i);
      var r :| IsFirst(s, m, r);
      r
    else -1
  }

  /** The search itself. */
  method FindIndex(s: Text, m: Text) returns (r: int)
    ensures r == Index(s, m)
  {
    r := 0;
    while r + |m| <= |s|
      invariant r >= 0
      invariant forall j :: MatchesAt(s, m, j) ==> r <= j
    {
      if s[r..r + |m|] == m {
        assert MatchesAt(s, m, r);
        return;
      }
      r := r + 1;
    }
    return -1;
  }

  /** A text that can stand on one side of a newline only. */
  predicate Inline(m: Text) {
    m != "" && '\n' !in m
  }

  lemma MatchCharacter(s: Text, m: Text, i: int, j: nat)
    requires MatchesAt(s, m, i) && j < |m|
    ensures s[i + j] == m[j]
  {
    assert s[i..i + |m|][j] == s[i + j];
  }

  /** Occurrences in a slice are the occurrences that lie inside its bounds. */
  lemma MatchesInSlice(s: Text, lo: nat, hi: nat, m: Text, i: int)
    requires lo <= hi <= |s|
    ensures MatchesAt(s[lo..hi], m, i) <==> 0 <= i && lo + i + |m| <= hi && MatchesAt(s, m, lo + i)
  {
    if 0 <= i && lo + i + |m| <= hi {
      var u, v := s[lo..hi][i..i + |m|], s[lo + i..lo + i + |m|];
      assert forall q :: 0 <= q < |m| ==> u[q] == s[lo + i + q] == v[q];
      assert u == v;
    }
  }

  /** No inline text straddles a newline: every occurrence lies wholly before or wholly after it. */
  lemma NewlineBarrier(a: Text, t: Text, m: Text, i: int)
    requires Inline(m)
    ensures MatchesAt(a + "\n" + t, m, i) <==> MatchesAt(a, m, i) || MatchesAt(t, m, i - |a| - 1)
  {
    var x := a + "\n" + t;
    if MatchesAt(x, m, i) && i <= |a| {
      if |a| < i + |m| {
        MatchCharacter(x, m, i, |a| - i);
      }
      assert x[i..i + |m|] == a[i..i + |m|];
    } else if MatchesAt(x, m, i) {
      assert x[i..i + |m|] == t[i - |a| - 1..i - |a| - 1 + |m|];
    }
    if MatchesAt(a, m, i) {
      assert x[i..i + |m|] == a[i..i + |m|];
    }
    if MatchesAt(t, m, i - |a| - 1) {
      assert x[i..i + |m|] == t[i - |a| - 1..i - |a| - 1 + |m|];
    }
  }

  lemma TwoNewlineBarriers(c: Text, a: Text, t: Text, m: Text, i: int)
    requires Inline(m)
    ensures MatchesAt(c + "\n" + (a + "\n" + t), m, i) <==>
            MatchesAt(c, m, i) || MatchesAt(a, m, i - |c| - 1) || MatchesAt(t, m, i - |c| - |a| - 2)
  {
    NewlineBarrier(c, a + "\n" + t, m, i);
    NewlineBarrier(a, t, m, i - |c| - 1);
    hide MatchesAt;
  }

  /** First occurrences across a newline: the left part wins, otherwise the right part shifts. */
  lemma IndexAcrossNewline(a: Text, t: Text, m: Text)
    requires Inline(m)
    ensures Index(a + "\n" + t, m) ==
            if Index(a, m) >= 0 then Index(a, m)
            else if Index(t, m) >= 0 then |a| + 1 + Index(t, m)
            else -1
  {
    var x := a + "\n" + t;
    NewlineBarrier(a, t, m, Index(x, m));
    NewlineBarrier(a, t, m, Index(a, m));
    NewlineBarrier(a, t, m, |a| + 1 + Index(t, m));
  }

  /** Cutting the front of a text off at or before the first occurrence only shifts it. */
  lemma IndexOfSuffix(s: Text, m: Text, p: nat)
    requires p <= |s| && p <= Index(s, m)
    ensures Index(s[p..], m) == Index(s, m) - p
  {
    var i, j := Index(s, m), Index(s[p..], m);
    assert s[p..|s|] == s[p..];
    MatchesInSlice(s, p, |s|, m, i - p);
    MatchesInSlice(s, p, |s|, m, j);
  }

  /** A prefix that ends before the first occurrence does not contain the text. */
  lemma IndexOfPrefix(s: Text, m: Text, n: nat)
    requires n <= |s| && m != "" && (Index(s, m) < 0 || n < Index(s, m) + |m|)
    ensures Index(s[..n], m) == -1
  {
    assert s[0..n] == s[..n];
    MatchesInSlice(s, 0, n, m, Index(s[..n], m));
  }

  /** A text is absent when one of its characters is missing wherever it would have to stand. */
  lemma AbsentByCharacter(s: Text, m: Text, j: nat, n: nat)
    requires j < |m| && n <= |s| < n + |m| - j
    requires m[j] !in s[..n]
    ensures Index(s, m) == -1
  {
    assert forall q :: 0 <= q < n ==> s[q] == s[..n][q];
    var i := Index(s, m);
    if i >= 0 {
      MatchCharacter(s, m, i, j);
    }
  }
}
