/** `bytes.TrimSpace` over UTF-8 bytes: white space is what `unicode.IsSpace` accepts. */
module Whitespace {
  import opened Search

  predicate IsSpace1(c: char) {
    c == ' ' || '\t' <= c <= '\r'
  }

  /** The two-byte encodings of U+0085 and U+00A0. */
  predicate IsSpace2(c: char, d: char) {
    c == '\U{C2}' && (d == '\U{85}' || d == '\U{A0}')
  }

  /** The three-byte encodings of U+1680, U+2000 to U+200A, U+2028, U+2029, U+202F, U+205F and U+3000. */
  predicate IsSpace3(c: char, d: char, e: char) {
    || (c == '\U{E1}' && d == '\U{9A}' && e == '\U{80}')
    || (c == '\U{E2}' && d == '\U{80}' && ('\U{80}' <= e <= '\U{8A}' || e in {'\U{A8}', '\U{A9}', '\U{AF}'}))
    || (c == '\U{E2}' && d == '\U{81}' && e == '\U{9F}')
    || (c == '\U{E3}' && d == '\U{80}' && e == '\U{80}')
  }

  /** The code point of a two-byte and of a three-byte UTF-8 sequence. */
  function Rune2(c: char, d: char): int {
    (c as int - 0xC0) * 64 + (d as int - 0x80)
  }

  function Rune3(c: char, d: char, e: char): int {
    (c as int - 0xE0) * 4096 + (d as int - 0x80) * 64 + (e as int - 0x80)
  }

  /** The white space of `unicode.IsSpace`, as code points. */
  lemma SpacesAreUnicode(c: char, d: char, e: char)
    requires 0x80 <= d as int < 0xC0 && 0x80 <= e as int < 0xC0
    ensures IsSpace1(c) <==> c as int in {0x09, 0x0A, 0x0B, 0x0C, 0x0D, 0x20}
    ensures 0xC2 <= c as int < 0xE0 ==> (IsSpace2(c, d) <==> Rune2(c, d) in {0x85, 0xA0})
    ensures 0xE0 <= c as int < 0xF0 ==>
              (IsSpace3(c, d, e) <==> Rune3(c, d, e) in {0x1680, 0x2028, 0x2029, 0x202F, 0x205F, 0x3000}
                                      || 0x2000 <= Rune3(c, d, e) <= 0x200A)
  {
  }

  /** Number of bytes of the white-space rune that s begins with; 0 when it begins with none. */
  function LeadingSpace(s: Text): (n: nat)
    ensures n <= |s|
  {
    if |s| >= 1 && IsSpace1(s[0]) then 1
    else if |s| >= 2 && IsSpace2(s[0], s[1]) then 2
    else if |s| >= 3 && IsSpace3(s[0], s[1], s[2]) then 3
    else 0
  }

  /** Number of bytes of the white-space rune that s ends with; 0 when it ends with none. */
  function TrailingSpace(s: Text): (n: nat)
    ensures n <= |s|
  {
    var n := |s|;
    if n >= 1 && IsSpace1(s[n - 1]) then 1
    else if n >= 2 && IsSpace2(s[n - 2], s[n - 1]) then 2
    else if n >= 3 && IsSpace3(s[n - 3], s[n - 2], s[n - 1]) then 3
    else 0
  }

  /** A white-space rune is found whole at either end of a text. */
  lemma SpaceAtEitherEnd(c: char, d: char, e: char, t: Text)
    ensures IsSpace1(c) ==> LeadingSpace([c] + t) == 1 && TrailingSpace(t + [c]) == 1
    ensures IsSpace2(c, d) ==> LeadingSpace([c, d] + t) == 2 && TrailingSpace(t + [c, d]) == 2
    ensures IsSpace3(c, d, e) ==> LeadingSpace([c, d, e] + t) == 3 && TrailingSpace(t + [c, d, e]) == 3
  {
  }

  function TrimLeft(s: Text): (r: Text)
    ensures LeadingSpace(r) == 0
    ensures |r| <= |s| && r == s[|s| - |r|..]
  {
    if LeadingSpace(s) == 0 then s else TrimLeft(s[LeadingSpace(s)..])
  }

  function TrimRight(s: Text): (r: Text)
    ensures TrailingSpace(r) == 0
    ensures r <= s
  {
    if TrailingSpace(s) == 0 then s else TrimRight(s[..|s| - TrailingSpace(s)])
  }

  function TrimSpace(s: Text): Text {
    TrimRight(TrimLeft(s))
  }

  /** A run of white-space runes. */
  predicate AllSpace(s: Text) {
    s == "" || (LeadingSpace(s) > 0 && AllSpace(s[LeadingSpace(s)..]))
  }

  /** What follows a white-space rune does not change it. */
  lemma LeadingSpaceStays(s: Text, t: Text)
    requires LeadingSpace(s) > 0
    ensures LeadingSpace(s + t) == LeadingSpace(s)
  {
  }

  lemma TrailingSpaceStays(s: Text, t: Text)
    requires TrailingSpace(t) > 0
    ensures TrailingSpace(s + t) == TrailingSpace(t)
  {
  }

  /** White space in front is all that trimming on the left removes. */
  lemma {:induction false} TrimLeftOfSpace(w: Text, t: Text)
    requires AllSpace(w) && LeadingSpace(t) == 0
    ensures TrimLeft(w + t) == t
  {
    hide LeadingSpace;
    if w == "" {
      assert w + t == t;
    } else {
      var n := LeadingSpace(w);
      LeadingSpaceStays(w, t);
      TrimLeftOfSpace(w[n..], t);
      assert (w + t)[n..] == w[n..] + t;
    }
  }

  lemma {:induction false} TrimLeftLeavesTail(s: Text)
    ensures AllSpace(s[..|s| - |TrimLeft(s)|])
  {
    hide LeadingSpace;
    var n := LeadingSpace(s);
    if n > 0 {
      TrimLeftLeavesTail(s[n..]);
      var w := s[..|s| - |TrimLeft(s)|];
      LeadingSpaceOfPrefix(s, w);
      assert w[n..] == s[n..][..|s[n..]| - |TrimLeft(s[n..])|];
    }
  }

  lemma LeadingSpaceOfPrefix(s: Text, w: Text)
    requires w <= s && LeadingSpace(s) <= |w|
    ensures LeadingSpace(s) > 0 ==> LeadingSpace(w) == LeadingSpace(s)
  {
  }

  /** A white-space rune can be put behind white space, and nothing else can. */
  lemma {:induction false} AllSpaceThenRune(s: Text, r: Text)
    requires r != "" && LeadingSpace(r) == |r|
    ensures AllSpace(s + r) <==> AllSpace(s)
    decreases |s|
  {
    var x := s + r;
    if s == "" {
      assert x == r && x[|r|..] == "";
    } else {
      RuneBehind(s, r);
      var n := LeadingSpace(s);
      if n > 0 {
        AllSpaceThenRune(s[n..], r);
        assert x[n..] == s[n..] + r;
      }
    }
  }

  /** No white-space rune reaches from other text into a white-space rune. */
  lemma RuneBehind(s: Text, r: Text)
    requires s != "" && r != "" && LeadingSpace(r) == |r|
    ensures LeadingSpace(s + r) == LeadingSpace(s)
  {
    var x := s + r;
    assert forall i :: 0 <= i < |s| ==> x[i] == s[i];
    assert x[|s|] == r[0];
  }

  /** The white-space rune at the end of a text. */
  lemma TrailingRune(s: Text)
    requires TrailingSpace(s) > 0
    ensures var r := s[|s| - TrailingSpace(s)..]; r != "" && LeadingSpace(r) == |r|
  {
  }

  /** Trimming on the right stops behind the last rune that is no white space: text that ends in
      an ASCII space survives it exactly when something else than white space follows. */
  lemma {:induction false} TrimRightKeeps(m: Text, t: Text)
    requires m != "" && m[|m| - 1] == ' '
    ensures m <= TrimRight(m + t) <==> !AllSpace(t)
    decreases |t|
  {
    hide LeadingSpace;
    hide TrailingSpace;
    var x := m + t;
    var n := TrailingSpace(x);
    if t == "" {
      assert x == m;
      SpaceIsTrailing(m);
    } else if n > 0 {
      RuneBehindSpace(m, t);
      var t', r := t[..|t| - n], t[|t| - n..];
      TrailingRune(x);
      assert x[|x| - n..] == r && t == t' + r;
      AllSpaceThenRune(t', r);
      assert x[..|x| - n] == m + t';
      TrimRightKeeps(m, t');
      hide AllSpace;
    } else if AllSpace(t) {
      AllSpaceEndsInRune(t);
      TrailingSpaceStays(m, t);
      hide TrimRight;
    }
  }

  lemma SpaceIsTrailing(m: Text)
    requires m != "" && m[|m| - 1] == ' '
    ensures TrailingSpace(m) == 1
  {
  }

  /** The last rune of a text does not reach back over an ASCII space. */
  lemma RuneBehindSpace(m: Text, t: Text)
    requires m != "" && m[|m| - 1] == ' ' && t != ""
    ensures TrailingSpace(m + t) <= |t|
  {
    assert (m + t)[|m| - 1] == ' ';
  }

  lemma {:induction false} AllSpaceEndsInRune(s: Text)
    requires AllSpace(s) && s != ""
    ensures TrailingSpace(s) > 0
  {
    var n := LeadingSpace(s);
    if n < |s| {
      AllSpaceEndsInRune(s[n..]);
      TrailingSpaceStays(s[..n], s[n..]);
      assert s[..n] + s[n..] == s;
    }
  }
}
