/** The header the tool puts in front of Go files, and the proof that it is clean. */
module GoHeader {
  import opened Search
  import opened BuildConstraints
  import opened Rewriter

  const WORDS1: seq<Text> := ["Copyright", "(c)", "2025-present", "Octelium", "Labs,", "LLC.", "All", "rights", "reserved."]
  const WORDS3: seq<Text> := ["This", "software", "is", "licensed", "under", "the", "Octelium", "Enterprise", "Source-Available", "License."]
  const WORDS4: seq<Text> := ["Commercial", "and", "production", "use", "is", "strictly", "prohibited", "without", "a", "valid"]
  const WORDS5: seq<Text> := ["Commercial", "Agreement", "from", "Octelium", "Labs,", "LLC."]
  const WORDS7: seq<Text> := ["See", "the", "LICENSE", "file", "in", "the", "repository", "root", "for", "full", "license", "text."]

  /** Words separated by single spaces. */
  function Spaced(words: seq<Text>): Text {
    if words == [] then ""
    else if |words| == 1 then words[0]
    else words[0] + " " + Spaced(words[1..])
  }

  /** A one-line comment. */
  function Comment(words: seq<Text>): Text {
    "// " + Spaced(words)
  }

  const GO_HEADER_LINES: seq<Text> :=
    [Comment(WORDS1), "//", Comment(WORDS3), Comment(WORDS4), Comment(WORDS5), "//", Comment(WORDS7)]

  const GO_HEADER: Text := Terminated(GO_HEADER_LINES)

  /** The given lines, each with its newline. */
  function Terminated(lines: seq<Text>): Text {
    if lines == [] then "" else lines[0] + "\n" + Terminated(lines[1..])
  }

  /** A text is clean when each of its lines is. */
  lemma {:induction false} CleanByLine(lines: seq<Text>)
    requires forall l :: l in lines ==> Clean(l)
    ensures Clean(Terminated(lines))
  {
    hide Index;
    if lines != [] {
      assert Clean(lines[0]);
      CleanByLine(lines[1..]);
      forall m | m in MARKERS
        ensures Index(Terminated(lines), m) < 0
      {
        IndexAcrossNewline(lines[0], Terminated(lines[1..]), m);
      }
    }
  }

  /** A one-line comment without further slashes and without a `k` holds no marker, unless it
      opens with one. */
  lemma CommentIsClean(text: Text)
    requires |text| > 2 && '/' !in text && 'k' !in text && text[0] != '+' && text[2] != 'd'
    ensures Clean("// " + text)
  {
    var l := "// " + text;
    assert l[..|l|] == l;
    AbsentByCharacter(l, PACKAGE, 3, |l|);
    NoLaterComment(text, GO_BUILD, 2);
    NoLaterComment(text, PLUS_BUILD, 3);
    NoLaterComment(text, GENERATED, 5);
  }

  /** A text that starts with two slashes can only stand where the comment starts. */
  lemma NoLaterComment(text: Text, m: Text, j: nat)
    requires '/' !in text && j < |m| && |m| > 1 && m[0] == m[1] == '/'
    requires j < |text| + 3 ==> m[j] != ("// " + text)[j]
    ensures Index("// " + text, m) == -1
  {
    var l := "// " + text;
    var i := Index(l, m);
    if i >= 0 {
      MatchCharacter(l, m, i, 0);
      MatchCharacter(l, m, i, 1);
      MatchCharacter(l, m, i, j);
    }
  }

  predicate Plain(word: Text) {
    '/' !in word && 'k' !in word
  }

  lemma {:induction false} SpacedIsPlain(words: seq<Text>)
    requires forall w :: w in words ==> Plain(w)
    ensures Plain(Spaced(words))
  {
    if words != [] {
      assert Plain(words[0]);
      SpacedIsPlain(words[1..]);
    }
  }

  lemma PlainWordsAreClean(words: seq<Text>)
    requires words != [] && forall w :: w in words ==> Plain(w)
    requires |words[0]| > 2 && words[0][0] != '+' && words[0][2] != 'd'
    ensures Clean(Comment(words))
  {
    hide Clean;
    SpacedIsPlain(words);
    CommentIsClean(Spaced(words));
  }

  lemma Line1IsClean()
    ensures Clean(Comment(WORDS1))
  {
    hide Clean;
    hide Comment;
    PlainWordsAreClean(WORDS1);
  }

  lemma Line3IsClean()
    ensures Clean(Comment(WORDS3))
  {
    hide Clean;
    hide Comment;
    PlainWordsAreClean(WORDS3);
  }

  lemma Line4IsClean()
    ensures Clean(Comment(WORDS4))
  {
    hide Clean;
    hide Comment;
    PlainWordsAreClean(WORDS4);
  }

  lemma Line5IsClean()
    ensures Clean(Comment(WORDS5))
  {
    hide Clean;
    hide Comment;
    PlainWordsAreClean(WORDS5);
  }

  lemma Line7IsClean()
    ensures Clean(Comment(WORDS7))
  {
    hide Clean;
    hide Comment;
    PlainWordsAreClean(WORDS7);
  }

  /** The empty comment is shorter than every marker. */
  lemma EmptyCommentIsClean()
    ensures Clean("//")
  {
  }

  lemma GoHeaderIsClean()
    ensures Clean(GO_HEADER)
  {
    hide Clean;
    hide Comment;
    Line1IsClean();
    EmptyCommentIsClean();
    Line3IsClean();
    Line4IsClean();
    Line5IsClean();
    Line7IsClean();
    CleanByLine(GO_HEADER_LINES);
  }
}
