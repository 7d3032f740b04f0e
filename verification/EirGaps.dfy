/** What the lexer skips, against a grammar of blanks and comments; with the spellings, whole texts. */
module EirGaps {
  import opened Basics
  import opened EirLexer
  import opened EirSpelling
  import Utf8
  import Utf8Scalars

  // ----- The grammar -----

  predicate Blank(c: char) {
    c in " \t\n\r"
  }

  /** Two slashes, text without a line break, and the line break. */
  predicate LineComment(g: string) {
    && |g| >= 3 && g[0] == '/' && g[1] == '/' && g[|g| - 1] == '\n'
    && '\n' !in g[2..|g| - 1] && Utf8.WellFormed(g[2..|g| - 1])
  }

  /** The same at the end of the source, without the line break. */
  predicate OpenComment(g: string) {
    |g| >= 2 && g[0] == '/' && g[1] == '/' && '\n' !in g[2..] && Utf8.WellFormed(g[2..])
  }

  predicate Closes(g: string, k: nat) {
    k + 1 < |g| && g[k] == '*' && g[k + 1] == '/'
  }

  /** A slash and a star, text, and the first star and slash after it. */
  predicate BlockComment(g: string) {
    && |g| >= 4 && g[0] == '/' && g[1] == '*' && Closes(g, |g| - 2)
    && (forall k | 2 <= k < |g| - 2 :: !Closes(g, k)) && Utf8.WellFormed(g[2..|g| - 2])
  }

  /** Blanks and comments; a comment without its line break only where the source ends. */
  predicate Gap(g: string, last: bool)
    decreases |g|
  {
    || g == ""
    || (Blank(g[0]) && Gap(g[1..], last))
    || (exists k | 3 <= k <= |g| :: (LineComment(g[..k]) || BlockComment(g[..k])) && Gap(g[k..], last))
    || (last && OpenComment(g))
  }

  /** The text from `i` on is a gap, a spelling of each token with a gap behind it, and nothing else. */
  ghost predicate Tokenises(s: string, i: nat, ts: seq<Token>)
    requires i <= |s|
    decreases |ts|
  {
    if |ts| <= 1 then ts == [END_TOKEN] && Gap(s[i..], true)
    else
      exists a, b | i <= a < b <= |s| ::
        Gap(s[i..a], false) && Spells(ts[0], s[a..b]) && Tokenises(s, b, ts[1..])
  }

  // ----- Well-formed pieces -----

  lemma WellFormedRest(t: string)
    requires t != "" && Utf8.WellFormed(t)
    ensures var n := Utf8.SequenceLengthAt(t, 0);
            n > 0 && Utf8.WellFormed(t[n..])
  {
    hide Utf8.SequenceLengthAt, Utf8Scalars.EncodeScalar;
    Utf8Scalars.WellFormedExactly(t);
    var ns :| Utf8Scalars.Encodes(ns, t);
    var code := Utf8Scalars.EncodeScalar(ns[0]);
    assert Occurs(t, 0, code);
    Utf8Scalars.EncodedRecognised(t, 0, ns[0]);
    assert t[|code|..] == Utf8Scalars.EncodeAll(ns[1..]);
    Utf8Scalars.WellFormedExactly(t[|code|..]);
    assert Utf8Scalars.Encodes(ns[1..], t[|code|..]);
  }

  lemma WellFormedCons(t: string)
    requires t != ""
    requires var n := Utf8.SequenceLengthAt(t, 0); n > 0 && Utf8.WellFormed(t[n..])
    ensures Utf8.WellFormed(t)
  {
    hide Utf8.SequenceLengthAt, Utf8Scalars.EncodeScalar;
    var n := Utf8.SequenceLengthAt(t, 0);
    Utf8Scalars.RecognisedEncodes(t, 0);
    var scalar := Utf8Scalars.ScalarAt(t, 0);
    Utf8Scalars.WellFormedExactly(t[n..]);
    var ns :| Utf8Scalars.Encodes(ns, t[n..]);
    assert ([scalar] + ns)[1..] == ns && t == t[0..n] + t[n..];
    assert Utf8Scalars.Encodes([scalar] + ns, t);
    Utf8Scalars.WellFormedExactly(t);
  }

  // ----- Comments -----

  /** A line comment ends at the first line break or with the source, and its text is well-formed. */
  lemma {:induction false} LineTaken(s: string, i: nat)
    requires i <= |s| && LineCommentEnd(s, i).Some?
    ensures var e := LineCommentEnd(s, i).value;
            (e < |s| ==> s[e] == '\n') && '\n' !in s[i..e] && Utf8.WellFormed(s[i..e])
    decreases |s| - i
  {
    hide Utf8.SequenceLengthAt;
    var e := LineCommentEnd(s, i).value;
    if i < |s| && s[i] != '\n' {
      var n := Utf8.SequenceLengthAt(s, i);
      LineTaken(s, i + n);
      SequenceInSlice(s, i, e);
      SliceOfSlice(s, i, e, n);
      WellFormedCons(s[i..e]);
      assert s[i..e] == s[i..i + n] + s[i + n..e];
      NoBreakInside(s, i, n);
    } else {
      assert s[i..e] == "" && Utf8.WellFormed("");
    }
  }

  lemma NoBreakInside(s: string, i: nat, n: nat)
    requires i < |s| && s[i] != '\n' && n == Utf8.SequenceLengthAt(s, i) > 0
    ensures '\n' !in s[i..i + n]
  {}

  /** Text without a line break, up to one or to the end of the source, is skipped to there. */
  lemma {:induction false} LineSkipped(s: string, i: nat, j: nat)
    requires i <= j <= |s| && (j < |s| ==> s[j] == '\n') && '\n' !in s[i..j] && Utf8.WellFormed(s[i..j])
    ensures LineCommentEnd(s, i) == Some(j)
    decreases j - i
  {
    hide Utf8.SequenceLengthAt;
    if i < j {
      var g := s[i..j];
      WellFormedRest(g);
      var n := Utf8.SequenceLengthAt(g, 0);
      SequenceInSlice(s, i, j);
      SliceOfSlice(s, i, j, n);
      assert s[i] == g[0] && g[0] in g;
      assert '\n' !in g[n..] by {
        assert forall c <- g[n..] :: c in g;
      }
      LineSkipped(s, i + n, j);
    }
  }

  /** A block comment ends after its first closing, and its text is well-formed. */
  lemma {:induction false} BlockTaken(s: string, i: nat)
    requires i <= |s| && BlockCommentEnd(s, i).Some?
    ensures var e := BlockCommentEnd(s, i).value;
            && i + 2 <= e && Closes(s, e - 2) && (forall k | i <= k < e - 2 :: !Closes(s, k))
            && Utf8.WellFormed(s[i..e - 2])
    decreases |s| - i
  {
    hide Utf8.SequenceLengthAt;
    var e := BlockCommentEnd(s, i).value;
    if s[i] == '*' && Peek(s, i + 1) == '/' {
      assert s[i..e - 2] == "" && Utf8.WellFormed("");
    } else {
      var n := Utf8.SequenceLengthAt(s, i);
      BlockTaken(s, i + n);
      SequenceInSlice(s, i, e - 2);
      SliceOfSlice(s, i, e - 2, n);
      WellFormedCons(s[i..e - 2]);
      NoClosingInside(s, i, n);
    }
  }

  lemma NoClosingInside(s: string, i: nat, n: nat)
    requires i < |s| && !Closes(s, i) && n == Utf8.SequenceLengthAt(s, i) > 0
    ensures forall k | i <= k < i + n :: !Closes(s, k)
  {}

  lemma {:induction false} BlockSkipped(s: string, i: nat, j: nat)
    requires i <= j && Closes(s, j) && (forall k | i <= k < j :: !Closes(s, k)) && Utf8.WellFormed(s[i..j])
    ensures BlockCommentEnd(s, i) == Some(j + 2)
    decreases j - i
  {
    hide Utf8.SequenceLengthAt;
    if i < j {
      WellFormedRest(s[i..j]);
      var n := Utf8.SequenceLengthAt(s[i..j], 0);
      SequenceInSlice(s, i, j);
      SliceOfSlice(s, i, j, n);
      assert !Closes(s, i);
      BlockSkipped(s, i + n, j);
    }
  }

  // ----- Gaps -----

  lemma BlanksAre(c: char)
    ensures Blank(c) <==> IsBlank(c)
  {}

  lemma InnerSlice(s: string, i: nat, j: nat, a: nat, b: nat)
    requires i + a + b <= j <= |s|
    ensures s[i..j][a..j - i - b] == s[i + a..j - b]
  {
    var inner := s[i..j][a..j - i - b];
    assert |inner| == j - b - (i + a) && forall k | 0 <= k < |inner| :: inner[k] == s[i + a + k];
  }

  lemma LinePiece(s: string, i: nat, e: nat)
    requires i + 2 <= e < |s| && s[i] == '/' && s[i + 1] == '/'
    ensures LineComment(s[i..e + 1]) <==> s[e] == '\n' && '\n' !in s[i + 2..e] && Utf8.WellFormed(s[i + 2..e])
  {
    InnerSlice(s, i, e + 1, 2, 1);
  }

  lemma BlockPiece(s: string, i: nat, e: nat)
    requires i + 4 <= e <= |s| && s[i] == '/' && s[i + 1] == '*'
    ensures BlockComment(s[i..e]) <==>
            && Closes(s, e - 2) && (forall k | i + 2 <= k < e - 2 :: !Closes(s, k))
            && Utf8.WellFormed(s[i + 2..e - 2])
  {
    hide Utf8.WellFormed;
    var g := s[i..e];
    InnerSlice(s, i, e, 2, 2);
    forall k | 0 <= k < |g| - 1 ensures Closes(g, k) <==> Closes(s, i + k) {
      assert g[k] == s[i + k] && g[k + 1] == s[i + k + 1];
    }
    forall k | i + 2 <= k < e - 2 ensures Closes(g, k - i) <==> Closes(s, k) {
      assert Closes(g, k - i) <==> Closes(s, i + (k - i));
    }
  }

  lemma GapAfterPiece(s: string, i: nat, k: nat, j: nat, last: bool)
    requires i + 3 <= k <= j <= |s| && Gap(s[k..j], last) && (LineComment(s[i..k]) || BlockComment(s[i..k]))
    ensures Gap(s[i..j], last)
  {
    hide LineComment, BlockComment;
    SliceOfSlice(s, i, j, k - i);
  }

  lemma GapAfterBlank(s: string, i: nat, j: nat, last: bool)
    requires i < j <= |s| && IsBlank(s[i]) && Gap(s[i + 1..j], last)
    ensures Gap(s[i..j], last)
  {
    hide LineComment, BlockComment;
    BlanksAre(s[i]);
    SliceOfSlice(s, i, j, 1);
  }

  lemma GapNothing(s: string, i: nat, last: bool)
    requires i <= |s|
    ensures Gap(s[i..i], last)
  {}

  /** What the lexer skips is a gap. */
  lemma {:induction false} SkippedIsGap(s: string, i: nat)
    requires i <= |s| && SkipFrom(s, i).Some?
    ensures var j := SkipFrom(s, i).value;
            Gap(s[i..j], j == |s|)
    decreases |s| - i
  {
    hide Gap, LineComment, BlockComment, LineCommentEnd, BlockCommentEnd, Utf8.WellFormed;
    var j := SkipFrom(s, i).value;
    if i == |s| || (!IsBlank(s[i]) && s[i] != '/') {
      GapNothing(s, i, j == |s|);
    } else if IsBlank(s[i]) {
      SkippedIsGap(s, i + 1);
      GapAfterBlank(s, i, j, j == |s|);
    } else if Peek(s, i + 1) == '/' {
      var e := LineCommentEnd(s, i + 2).value;
      LineTaken(s, i + 2);
      if e == |s| {
        GapOpen(s, i);
      } else {
        assert SkipFrom(s, e) == SkipFrom(s, e + 1);
        SkippedIsGap(s, e + 1);
        LinePiece(s, i, e);
        GapAfterPiece(s, i, e + 1, j, j == |s|);
      }
    } else if Peek(s, i + 1) == '*' {
      var e := BlockCommentEnd(s, i + 2).value;
      BlockTaken(s, i + 2);
      BlockPiece(s, i, e);
      SkippedIsGap(s, e);
      GapAfterPiece(s, i, e, j, j == |s|);
    } else {
      GapNothing(s, i, j == |s|);
    }
  }

  lemma GapOpen(s: string, i: nat)
    requires i + 2 <= |s| && s[i] == '/' && s[i + 1] == '/' && '\n' !in s[i + 2..|s|] && Utf8.WellFormed(s[i + 2..|s|])
    ensures Gap(s[i..|s|], true)
  {
    hide Utf8.WellFormed, LineComment, BlockComment;
    SliceOfSlice(s, i, |s|, 2);
    assert s[i + 2..] == s[i + 2..|s|];
  }

  lemma LineIsSkipped(s: string, i: nat, k: nat)
    requires i + 3 <= k <= |s| && LineComment(s[i..k])
    ensures SkipFrom(s, i) == SkipFrom(s, k)
  {
    hide LineCommentEnd, Utf8.WellFormed;
    assert s[i] == s[i..k][0] && s[i + 1] == s[i..k][1];
    LinePiece(s, i, k - 1);
    LineSkipped(s, i + 2, k - 1);
    assert SkipFrom(s, k - 1) == SkipFrom(s, k);
  }

  lemma BlockIsSkipped(s: string, i: nat, k: nat)
    requires i <= k <= |s| && BlockComment(s[i..k])
    ensures SkipFrom(s, i) == SkipFrom(s, k)
  {
    hide BlockCommentEnd, Utf8.WellFormed;
    assert s[i] == s[i..k][0] && s[i + 1] == s[i..k][1];
    BlockPiece(s, i, k);
    BlockSkipped(s, i + 2, k - 2);
  }

  /** A gap is skipped, whatever stands behind it. */
  lemma {:induction false} GapIsSkipped(s: string, i: nat, j: nat)
    requires i <= j <= |s| && Gap(s[i..j], j == |s|)
    ensures SkipFrom(s, i) == SkipFrom(s, j)
    decreases j - i
  {
    hide LineComment, BlockComment, OpenComment, SkipFrom;
    var g := s[i..j];
    if g != "" {
      if Blank(g[0]) && Gap(g[1..], j == |s|) {
        SliceOfSlice(s, i, j, 1);
        GapIsSkipped(s, i + 1, j);
        BlankIsSkipped(s, i);
      } else if k :| 3 <= k <= |g| && (LineComment(g[..k]) || BlockComment(g[..k])) && Gap(g[k..], j == |s|) {
        SliceOfSlice(s, i, j, k);
        GapIsSkipped(s, i + k, j);
        if LineComment(g[..k]) {
          LineIsSkipped(s, i, i + k);
        } else {
          BlockIsSkipped(s, i, i + k);
        }
      } else {
        OpenIsSkipped(s, i);
        assert s[i..] == g;
      }
    }
  }

  lemma BlankIsSkipped(s: string, i: nat)
    requires i < |s| && Blank(s[i])
    ensures SkipFrom(s, i) == SkipFrom(s, i + 1)
  {
    BlanksAre(s[i]);
  }

  lemma OpenIsSkipped(s: string, i: nat)
    requires i <= |s|
    ensures OpenComment(s[i..]) ==> SkipFrom(s, i) == SkipFrom(s, |s|)
  {
    hide LineCommentEnd, Utf8.WellFormed;
    if OpenComment(s[i..]) {
      var g := s[i..];
      assert s[i] == g[0] && s[i + 1] == g[1] && g[2..] == s[i + 2..|s|];
      LineSkipped(s, i + 2, |s|);
    }
  }

  // ----- Whole texts -----

  /** Whatever the lexer accepts is gaps and spellings of the tokens it gives, in their order. */
  lemma {:induction false} LexedIsSpelled(s: string, i: nat)
    requires i <= |s| && LexFrom(s, i).Some?
    ensures Tokenises(s, i, LexFrom(s, i).value)
    decreases |s| - i
  {
    hide SkipFrom, LexTokenAt, Gap, Spells;
    var j, ts := SkipFrom(s, i).value, LexFrom(s, i).value;
    SkippedIsGap(s, i);
    if j == |s| {
      assert s[i..j] == s[i..];
    } else {
      var (token, e) := LexTokenAt(s, j).value;
      TakenIsSpelled(s, j);
      LexedIsSpelled(s, e);
      assert ts[1..] == LexFrom(s, e).value;
    }
  }

  /** Lexing from the start of a gap is lexing from its end. */
  lemma GapsDoNotMatter(s: string, i: nat, j: nat)
    requires i <= j <= |s| && Gap(s[i..j], j == |s|)
    ensures LexFrom(s, i) == LexFrom(s, j)
  {
    hide SkipFrom, LexTokenAt, Gap;
    GapIsSkipped(s, i, j);
  }
}
