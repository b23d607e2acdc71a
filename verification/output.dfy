/** The output comparison of the code validator (frontend/src/SolutionPage.js): how
    captured console text is built, normalised line by line, and reduced to
    whitespace-separated tokens. */
module Output {
  import opened Text

  // ------------------------------------------------------------ captured output

  /** The replaced `console.log`: each call appends its arguments joined by one
      space, then a newline. `logs` lists the calls in order, each as the string
      forms of its arguments. */
  function Capture(logs: seq<seq<string>>): (r: string)
    ensures |logs| > 0 ==> |r| > 0 && r[|r| - 1] == '\n'
  {
    if |logs| == 0 then "" else Capture(logs[..|logs| - 1]) + Join(logs[|logs| - 1], " ") + "\n"
  }

  /** Capturing two runs of calls one after the other appends their text. */
  lemma {:induction false} CaptureAppend(a: seq<seq<string>>, b: seq<seq<string>>)
    ensures Capture(a + b) == Capture(a) + Capture(b)
  {
    if |b| == 0 {
      assert a + b == a;
    } else {
      var init, last := b[..|b| - 1], b[|b| - 1];
      var ab := a + b;
      assert ab[..|ab| - 1] == a + init;
      assert ab[|ab| - 1] == last;
      assert Capture(ab) == Capture(a + init) + Join(last, " ") + "\n";
      CaptureAppend(a, init);
      assert Capture(b) == Capture(init) + Join(last, " ") + "\n";
    }
  }

  /** The line each call prints. */
  function LogLines(logs: seq<seq<string>>): (r: seq<string>)
    ensures |r| == |logs|
    ensures forall k :: 0 <= k < |logs| ==> r[k] == Join(logs[k], " ")
  {
    if |logs| == 0 then [] else LogLines(logs[..|logs| - 1]) + [Join(logs[|logs| - 1], " ")]
  }

  predicate NoLineBreaks(logs: seq<seq<string>>) {
    forall k, j :: 0 <= k < |logs| && 0 <= j < |logs[k]| ==> '\n' !in logs[k][j] && '\r' !in logs[k][j]
  }

  /** When no argument holds a line break, the captured text splits into one line
      per call, followed by the empty piece after the final newline. */
  lemma {:induction false} CaptureSplits(logs: seq<seq<string>>)
    requires NoLineBreaks(logs)
    ensures Split(Capture(logs), IsNewline) == LogLines(logs) + [""]
  {
    if |logs| > 0 {
      var init := logs[..|logs| - 1];
      var line := Join(logs[|logs| - 1], " ");
      assert NoLineBreaks(init) by {
        assert forall k :: 0 <= k < |init| ==> init[k] == logs[k];
      }
      CaptureSplits(init);
      JoinHasNoChar(logs[|logs| - 1], " ", '\n');
      SplitNoSeparator(line, IsNewline);
      SplitJoinLast(Capture(init), line, LogLines(init));
    }
  }

  lemma SplitJoinLast(c: string, line: string, lines: seq<string>)
    requires Split(c, IsNewline) == lines + [""]
    requires Split(line, IsNewline) == [line]
    ensures Split(c + line + "\n", IsNewline) == lines + [line] + [""]
  {
    SplitAround(c + line, '\n', "", IsNewline);
    assert c + line + "\n" == (c + line) + ['\n'] + "";
    SplitConcatLastPiece(c, line, lines);
  }

  /** Appending separator-free text to `c` extends the last piece of its split. */
  lemma {:induction false} SplitConcatLastPiece(c: string, line: string, lines: seq<string>)
    requires Split(c, IsNewline) == lines + [""]
    requires Split(line, IsNewline) == [line]
    ensures Split(c + line, IsNewline) == lines + [line]
    decreases |c|
  {
    if |c| == 0 {
      assert c + line == line;
      assert |lines| == 0;
    } else if IsNewline(c[0]) {
      SplitConcatAfterBreak(c, line, lines);
    } else {
      SplitConcatInsideLine(c, line, lines);
    }
  }

  /** The step of `SplitConcatLastPiece` when `c` starts with a line break. */
  lemma {:induction false} SplitConcatAfterBreak(c: string, line: string, lines: seq<string>)
    requires |c| > 0 && IsNewline(c[0])
    requires Split(c, IsNewline) == lines + [""]
    requires Split(line, IsNewline) == [line]
    ensures Split(c + line, IsNewline) == lines + [line]
    decreases |c|, 0
  {
    var rest := Split(c[1..], IsNewline);
    assert Split(c, IsNewline) == [""] + rest;
    assert |lines| + 1 == 1 + |rest|;
    assert |lines| > 0;
    assert rest == ([""] + rest)[1..] == (lines + [""])[1..] == lines[1..] + [""];
    SplitConcatLastPiece(c[1..], line, lines[1..]);
    assert (c + line)[1..] == c[1..] + line;
    assert (c + line)[0] == c[0];
    assert Split(c + line, IsNewline) == [""] + (lines[1..] + [line]);
    assert lines[0] == (lines + [""])[0] == ([""] + rest)[0] == "";
    assert lines == [lines[0]] + lines[1..];
  }

  /** The step of `SplitConcatLastPiece` when `c` starts inside a line. */
  lemma {:induction false} SplitConcatInsideLine(c: string, line: string, lines: seq<string>)
    requires |c| > 0 && !IsNewline(c[0])
    requires Split(c, IsNewline) == lines + [""]
    requires Split(line, IsNewline) == [line]
    ensures Split(c + line, IsNewline) == lines + [line]
    decreases |c|, 0
  {
    var rest := Split(c[1..], IsNewline);
    var head := [c[0]] + rest[0];
    assert Split(c, IsNewline) == [head] + rest[1..];
    assert (lines + [""])[0] == head;
    assert |lines| > 0;
    assert lines[0] == head;
    assert rest[1..] == ([head] + rest[1..])[1..] == (lines + [""])[1..] == lines[1..] + [""];
    var lines' := [rest[0]] + lines[1..];
    assert rest == [rest[0]] + rest[1..] == lines' + [""];
    SplitConcatLastPiece(c[1..], line, lines');
    assert (c + line)[1..] == c[1..] + line;
    assert (c + line)[0] == c[0];
    var rest' := Split(c[1..] + line, IsNewline);
    assert rest' == lines' + [line];
    assert rest'[0] == rest[0];
    assert rest'[1..] == lines[1..] + [line];
    assert Split(c + line, IsNewline) == [head] + rest'[1..];
    assert lines == [head] + lines[1..];
  }

  // ------------------------------------------------------------ line endings

  /** `.replace(/\r\n?/g, '\n')`: a CR LF pair or a lone CR becomes one LF. */
  function UnifyLineEndings(s: string): (r: string)
    ensures '\r' !in r
    ensures |r| <= |s|
    ensures forall c :: c in r && c != '\n' ==> c in s
    decreases |s|
  {
    if |s| == 0 then ""
    else if s[0] == '\r' then
      if |s| > 1 && s[1] == '\n' then
        assert forall c :: c in s[2..] ==> c in s;
        "\n" + UnifyLineEndings(s[2..])
      else
        assert forall c :: c in s[1..] ==> c in s;
        "\n" + UnifyLineEndings(s[1..])
    else
      assert forall c :: c in s[1..] ==> c in s;
      [s[0]] + UnifyLineEndings(s[1..])
  }

  /** Text without a CR is left as it is. */
  lemma {:induction false} UnifyWithoutCR(s: string)
    requires '\r' !in s
    ensures UnifyLineEndings(s) == s
  {
    if |s| > 0 {
      assert '\r' !in s[1..] by {
        assert forall c :: c in s[1..] ==> c in s;
      }
      UnifyWithoutCR(s[1..]);
      assert s == [s[0]] + s[1..];
    }
  }

  predicate EndsWithCR(s: string) {
    |s| > 0 && s[|s| - 1] == '\r'
  }

  /** Unification works piecewise as long as a CR LF pair is not cut in two. */
  lemma {:induction false} UnifyAppend(a: string, b: string)
    requires !EndsWithCR(a)
    ensures UnifyLineEndings(a + b) == UnifyLineEndings(a) + UnifyLineEndings(b)
    decreases |a|
  {
    if |a| == 0 {
      assert a + b == b;
    } else {
      var n := if a[0] == '\r' && |a| > 1 && a[1] == '\n' then 2 else 1;
      var head := if a[0] == '\r' then "\n" else [a[0]];
      UnifyStep(a, b, n);
      assert !EndsWithCR(a[n..]);
      UnifyAppend(a[n..], b);
      assert head + (UnifyLineEndings(a[n..]) + UnifyLineEndings(b)) ==
             (head + UnifyLineEndings(a[n..])) + UnifyLineEndings(b);
    }
  }

  /** Unification consumes one or two characters at the front of `a`, whatever follows. */
  lemma UnifyStep(a: string, b: string, n: nat)
    requires |a| > 0 && !EndsWithCR(a)
    requires n == if a[0] == '\r' && |a| > 1 && a[1] == '\n' then 2 else 1
    ensures n <= |a| && (a + b)[n..] == a[n..] + b
    ensures var head := if a[0] == '\r' then "\n" else [a[0]];
      && UnifyLineEndings(a) == head + UnifyLineEndings(a[n..])
      && UnifyLineEndings(a + b) == head + UnifyLineEndings(a[n..] + b)
  {
    assert (a + b)[n..] == a[n..] + b;
    assert (a + b)[0] == a[0];
    if a[0] == '\r' {
      assert |a| > 1;
      assert (a + b)[1] == a[1];
    }
  }

  // ------------------------------------------------------------ normalisation

  /** `normalizeLines`: unify line endings, split on LF, trim each line, drop the
      empty ones. */
  function NormalizeLines(s: string): seq<string> {
    DropEmpty(TrimAll(Split(UnifyLineEndings(s), IsNewline)))
  }

  /** Lines with text and no line break. */
  predicate Unbroken(lines: seq<string>) {
    forall k :: 0 <= k < |lines| ==> lines[k] != "" && '\n' !in lines[k] && '\r' !in lines[k]
  }

  predicate Trimmed(lines: seq<string>) {
    forall k :: 0 <= k < |lines| ==> Trim(lines[k]) == lines[k]
  }

  /** Lines as normalisation leaves them. */
  predicate Clean(lines: seq<string>) {
    Unbroken(lines) && Trimmed(lines)
  }

  lemma NormalizeLinesClean(s: string)
    ensures Clean(NormalizeLines(s))
  {
    var u := UnifyLineEndings(s);
    var pieces := Split(u, IsNewline);
    forall k | 0 <= k < |pieces|
      ensures '\n' !in pieces[k] && '\r' !in pieces[k]
    {
      assert '\n' in pieces[k] ==> !IsNewline('\n');
      assert '\r' in pieces[k] ==> '\r' in u;
    }
    CleanPiecesUnbroken(pieces);
    CleanPiecesTrimmed(pieces);
  }

  lemma {:induction false} CleanPiecesUnbroken(pieces: seq<string>)
    requires forall k :: 0 <= k < |pieces| ==> '\n' !in pieces[k] && '\r' !in pieces[k]
    ensures Unbroken(DropEmpty(TrimAll(pieces)))
  {
    if |pieces| > 0 {
      var tail := pieces[1..];
      assert forall k :: 0 <= k < |tail| ==> tail[k] == pieces[k + 1];
      CleanPiecesUnbroken(tail);
      var t := Trim(pieces[0]);
      TrimKeepsOut(pieces[0], '\n');
      TrimKeepsOut(pieces[0], '\r');
      assert TrimAll(pieces) == [t] + TrimAll(tail);
      assert ([t] + TrimAll(tail))[1..] == TrimAll(tail);
    }
  }

  lemma CleanPiecesTrimmed(pieces: seq<string>)
    ensures Trimmed(DropEmpty(TrimAll(pieces)))
  {
    var trimmed := TrimAll(pieces);
    var r := DropEmpty(trimmed);
    forall k | 0 <= k < |r|
      ensures Trim(r[k]) == r[k]
    {
      var j :| 0 <= j < |trimmed| && trimmed[j] == r[k];
      TrimIdempotent(pieces[j]);
    }
  }

  /** The generic path's `normalize`: the normalised lines joined by LF. */
  function Normalize(s: string): string {
    Join(NormalizeLines(s), "\n")
  }

  /** The normalised text has no CR, and its lines are exactly the normalised
      lines: none empty, each trimmed, in their original order. */
  lemma NormalizeShape(s: string)
    ensures '\r' !in Normalize(s)
    ensures |NormalizeLines(s)| > 0 ==> Split(Normalize(s), IsNewline) == NormalizeLines(s)
    ensures |NormalizeLines(s)| == 0 <==> Normalize(s) == ""
  {
    NormalizeLinesClean(s);
    JoinShape(NormalizeLines(s));
  }

  /** Clean lines joined by LF: no CR, empty exactly when there are no lines, and
      they split back into the lines. */
  lemma JoinShape(lines: seq<string>)
    requires Unbroken(lines)
    ensures '\r' !in Join(lines, "\n")
    ensures |lines| > 0 ==> Split(Join(lines, "\n"), IsNewline) == lines
    ensures |lines| == 0 <==> Join(lines, "\n") == ""
  {
    JoinHasNoChar(lines, "\n", '\r');
    if |lines| > 0 {
      SplitJoin(lines);
      JoinHeadPrefix(lines, "\n");
    }
  }

  lemma JoinHeadPrefix(xs: seq<string>, sep: string)
    requires |xs| > 0
    ensures xs[0] <= Join(xs, sep)
  {
  }

  /** Normalised lines are a fixed point of normalisation. */
  lemma NormalizeLinesOfNormalized(lines: seq<string>)
    requires Clean(lines)
    ensures NormalizeLines(Join(lines, "\n")) == lines
  {
    if |lines| == 0 {
      NormalizeLinesEmpty(Join(lines, "\n"));
    } else {
      NormalizeLinesOfJoin(lines);
    }
  }

  lemma NormalizeLinesOfJoin(lines: seq<string>)
    requires |lines| > 0 && Clean(lines)
    ensures NormalizeLines(Join(lines, "\n")) == lines
  {
    JoinHasNoChar(lines, "\n", '\r');
    SplitJoin(lines);
    NormalizeLinesOfPieces(Join(lines, "\n"), lines);
    TrimAllKeepsTrimmed(lines);
    DropEmptyKeepsNonEmpty(lines);
  }

  /** Text without a CR normalises to the trimmed, non-empty pieces of its split. */
  lemma NormalizeLinesOfPieces(u: string, pieces: seq<string>)
    requires '\r' !in u
    requires Split(u, IsNewline) == pieces
    ensures NormalizeLines(u) == DropEmpty(TrimAll(pieces))
  {
    UnifyWithoutCR(u);
  }

  lemma NormalizeLinesEmpty(s: string)
    requires |s| == 0
    ensures NormalizeLines(s) == []
  {
    var u := UnifyLineEndings(s);
    assert |u| == 0;
    var pieces := Split(u, IsNewline);
    assert pieces == [""];
    var t := TrimAll(pieces);
    assert t == [Trim(pieces[0])];
    assert Trim(pieces[0]) == "";
    assert DropEmpty(t) == [];
  }

  lemma NormalizeIdempotent(s: string)
    ensures NormalizeLines(Normalize(s)) == NormalizeLines(s)
    ensures Normalize(Normalize(s)) == Normalize(s)
  {
    NormalizeLinesClean(s);
    NormalizeLinesOfNormalized(NormalizeLines(s));
  }

  /** Normalising two outputs separated by a line break gives the first one's lines
      followed by the second one's: the order of lines is kept. */
  lemma NormalizeLinesAppend(a: string, b: string)
    requires !EndsWithCR(a)
    ensures NormalizeLines(a + "\n" + b) == NormalizeLines(a) + NormalizeLines(b)
  {
    UnifyAppend(a, "\n" + b);
    assert UnifyLineEndings("\n" + b) == "\n" + UnifyLineEndings(b) by {
      assert ("\n" + b)[1..] == b;
    }
    var ua, ub := UnifyLineEndings(a), UnifyLineEndings(b);
    assert a + "\n" + b == a + ("\n" + b);
    assert ua + ("\n" + ub) == ua + ['\n'] + ub;
    SplitAround(ua, '\n', ub, IsNewline);
    TrimAllAppend(Split(ua, IsNewline), Split(ub, IsNewline));
    DropEmptyAppend(TrimAll(Split(ua, IsNewline)), TrimAll(Split(ub, IsNewline)));
  }

  /** Captured output normalises to the trimmed, non-empty printed lines. */
  lemma NormalizeCapture(logs: seq<seq<string>>)
    requires NoLineBreaks(logs)
    ensures NormalizeLines(Capture(logs)) == DropEmpty(TrimAll(LogLines(logs)))
  {
    var c, lines := Capture(logs), LogLines(logs);
    assert UnifyLineEndings(c) == c by {
      CaptureNoCR(logs);
      UnifyWithoutCR(c);
    }
    assert Split(c, IsNewline) == lines + [""] by {
      CaptureSplits(logs);
    }
    assert TrimAll(lines + [""]) == TrimAll(lines) + [""] by {
      TrimAllAppend(lines, [""]);
      assert TrimAll([""]) == [Trim("")];
    }
    assert DropEmpty(TrimAll(lines) + [""]) == DropEmpty(TrimAll(lines)) by {
      DropEmptyAppend(TrimAll(lines), [""]);
      assert DropEmpty([""]) == [];
    }
  }

  lemma {:induction false} CaptureNoCR(logs: seq<seq<string>>)
    requires NoLineBreaks(logs)
    ensures '\r' !in Capture(logs)
  {
    if |logs| > 0 {
      var init := logs[..|logs| - 1];
      assert NoLineBreaks(init) by {
        assert forall k :: 0 <= k < |init| ==> init[k] == logs[k];
      }
      CaptureNoCR(init);
      JoinHasNoChar(logs[|logs| - 1], " ", '\r');
    }
  }

  // ------------------------------------------------------------ worked example

  /** A single line without line breaks normalises to its trimmed self. */
  lemma NormalizeLinesOneLine(s: string)
    requires '\n' !in s && '\r' !in s && !AllSpace(s)
    ensures NormalizeLines(s) == [Trim(s)]
  {
    UnifyWithoutCR(s);
    SplitNoSeparator(s, IsNewline);
    assert TrimAll([s]) == [Trim(s)];
  }

  /** `s[i]` is a line break that does not end a CR. */
  predicate BreakAt(s: string, i: int) {
    0 <= i < |s| && s[i] == '\n' && !EndsWithCR(s[..i])
  }

  /** `s` is one visible character, at `i`, with at most one space on each side. */
  predicate PaddedAt(s: string, i: int) {
    && 0 <= i < |s| <= i + 2 && i <= 1 && !IsSpace(s[i])
    && forall k :: 0 <= k < |s| && k != i ==> s[k] == ' '
  }

  /** Three laws of line normalisation, stated of any `f` so that a concrete example
      can be worked through them without unfolding the normaliser on it. */
  ghost predicate SplitsAtBreaks(f: string -> seq<string>) {
    forall s: string, i: int :: BreakAt(s, i) ==> f(s) == f(s[..i]) + f(s[i + 1..])
  }

  ghost predicate KeepsPaddedLine(f: string -> seq<string>) {
    forall s: string, i: int :: PaddedAt(s, i) ==> f(s) == [s[i..i + 1]]
  }

  ghost predicate DropsEmptyText(f: string -> seq<string>) {
    forall s: string :: |s| == 0 ==> f(s) == []
  }

  lemma PaddedLine(s: string, i: nat)
    requires PaddedAt(s, i)
    ensures NormalizeLines(s) == [s[i..i + 1]]
  {
    assert Trim(s) == s[i..i + 1] by {
      var t := TrimStart(s);
      assert t == s[i..];
      assert TrimEnd(t) == t[..1];
    }
    assert s[i] in s;
    NormalizeLinesOneLine(s);
  }

  lemma NormalizeLaws()
    ensures SplitsAtBreaks(NormalizeLines) && KeepsPaddedLine(NormalizeLines) && DropsEmptyText(NormalizeLines)
  {
    forall s: string, i: int | BreakAt(s, i)
      ensures NormalizeLines(s) == NormalizeLines(s[..i]) + NormalizeLines(s[i + 1..])
    {
      assert s == s[..i] + "\n" + s[i + 1..];
      NormalizeLinesAppend(s[..i], s[i + 1..]);
    }
    forall s: string, i: int | PaddedAt(s, i)
      ensures NormalizeLines(s) == [s[i..i + 1]]
    {
      PaddedLine(s, i);
    }
    forall s: string | |s| == 0
      ensures NormalizeLines(s) == []
    {
      NormalizeLinesEmpty(s);
    }
  }

  /** Three one-character lines. */
  lemma ThreeLinesFor(f: string -> seq<string>, t: string)
    requires SplitsAtBreaks(f) && KeepsPaddedLine(f)
    requires |t| == 5 && t[1] == '\n' && t[3] == '\n'
    requires !IsSpace(t[0]) && !IsSpace(t[2]) && !IsSpace(t[4]) && t[0] != '\r' && t[2] != '\r'
    ensures f(t) == [t[0..1], t[2..3], t[4..5]]
  {
    assert BreakAt(t, 1);
    var r := t[2..];
    assert BreakAt(r, 1);
    assert PaddedAt(t[..1], 0) && PaddedAt(r[..1], 0) && PaddedAt(r[2..], 0);
    assert t[..1][0..1] == t[0..1];
    assert r[..1][0..1] == t[2..3];
    assert r[2..][0..1] == t[4..5];
  }

  /** " 1 \n\n2\n3 ", character by character. */
  lemma PaddedExampleFor(f: string -> seq<string>, s: string)
    requires SplitsAtBreaks(f) && KeepsPaddedLine(f) && DropsEmptyText(f)
    requires |s| == 9 && s[0] == ' ' && s[1] == '1' && s[2] == ' ' && s[3] == '\n' && s[4] == '\n'
    requires s[5] == '2' && s[6] == '\n' && s[7] == '3' && s[8] == ' '
    ensures f(s) == [s[1..2], s[5..6], s[7..8]]
  {
    assert BreakAt(s, 3);
    var r := s[4..];
    assert BreakAt(r, 0);
    var w := r[1..];
    assert BreakAt(w, 1);
    assert PaddedAt(s[..3], 1) && PaddedAt(w[..1], 0) && PaddedAt(w[2..], 0);
    assert f(r[..0]) == [];
    assert s[..3][1..2] == s[1..2];
    assert w[..1][0..1] == s[5..6];
    assert w[2..][0..1] == s[7..8];
  }

  lemma LinesExampleFor(f: string -> seq<string>, s: string, t: string, u: string)
    requires SplitsAtBreaks(f) && KeepsPaddedLine(f) && DropsEmptyText(f)
    requires |s| == 9 && s[0] == ' ' && s[1] == '1' && s[2] == ' ' && s[3] == '\n' && s[4] == '\n'
    requires s[5] == '2' && s[6] == '\n' && s[7] == '3' && s[8] == ' '
    requires |t| == 5 && t[0] == '1' && t[1] == '\n' && t[2] == '2' && t[3] == '\n' && t[4] == '3'
    requires |u| == 5 && u[0] == '2' && u[1] == '\n' && u[2] == '1' && u[3] == '\n' && u[4] == '3'
    ensures f(s) == f(t)
    ensures |f(u)| > 0 && |f(t)| > 0 && f(u)[0] != f(t)[0]
  {
    PaddedExampleFor(f, s);
    ThreeLinesFor(f, t);
    ThreeLinesFor(f, u);
    assert s[1..2] == t[0..1] && s[5..6] == t[2..3] && s[7..8] == t[4..5];
    assert u[0..1][0] != t[0..1][0];
  }

  /** Surrounding blanks and blank lines do not matter; the order of lines does. */
  lemma NormalizeExample(padded: string, plain: string, swapped: string)
    requires padded == " 1 \n\n2\n3 " && plain == "1\n2\n3" && swapped == "2\n1\n3"
    ensures Normalize(padded) == Normalize(plain)
    ensures Normalize(swapped) != Normalize(plain)
  {
    NormalizeLaws();
    LinesExampleFor(NormalizeLines, padded, plain, swapped);
    NormalizeShape(swapped);
    NormalizeShape(plain);
  }

  // ------------------------------------------------------------ tokens

  /** `normalizeTokens`: the normalised lines joined by a space, split on runs of
      white space (`split(/\s+/)`), empty pieces dropped, joined by one space.
      Splitting on every white-space character and dropping the empty pieces
      gives the same tokens as splitting on runs. */
  function Tokens(s: string): string {
    Join(DropEmpty(Split(Join(NormalizeLines(s), " "), IsSpace)), " ")
  }

  /** Equal normalised lines give equal tokens, so on the print-numbers path a line
      match implies a token match. */
  lemma LinesMatchGivesTokensMatch(a: string, b: string)
    requires Join(NormalizeLines(a), "\n") == Join(NormalizeLines(b), "\n")
    ensures Tokens(a) == Tokens(b)
  {
    NormalizeShape(a);
    NormalizeShape(b);
  }
}
