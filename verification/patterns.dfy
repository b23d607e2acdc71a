/** The regular expressions the code validator tests against titles and source text
    (frontend/src/SolutionPage.js), each given by its meaning under JavaScript's
    backtracking semantics and by a direct matcher proved equivalent to it. */
module Patterns {
  import opened Text

  /** `\d`: an ASCII digit. */
  predicate IsDigit(c: char) {
    '0' <= c <= '9'
  }

  /** `\w`: an ASCII letter, digit or underscore. */
  predicate IsWordChar(c: char) {
    IsAsciiLetter(c) || IsDigit(c) || c == '_'
  }

  // ------------------------------------------------------------------ \b\d+\b

  /** `t[a..b]` is a run of digits with a word boundary on each side. */
  predicate Witness(t: string, a: int, b: int) {
    && 0 <= a < b <= |t|
    && (forall k :: a <= k < b ==> IsDigit(t[k]))
    && (a == 0 || !IsWordChar(t[a - 1]))
    && (b == |t| || !IsWordChar(t[b]))
  }

  /** `/\b\d+\b/.test(t)`: backtracking lets `\d+` end at any digit, so the
      pattern matches exactly when some digit run has a boundary at both ends. */
  predicate HasStandaloneNumber(t: string) {
    exists a: int, b: int | 0 <= a < b <= |t| :: Witness(t, a, b)
  }

  /** One left-to-right pass over the maximal runs of word characters: the
      pattern matches exactly when one of those runs is all digits. */
  method ScanStandaloneNumber(t: string) returns (found: bool)
    ensures found <==> HasStandaloneNumber(t)
  {
    found := false;
    var start := 0;
    var digits := true;
    var i := 0;
    while i <= |t|
      invariant 0 <= start <= i <= |t| + 1
      invariant start == 0 || start == |t| + 1 || !IsWordChar(t[start - 1])
      invariant forall k :: start <= k < i ==> k < |t| && IsWordChar(t[k])
      invariant digits <==> forall k :: start <= k < i && k < |t| ==> IsDigit(t[k])
      invariant found <==> exists a: int, b: int | 0 <= a < b < i :: Witness(t, a, b)
      decreases |t| + 1 - i
    {
      if i == |t| || !IsWordChar(t[i]) {
        WitnessAtBoundary(t, start, i);
        if start < i && digits {
          assert Witness(t, start, i);
          found := true;
        }
        start := i + 1;
        digits := true;
      } else {
        NoWitnessInsideWord(t, i);
        digits := digits && IsDigit(t[i]);
      }
      i := i + 1;
    }
  }

  /** At a boundary position `b`, the only run that can end there is the one that
      started at the last boundary. */
  lemma WitnessAtBoundary(t: string, start: int, b: int)
    requires 0 <= start <= b <= |t|
    requires start == 0 || !IsWordChar(t[start - 1])
    requires forall k :: start <= k < b ==> IsWordChar(t[k])
    requires b == |t| || !IsWordChar(t[b])
    ensures forall a :: Witness(t, a, b) <==> (a == start && start < b && forall k :: start <= k < b ==> IsDigit(t[k]))
  {
  }

  /** No run with a boundary after it ends in front of a word character. */
  lemma NoWitnessInsideWord(t: string, b: int)
    requires 0 <= b < |t| && IsWordChar(t[b])
    ensures forall a :: !Witness(t, a, b)
  {
  }

  // ------------------------------------------------------------------ \s runs

  /** Every character of `s[i..j]` is white space (`\s`). */
  predicate SpacesBetween(s: string, i: int, j: int) {
    0 <= i <= j <= |s| && forall k :: i <= k < j ==> IsSpace(s[k])
  }

  /** The first position at or after `i` that does not hold white space. */
  function SkipSpaces(s: string, i: nat): (r: nat)
    requires i <= |s|
    ensures SpacesBetween(s, i, r)
    ensures r == |s| || !IsSpace(s[r])
    decreases |s| - i
  {
    if i < |s| && IsSpace(s[i]) then SkipSpaces(s, i + 1) else i
  }

  /** A run of white space followed by a non-space is exactly what skipping finds. */
  lemma SkipSpacesStopsAt(s: string, i: nat, j: nat)
    requires i <= |s|
    requires SpacesBetween(s, i, j) && j < |s| && !IsSpace(s[j])
    ensures SkipSpaces(s, i) == j
    decreases |s| - i
  {
    if i < j {
      SkipSpacesStopsAt(s, i + 1, j);
    }
  }

  // ------------------------------------------------- function\s+printNumbers\s*\(

  const FunctionKeyword := "function"
  const ConstKeyword := "const"
  const PrintNumbersName := "printNumbers"

  /** The declaration form `function\s+printNumbers\s*\(` starts at `i`, in regex
      terms: some split of the text after the keyword into the two white-space runs. */
  ghost predicate FunctionFormAt(s: string, i: nat) {
    && StartsAt(s, FunctionKeyword, i)
    && exists j: int, k: int ::
         && i + 8 < j && SpacesBetween(s, i + 8, j)
         && StartsAt(s, PrintNumbersName, j)
         && SpacesBetween(s, j + 12, k) && k < |s| && s[k] == '('
  }

  /** The same form checked by skipping each white-space run greedily. */
  predicate FunctionMatchAt(s: string, i: nat) {
    && StartsAt(s, FunctionKeyword, i)
    && var j := SkipSpaces(s, i + 8);
       && i + 8 < j && StartsAt(s, PrintNumbersName, j)
       && var k := SkipSpaces(s, j + 12);
          k < |s| && s[k] == '('
  }

  lemma FunctionMatchAtMeansForm(s: string, i: nat)
    ensures FunctionMatchAt(s, i) <==> FunctionFormAt(s, i)
  {
    if FunctionFormAt(s, i) {
      var j: int, k: int :| && i + 8 < j && SpacesBetween(s, i + 8, j)
                           && StartsAt(s, PrintNumbersName, j)
                           && SpacesBetween(s, j + 12, k) && k < |s| && s[k] == '(';
      assert s[j] == PrintNumbersName[0];
      SkipSpacesStopsAt(s, i + 8, j);
      SkipSpacesStopsAt(s, j + 12, k);
    }
    if FunctionMatchAt(s, i) {
      var j := SkipSpaces(s, i + 8);
      var k := SkipSpaces(s, j + 12);
      assert SpacesBetween(s, j + 12, k);
    }
  }

  // ------------------------------------------------ const\s+printNumbers\s*=\s*\(

  /** The arrow form `const\s+printNumbers\s*=\s*\(` starts at `i`, in regex terms. */
  ghost predicate ArrowFormAt(s: string, i: nat) {
    && StartsAt(s, ConstKeyword, i)
    && exists j: int, k: int, m: int ::
         && i + 5 < j && SpacesBetween(s, i + 5, j)
         && StartsAt(s, PrintNumbersName, j)
         && SpacesBetween(s, j + 12, k) && k < |s| && s[k] == '='
         && SpacesBetween(s, k + 1, m) && m < |s| && s[m] == '('
  }

  predicate ArrowMatchAt(s: string, i: nat) {
    && StartsAt(s, ConstKeyword, i)
    && var j := SkipSpaces(s, i + 5);
       && i + 5 < j && StartsAt(s, PrintNumbersName, j)
       && var k := SkipSpaces(s, j + 12);
          && k < |s| && s[k] == '='
          && var m := SkipSpaces(s, k + 1);
             m < |s| && s[m] == '('
  }

  lemma ArrowMatchAtMeansForm(s: string, i: nat)
    ensures ArrowMatchAt(s, i) <==> ArrowFormAt(s, i)
  {
    if ArrowFormAt(s, i) {
      ArrowFormGivesMatch(s, i);
    }
    if ArrowMatchAt(s, i) {
      var j := SkipSpaces(s, i + 5);
      var k := SkipSpaces(s, j + 12);
      var m := SkipSpaces(s, k + 1);
      assert SpacesBetween(s, j + 12, k) && SpacesBetween(s, k + 1, m);
    }
  }

  lemma ArrowFormGivesMatch(s: string, i: nat)
    requires ArrowFormAt(s, i)
    ensures ArrowMatchAt(s, i)
  {
    var j: int, k: int, m: int :|
      && i + 5 < j && SpacesBetween(s, i + 5, j)
      && StartsAt(s, PrintNumbersName, j)
      && SpacesBetween(s, j + 12, k) && k < |s| && s[k] == '='
      && SpacesBetween(s, k + 1, m) && m < |s| && s[m] == '(';
    ArrowSplitGivesMatch(s, i, j, k, m);
  }

  lemma ArrowSplitGivesMatch(s: string, i: nat, j: nat, k: nat, m: nat)
    requires StartsAt(s, ConstKeyword, i)
    requires i + 5 < j && SpacesBetween(s, i + 5, j) && StartsAt(s, PrintNumbersName, j)
    requires SpacesBetween(s, j + 12, k) && k < |s| && s[k] == '='
    requires SpacesBetween(s, k + 1, m) && m < |s| && s[m] == '('
    ensures ArrowMatchAt(s, i)
  {
    assert s[j] == PrintNumbersName[0];
    SkipSpacesStopsAt(s, i + 5, j);
    SkipSpacesStopsAt(s, j + 12, k);
    SkipSpacesStopsAt(s, k + 1, m);
  }

  /** The name check of the print-numbers path: either regex matches somewhere. */
  predicate DeclaresPrintNumbers(code: string) {
    exists i: nat | i <= |code| :: FunctionMatchAt(code, i) || ArrowMatchAt(code, i)
  }

  lemma DeclaresPrintNumbersMeansForm(code: string)
    ensures DeclaresPrintNumbers(code) <==> exists i: nat :: FunctionFormAt(code, i) || ArrowFormAt(code, i)
  {
    forall i: nat
      ensures FunctionMatchAt(code, i) <==> FunctionFormAt(code, i)
      ensures ArrowMatchAt(code, i) <==> ArrowFormAt(code, i)
    {
      FunctionMatchAtMeansForm(code, i);
      ArrowMatchAtMeansForm(code, i);
    }
  }
}
