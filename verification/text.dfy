/** The JavaScript string operations the application relies on, over `string`
    (a sequence of UTF-16 code units is approximated by a sequence of chars). */
module Text {
  import opened Wrappers

  /** The characters `String.prototype.trim` and the regex class `\s` treat as
      white space: the ECMAScript WhiteSpace and LineTerminator sets. */
  predicate IsSpace(c: char) {
    || c == ' ' || c == '\t' || c == '\n' || c == '\r' || c == '\U{B}' || c == '\U{C}'
    || c == '\U{A0}' || c == '\U{1680}' || ('\U{2000}' <= c <= '\U{200A}')
    || c == '\U{2028}' || c == '\U{2029}' || c == '\U{202F}' || c == '\U{205F}'
    || c == '\U{3000}' || c == '\U{FEFF}'
  }

  predicate IsNewline(c: char) { c == '\n' }

  predicate IsAt(c: char) { c == '@' }

  predicate AllSpace(s: string) {
    forall i :: 0 <= i < |s| ==> IsSpace(s[i])
  }

  /** A JavaScript string used in a boolean context: `undefined` and `""` are falsy. */
  predicate Truthy(o: Option<string>) {
    o.Some? && o.value != ""
  }

  /** `o || fallback` for an optional string. */
  function Or(o: Option<string>, fallback: string): (r: string)
    ensures Truthy(o) ==> r == o.value
    ensures !Truthy(o) ==> r == fallback
  {
    if Truthy(o) then o.value else fallback
  }

  // ---------------------------------------------------------------------------
  // trim

  function TrimStart(s: string): (r: string)
    ensures |r| <= |s| && r == s[|s| - |r|..]
    ensures |r| > 0 ==> !IsSpace(r[0])
    ensures AllSpace(s[..|s| - |r|])
  {
    if |s| > 0 && IsSpace(s[0]) then
      var r := TrimStart(s[1..]);
      assert s[1..][..|s[1..]| - |r|] == s[1..|s| - |r|];
      r
    else s
  }

  function TrimEnd(s: string): (r: string)
    ensures |r| <= |s| && r == s[..|r|]
    ensures |r| > 0 ==> !IsSpace(r[|r| - 1])
    ensures AllSpace(s[|r|..])
  {
    if |s| > 0 && IsSpace(s[|s| - 1]) then
      var r := TrimEnd(s[..|s| - 1]);
      assert s[..|s| - 1][|r|..] == s[|r|..|s| - 1];
      r
    else s
  }

  /** `s.trim()`: the longest infix of `s` that neither starts nor ends with white space. */
  function Trim(s: string): (r: string)
    ensures |r| <= |s|
    ensures |r| > 0 ==> !IsSpace(r[0]) && !IsSpace(r[|r| - 1])
    ensures forall c {:trigger c in r} :: c in r ==> c in s
    ensures r == "" <==> AllSpace(s)
    ensures InfixBetweenSpaces(s, r)
  {
    var t := TrimStart(s);
    var r := TrimEnd(t);
    TrimIsInfix(s, t, r);
    assert forall c :: c in r ==> c in t;
    assert AllSpace(s) ==> AllSpace(t);
    assert r == "" ==> AllSpace(t) by {
      if r == "" { assert t[|r|..] == t; }
    }
    assert r == "" ==> AllSpace(s) by {
      if r == "" {
        assert s == s[..|s| - |t|] + t;
      }
    }
    r
  }

  /** `r` is what is left of `s` once white space is removed from both ends. */
  ghost predicate InfixBetweenSpaces(s: string, r: string) {
    exists i, j :: 0 <= i <= j <= |s| && r == s[i..j] && AllSpace(s[..i]) && AllSpace(s[j..])
  }

  lemma TrimIsInfix(s: string, t: string, r: string)
    requires t == TrimStart(s) && r == TrimEnd(t)
    ensures InfixBetweenSpaces(s, r)
  {
    var i := |s| - |t|;
    assert t == s[i..];
    assert r == s[i..i + |r|] && s[i + |r|..] == t[|r|..];
  }

  lemma TrimKeepsOut(s: string, c: char)
    requires c !in s
    ensures c !in Trim(s)
  {
  }

  lemma TrimIdempotent(s: string)
    ensures Trim(Trim(s)) == Trim(s)
  {
  }

  // ---------------------------------------------------------------------------
  // split / join

  /** `s.split(sep)` where the separator is one character chosen by `isSep`. */
  function Split(s: string, isSep: char -> bool): (r: seq<string>)
    ensures |r| >= 1
    ensures forall k, c :: 0 <= k < |r| && c in r[k] ==> !isSep(c)
    ensures forall k, c :: 0 <= k < |r| && c in r[k] ==> c in s
  {
    if |s| == 0 then [""]
    else
      var rest := Split(s[1..], isSep);
      assert forall c :: c in s[1..] ==> c in s;
      if isSep(s[0]) then [""] + rest
      else [[s[0]] + rest[0]] + rest[1..]
  }

  /** `xs.join(sep)`. */
  function Join(xs: seq<string>, sep: string): string {
    if |xs| == 0 then ""
    else if |xs| == 1 then xs[0]
    else xs[0] + sep + Join(xs[1..], sep)
  }

  /** The text before the first `@` (`String(s).split('@')[0]`). */
  function LocalPart(s: string): (r: string)
    ensures '@' !in r
    ensures r <= s
    ensures '@' !in s ==> r == s
    ensures '@' in s ==> |r| < |s| && s[|r|] == '@'
  {
    SplitHeadIsPrefix(s, IsAt);
    var r := Split(s, IsAt)[0];
    assert '@' in r ==> !IsAt('@');
    assert '@' !in s ==> r == s by {
      if '@' !in s { SplitNoSeparator(s, IsAt); }
    }
    assert '@' in s ==> |r| < |s| && s[|r|] == '@' by {
      if '@' in s { SplitHeadStops(s, IsAt); }
    }
    r
  }

  lemma SplitHeadIsPrefix(s: string, isSep: char -> bool)
    ensures Split(s, isSep)[0] <= s
  {
  }

  /** With a separator in the text, the first piece ends just before the first one. */
  lemma {:induction false} SplitHeadStops(s: string, isSep: char -> bool)
    requires exists k :: 0 <= k < |s| && isSep(s[k])
    ensures |Split(s, isSep)[0]| < |s| && isSep(s[|Split(s, isSep)[0]|])
  {
    if !isSep(s[0]) {
      var k :| 0 <= k < |s| && isSep(s[k]);
      assert s[1..][k - 1] == s[k];
      SplitHeadStops(s[1..], isSep);
    }
  }

  lemma SplitNoSeparator(s: string, isSep: char -> bool)
    requires forall c :: c in s ==> !isSep(c)
    ensures Split(s, isSep) == [s]
  {
    if |s| > 0 {
      assert forall c :: c in s[1..] ==> c in s;
      SplitNoSeparator(s[1..], isSep);
      assert s == [s[0]] + s[1..];
    }
  }

  /** Splitting around one separator character splits each side independently. */
  lemma {:induction false} SplitAround(a: string, sep: char, b: string, isSep: char -> bool)
    requires isSep(sep)
    ensures Split(a + [sep] + b, isSep) == Split(a, isSep) + Split(b, isSep)
  {
    if |a| == 0 {
      assert a + [sep] + b == [sep] + b;
      assert ([sep] + b)[1..] == b;
    } else {
      assert (a + [sep] + b)[1..] == a[1..] + [sep] + b;
      SplitAround(a[1..], sep, b, isSep);
    }
  }

  /** Joining the pieces of a split with the separator gives the text back. */
  lemma {:induction false} JoinSplit(s: string)
    ensures Join(Split(s, IsNewline), "\n") == s
  {
    if |s| > 0 {
      var rest := Split(s[1..], IsNewline);
      JoinSplit(s[1..]);
      if IsNewline(s[0]) {
        assert Split(s, IsNewline) == [""] + rest;
        assert ([""] + rest)[1..] == rest;
        assert s == "\n" + s[1..];
      } else {
        var r := Split(s, IsNewline);
        assert r == [[s[0]] + rest[0]] + rest[1..];
        if |rest| == 1 {
          assert r == [[s[0]] + rest[0]];
        } else {
          assert r[1..] == rest[1..];
          assert Join(rest, "\n") == rest[0] + "\n" + Join(rest[1..], "\n");
        }
      }
    }
  }

  /** Splitting the join of separator-free pieces gives the pieces back. */
  lemma {:induction false} SplitJoin(xs: seq<string>)
    requires |xs| >= 1
    requires forall k :: 0 <= k < |xs| ==> '\n' !in xs[k]
    ensures Split(Join(xs, "\n"), IsNewline) == xs
  {
    SplitNoSeparator(xs[0], IsNewline);
    if |xs| > 1 {
      SplitJoin(xs[1..]);
      SplitAround(xs[0], '\n', Join(xs[1..], "\n"), IsNewline);
      assert Join(xs, "\n") == xs[0] + ['\n'] + Join(xs[1..], "\n");
      assert xs == [xs[0]] + xs[1..];
    }
  }

  lemma JoinHasNoChar(xs: seq<string>, sep: string, c: char)
    requires c !in sep
    requires forall k :: 0 <= k < |xs| ==> c !in xs[k]
    ensures c !in Join(xs, sep)
  {
    if |xs| > 1 {
      JoinHasNoChar(xs[1..], sep, c);
    }
  }

  // ---------------------------------------------------------------------------
  // includes / startsWith

  predicate StartsAt(s: string, p: string, i: nat) {
    i + |p| <= |s| && s[i..i + |p|] == p
  }

  /** `s.includes(p)`. */
  predicate Contains(s: string, p: string) {
    exists i: nat | i <= |s| :: StartsAt(s, p, i)
  }

  lemma ContainsShorterPrefix(s: string, p: string, q: string)
    requires q <= p && Contains(s, p)
    ensures Contains(s, q)
  {
    var i: nat :| i <= |s| && StartsAt(s, p, i);
    assert s[i..i + |q|] == s[i..i + |p|][..|q|];
    assert StartsAt(s, q, i);
  }

  lemma ContainsAt(s: string, p: string, i: nat)
    requires StartsAt(s, p, i)
    ensures Contains(s, p)
  {
  }

  // ---------------------------------------------------------------------------
  // case mapping (ASCII letters only)

  function LowerChar(c: char): char {
    if 'A' <= c <= 'Z' then (c as int + 32) as char else c
  }

  function UpperChar(c: char): char {
    if 'a' <= c <= 'z' then (c as int - 32) as char else c
  }

  predicate IsAsciiLetter(c: char) {
    ('a' <= c <= 'z') || ('A' <= c <= 'Z')
  }

  function ToLower(s: string): (r: string)
    ensures |r| == |s|
    ensures forall i :: 0 <= i < |s| ==> r[i] == LowerChar(s[i])
  {
    if |s| == 0 then "" else [LowerChar(s[0])] + ToLower(s[1..])
  }

  function ToUpper(s: string): (r: string)
    ensures |r| == |s|
    ensures forall i :: 0 <= i < |s| ==> r[i] == UpperChar(s[i])
  {
    if |s| == 0 then "" else [UpperChar(s[0])] + ToUpper(s[1..])
  }

  // ---------------------------------------------------------------------------
  // code-point order, as used by MongoDB's string sort

  predicate StrLe(a: string, b: string) {
    |a| == 0 || (|b| > 0 && (a[0] < b[0] || (a[0] == b[0] && StrLe(a[1..], b[1..]))))
  }

  lemma StrLeTotal(a: string, b: string)
    ensures StrLe(a, b) || StrLe(b, a)
  {
  }

  lemma StrLeTransitive(a: string, b: string, c: string)
    requires StrLe(a, b) && StrLe(b, c)
    ensures StrLe(a, c)
  {
  }

  lemma StrLeAntisymmetric(a: string, b: string)
    requires StrLe(a, b) && StrLe(b, a)
    ensures a == b
  {
    if |a| > 0 && |b| > 0 {
      StrLeAntisymmetric(a[1..], b[1..]);
      assert a == [a[0]] + a[1..] && b == [b[0]] + b[1..];
    }
  }

  // ---------------------------------------------------------------------------
  // list helpers

  /** `xs.map(s => s.trim())`. */
  function TrimAll(xs: seq<string>): (r: seq<string>)
    ensures |r| == |xs|
    ensures forall k :: 0 <= k < |xs| ==> r[k] == Trim(xs[k])
  {
    if |xs| == 0 then [] else [Trim(xs[0])] + TrimAll(xs[1..])
  }

  /** `xs.filter(s => s.length > 0)`, also written `filter(Boolean)`. */
  function DropEmpty(xs: seq<string>): (r: seq<string>)
    ensures |r| <= |xs|
    ensures forall k :: 0 <= k < |r| ==> r[k] != ""
    ensures forall k :: 0 <= k < |r| ==> r[k] in xs
  {
    if |xs| == 0 then []
    else if xs[0] == "" then DropEmpty(xs[1..])
    else [xs[0]] + DropEmpty(xs[1..])
  }

  lemma {:induction false} TrimAllAppend(a: seq<string>, b: seq<string>)
    ensures TrimAll(a + b) == TrimAll(a) + TrimAll(b)
  {
    if |a| > 0 {
      assert (a + b)[1..] == a[1..] + b;
      TrimAllAppend(a[1..], b);
    } else {
      assert a + b == b;
    }
  }

  lemma {:induction false} DropEmptyAppend(a: seq<string>, b: seq<string>)
    ensures DropEmpty(a + b) == DropEmpty(a) + DropEmpty(b)
  {
    if |a| > 0 {
      assert (a + b)[1..] == a[1..] + b;
      DropEmptyAppend(a[1..], b);
    } else {
      assert a + b == b;
    }
  }

  lemma TrimAllKeepsTrimmed(xs: seq<string>)
    requires forall k :: 0 <= k < |xs| ==> Trim(xs[k]) == xs[k]
    ensures TrimAll(xs) == xs
  {
  }

  lemma DropEmptyKeepsNonEmpty(xs: seq<string>)
    requires forall k :: 0 <= k < |xs| ==> xs[k] != ""
    ensures DropEmpty(xs) == xs
  {
  }
}
