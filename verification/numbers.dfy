/** Reading a grade string as a number, as the progress views do:
    `Number(String(grade).replace(/[^0-9.]/g, ''))`, then averaging and taking
    the best of the values that are not NaN. */
module Numbers {
  import opened Wrappers
  import Patterns
  import Seqs

  /** The characters the strip keeps: `[0-9.]`. */
  predicate IsGradeChar(c: char) {
    Patterns.IsDigit(c) || c == '.'
  }

  predicate IsGradeText(s: string) {
    forall k :: 0 <= k < |s| ==> IsGradeChar(s[k])
  }

  /** Removes every character outside `[0-9.]`, keeping the others in order. */
  function StripGrade(s: string): (r: string)
    ensures IsGradeText(r)
    ensures |r| <= |s|
    ensures forall c :: c in r <==> c in s && IsGradeChar(c)
  {
    if |s| == 0 then ""
    else (if IsGradeChar(s[0]) then [s[0]] else []) + StripGrade(s[1..])
  }

  /** Text that is already stripped is left alone, so stripping is idempotent. */
  lemma {:induction false} StripKeepsGradeText(s: string)
    requires IsGradeText(s)
    ensures StripGrade(s) == s
  {
    if |s| > 0 {
      StripKeepsGradeText(s[1..]);
    }
  }

  /** Text without grade characters strips to nothing. */
  lemma {:induction false} StripDropsOthers(s: string)
    requires forall k :: 0 <= k < |s| ==> !IsGradeChar(s[k])
    ensures StripGrade(s) == ""
  {
    if |s| > 0 {
      StripDropsOthers(s[1..]);
    }
  }

  /** Stripping works character by character. */
  lemma {:induction false} StripAppend(a: string, b: string)
    ensures StripGrade(a + b) == StripGrade(a) + StripGrade(b)
  {
    if |a| == 0 {
      assert a + b == b;
    } else {
      assert (a + b)[1..] == a[1..] + b;
      StripAppend(a[1..], b);
    }
  }

  // ---------------------------------------------------------------- Number()

  /** A JavaScript number produced from a grade: a non-negative value or NaN. */
  datatype Num = NaN | Val(x: real)

  predicate IsDigitText(d: string) {
    forall k :: 0 <= k < |d| ==> Patterns.IsDigit(d[k])
  }

  /** The value of a run of decimal digits; the empty run is 0. */
  function DigitsValue(d: string): nat
    requires IsDigitText(d)
  {
    if |d| == 0 then 0 else 10 * DigitsValue(d[..|d| - 1]) + (d[|d| - 1] as int - '0' as int)
  }

  function Pow10(n: nat): (r: nat)
    ensures r >= 1
  {
    if n == 0 then 1 else 10 * Pow10(n - 1)
  }

  function DotCount(s: string): nat {
    if |s| == 0 then 0 else (if s[0] == '.' then 1 else 0) + DotCount(s[1..])
  }

  lemma {:induction false} DotCountAppend(a: string, b: string)
    ensures DotCount(a + b) == DotCount(a) + DotCount(b)
  {
    if |a| == 0 {
      assert a + b == b;
    } else {
      assert (a + b)[1..] == a[1..] + b;
      DotCountAppend(a[1..], b);
    }
  }

  lemma {:induction false} NoDotIsDigitText(s: string)
    requires IsGradeText(s) && DotCount(s) == 0
    ensures IsDigitText(s)
  {
    if |s| > 0 {
      NoDotIsDigitText(s[1..]);
    }
  }

  /** The first dot of `s`, if any. */
  function FirstDot(s: string): (r: Option<nat>)
    ensures r.None? <==> DotCount(s) == 0
    ensures r.Some? ==> r.value < |s| && s[r.value] == '.' && DotCount(s[..r.value]) == 0
  {
    if |s| == 0 then None
    else if s[0] == '.' then
      assert s[..0] == "";
      Some(0)
    else match FirstDot(s[1..])
      case None => None
      case Some(i) =>
        assert s[..i + 1] == [s[0]] + s[1..][..i];
        DotCountAppend([s[0]], s[1..][..i]);
        Some(i + 1)
  }

  /** `Number(s)` for a string of digits and dots. Such a string is a decimal
      literal (ECMA-262, section 7.1.4.1.1, StringToNumber) exactly when it holds
      at most one dot and is not the lone dot; either side of the dot may be
      empty, and the empty string reads as 0. */
  function NumberOf(s: string): (r: Num)
    requires IsGradeText(s)
    ensures r.NaN? <==> DotCount(s) > 1 || s == "."
    ensures r.Val? ==> r.x >= 0.0
    ensures DotCount(s) == 0 ==> IsDigitText(s) && r == Val(DigitsValue(s) as real)
  {
    match FirstDot(s)
    case None =>
      NoDotIsDigitText(s);
      Val(DigitsValue(s) as real)
    case Some(i) =>
      DotSplit(s, i);
      var whole := s[..i];
      var frac := s[i + 1..];
      if DotCount(frac) > 0 || |s| == 1 then NaN
      else
        NoDotIsDigitText(frac);
        Val(DigitsValue(whole) as real + DigitsValue(frac) as real / Pow10(|frac|) as real)
  }

  /** Cutting a digits-and-dots text at its first dot. */
  lemma DotSplit(s: string, i: nat)
    requires IsGradeText(s) && FirstDot(s) == Some(i)
    ensures i < |s| && IsDigitText(s[..i]) && IsGradeText(s[i + 1..])
    ensures DotCount(s) == 1 + DotCount(s[i + 1..])
    ensures s == "." <==> |s| == 1
  {
    var whole := s[..i];
    var frac := s[i + 1..];
    assert s == whole + ['.'] + frac;
    DotCountAppend(whole + ['.'], frac);
    DotCountAppend(whole, ['.']);
    assert IsGradeText(whole) && IsGradeText(frac);
    NoDotIsDigitText(whole);
  }

  /** A grade's numeric reading. */
  function GradeNumber(grade: string): Num {
    NumberOf(StripGrade(grade))
  }

  // ---------------------------------------------------- round trip with decimals

  function DigitChar(n: nat): (c: char)
    requires n < 10
    ensures Patterns.IsDigit(c) && c as int - '0' as int == n
  {
    ('0' as int + n) as char
  }

  /** The decimal text of a natural number, as `String(n)` writes it. */
  function NatText(n: nat): (r: string)
    ensures |r| > 0 && IsDigitText(r)
  {
    if n < 10 then [DigitChar(n)] else NatText(n / 10) + [DigitChar(n % 10)]
  }

  lemma {:induction false} DigitsOfNatText(n: nat)
    ensures DigitsValue(NatText(n)) == n
  {
    var t := NatText(n);
    if n < 10 {
      assert t[..0] == "";
    } else {
      assert t[..|t| - 1] == NatText(n / 10);
      DigitsOfNatText(n / 10);
    }
  }

  /** Reading back the decimal text of a whole number gives that number. */
  lemma NumberOfNatText(n: nat)
    ensures IsGradeText(NatText(n)) && NumberOf(NatText(n)) == Val(n as real)
  {
    var t := NatText(n);
    assert forall k :: 0 <= k < |t| ==> t[k] != '.';
    ZeroDots(t);
    DigitsOfNatText(n);
  }

  lemma {:induction false} ZeroDots(s: string)
    requires forall k :: 0 <= k < |s| ==> s[k] != '.'
    ensures DotCount(s) == 0
  {
    if |s| > 0 {
      ZeroDots(s[1..]);
    }
  }

  /** A grade written as a whole number followed by other text (a percent sign,
      say) reads as that number. */
  lemma WholeGradeWithSuffix(n: nat, suffix: string)
    requires forall k :: 0 <= k < |suffix| ==> !IsGradeChar(suffix[k])
    ensures GradeNumber(NatText(n) + suffix) == Val(n as real)
  {
    StripAppend(NatText(n), suffix);
    StripKeepsGradeText(NatText(n));
    StripDropsOthers(suffix);
    assert NatText(n) + "" == NatText(n);
    NumberOfNatText(n);
  }

  /** A letter grade has no digits, strips to the empty string and therefore
      counts as 0, not as NaN. */
  lemma LetterGradeIsZero(grade: string)
    requires forall k :: 0 <= k < |grade| ==> !IsGradeChar(grade[k])
    ensures GradeNumber(grade) == Val(0.0)
  {
    StripDropsOthers(grade);
  }

  lemma BPlusIsZero(grade: string)
    requires grade == "B+"
    ensures GradeNumber(grade) == Val(0.0)
  {
    LetterGradeIsZero(grade);
  }

  /** Two dots make the reading NaN, so such a grade is dropped. */
  lemma TwoDotsIsNaN(a: string, b: string, c: string)
    requires IsDigitText(a) && IsDigitText(b) && IsDigitText(c)
    ensures GradeNumber(a + "." + b + "." + c) == NaN
  {
    var s := a + "." + b + "." + c;
    assert IsGradeText(s) by {
      forall k | 0 <= k < |s| ensures IsGradeChar(s[k]) {
        if k < |a| { assert s[k] == a[k]; }
        else if k == |a| { }
        else if k < |a| + 1 + |b| { assert s[k] == b[k - |a| - 1]; }
        else if k == |a| + 1 + |b| { }
        else { assert s[k] == c[k - |a| - 2 - |b|]; }
      }
    }
    StripKeepsGradeText(s);
    DotCountAppend(a + "." + b + ".", c);
    DotCountAppend(a + "." + b, ".");
    DotCountAppend(a + ".", b);
    DotCountAppend(a, ".");
  }

  // ------------------------------------------------------------ numeric grades

  /** A present grade that reads as a number. */
  predicate Reads(g: Option<string>) {
    g.Some? && GradeNumber(g.value).Val?
  }

  /** The value of a grade that reads as a number. */
  function Value(g: Option<string>): real
    requires Reads(g)
  {
    GradeNumber(g.value).x
  }

  /** The values that `read` gives the present grades, dropping NaN, in order. */
  function Readings(grades: seq<Option<string>>, read: string -> Num): (r: seq<real>)
    ensures |r| <= |grades|
    ensures |r| == 0 <==> forall k :: 0 <= k < |grades| ==> grades[k].None? || read(grades[k].value).NaN?
  {
    if |grades| == 0 then []
    else
      var rest := Readings(grades[1..], read);
      assert forall k :: 1 <= k < |grades| ==> grades[k] == grades[1..][k - 1];
      match grades[0]
      case None => rest
      case Some(g) =>
        match read(g)
        case NaN => rest
        case Val(x) => [x] + rest
  }

  /** Every present grade that reads as a number contributes its value. */
  lemma {:induction false} ReadingsKeepReadable(grades: seq<Option<string>>, read: string -> Num, k: nat)
    requires k < |grades| && grades[k].Some? && read(grades[k].value).Val?
    ensures read(grades[k].value).x in Readings(grades, read)
  {
    if k > 0 {
      assert grades[k] == grades[1..][k - 1];
      ReadingsKeepReadable(grades[1..], read, k - 1);
    }
  }

  /** Every listed value is the reading of some present grade. */
  lemma {:induction false} ReadingsFromGrades(grades: seq<Option<string>>, read: string -> Num, x: real)
    requires x in Readings(grades, read)
    ensures exists k :: 0 <= k < |grades| && grades[k].Some? && read(grades[k].value) == Val(x)
  {
    var rest := Readings(grades[1..], read);
    if grades[0].Some? && read(grades[0].value) == Val(x) {
    } else {
      assert x in rest;
      ReadingsFromGrades(grades[1..], read, x);
      var k :| 0 <= k < |grades[1..]| && grades[1..][k].Some? && read(grades[1..][k].value) == Val(x);
      assert grades[k + 1] == grades[1..][k];
    }
  }

  lemma {:induction false} ReadingsNonNegative(grades: seq<Option<string>>, read: string -> Num)
    requires forall g :: read(g).Val? ==> read(g).x >= 0.0
    ensures forall k :: 0 <= k < |Readings(grades, read)| ==> Readings(grades, read)[k] >= 0.0
  {
    if |grades| > 0 {
      ReadingsNonNegative(grades[1..], read);
    }
  }

  /** The present grades that `read` reads as a number. */
  function ReadsWith(read: string -> Num): Option<string> -> bool {
    (g: Option<string>) => g.Some? && read(g.value).Val?
  }

  /** The readings are the values of the readable grades, one each, in order. */
  lemma {:induction false} ReadingsInOrder(grades: seq<Option<string>>, read: string -> Num)
    ensures var r := Readings(grades, read);
      var f := Seqs.Filter(grades, ReadsWith(read));
      |r| == |f| && forall k :: 0 <= k < |r| ==> f[k].Some? && read(f[k].value) == Val(r[k])
  {
    if |grades| > 0 {
      ReadingsInOrder(grades[1..], read);
      var r := Readings(grades, read);
      var rest := Readings(grades[1..], read);
      var f := Seqs.Filter(grades, ReadsWith(read));
      var tail := Seqs.Filter(grades[1..], ReadsWith(read));
      if ReadsWith(read)(grades[0]) {
        assert r == [read(grades[0].value).x] + rest;
        assert f == [grades[0]] + tail;
        forall k | 0 <= k < |r|
          ensures f[k].Some? && read(f[k].value) == Val(r[k])
        {
          if k > 0 {
            assert r[k] == rest[k - 1] && f[k] == tail[k - 1];
          }
        }
      } else {
        assert r == rest;
        assert f == [] + tail;
      }
    }
  }

  lemma GradeNumberNonNegative()
    ensures forall g :: GradeNumber(g).Val? ==> GradeNumber(g).x >= 0.0
  {
    forall g ensures GradeNumber(g).Val? ==> GradeNumber(g).x >= 0.0 {
      var t := StripGrade(g);
      assert IsGradeText(t);
    }
  }

  /** The numeric grades of the progress views: present grades, stripped, read
      with `Number`, NaN dropped. A value is listed exactly when some present
      grade reads as it, and the list is empty exactly when no grade reads. */
  function NumericGrades(grades: seq<Option<string>>): (r: seq<real>)
    ensures |r| <= |grades|
    ensures |r| == |Seqs.Filter(grades, Reads)|
    ensures forall k :: 0 <= k < |r| ==> r[k] == Value(Seqs.Filter(grades, Reads)[k])
    ensures forall k :: 0 <= k < |r| ==> r[k] >= 0.0
    ensures |r| == 0 <==> forall k :: 0 <= k < |grades| ==> grades[k].None? || GradeNumber(grades[k].value).NaN?
    ensures forall x :: x in r <==>
      exists k :: 0 <= k < |grades| && grades[k].Some? && GradeNumber(grades[k].value) == Val(x)
  {
    GradeNumberNonNegative();
    ReadingsNonNegative(grades, GradeNumber);
    ReadingsInOrder(grades, GradeNumber);
    Seqs.FilterAgree(grades, ReadsWith(GradeNumber), Reads);
    var r := Readings(grades, GradeNumber);
    forall x ensures x in r <==>
      exists k :: 0 <= k < |grades| && grades[k].Some? && GradeNumber(grades[k].value) == Val(x)
    {
      if x in r {
        ReadingsFromGrades(grades, GradeNumber, x);
      }
      if exists k :: 0 <= k < |grades| && grades[k].Some? && GradeNumber(grades[k].value) == Val(x) {
        var k :| 0 <= k < |grades| && grades[k].Some? && GradeNumber(grades[k].value) == Val(x);
        ReadingsKeepReadable(grades, GradeNumber, k);
      }
    }
    r
  }

  // ------------------------------------------------------------ average, best

  function Sum(xs: seq<real>): real {
    if |xs| == 0 then 0.0 else xs[0] + Sum(xs[1..])
  }

  /** `m` is the mean of `xs`: `m` times their number is their sum. */
  predicate IsMeanOf(m: real, xs: seq<real>) {
    m * (|xs| as real) == Sum(xs)
  }

  /** `reduce((a, b) => a + b, 0) / length`, or null for no values. */
  function Average(xs: seq<real>): (r: Option<real>)
    ensures r.None? <==> |xs| == 0
    ensures r.Some? ==> IsMeanOf(r.value, xs)
  {
    if |xs| == 0 then None else Some(Sum(xs) / (|xs| as real))
  }

  lemma {:induction false} SumWithin(xs: seq<real>, lo: real, hi: real)
    requires forall k :: 0 <= k < |xs| ==> lo <= xs[k] <= hi
    ensures lo * (|xs| as real) <= Sum(xs) <= hi * (|xs| as real)
  {
    if |xs| > 0 {
      SumWithin(xs[1..], lo, hi);
    }
  }

  lemma ReadingsCons(g: Option<string>, rest: seq<Option<string>>, read: string -> Num, x: real)
    requires g.Some? && read(g.value) == Val(x)
    ensures Readings([g] + rest, read) == [x] + Readings(rest, read)
  {
    assert ([g] + rest)[1..] == rest;
  }

  /** A grade written as `d` followed by "0" reads as ten times the digit. */
  lemma TensGrade(d: nat)
    requires 0 < d < 10
    ensures GradeNumber([DigitChar(d), '0']) == Val((d * 10) as real)
  {
    var t := NatText(d * 10);
    assert (d * 10) / 10 == d && (d * 10) % 10 == 0;
    assert NatText(d) == [DigitChar(d)];
    assert t == [DigitChar(d)] + [DigitChar(0)];
    assert DigitChar(0) == '0';
    WholeGradeWithSuffix(d * 10, "");
    assert t + "" == [DigitChar(d), '0'];
  }

  lemma TwoDigitGrades()
    ensures GradeNumber("90") == Val(90.0) && GradeNumber("80") == Val(80.0)
  {
    TensGrade(9);
    assert [DigitChar(9), '0'] == "90";
    TensGrade(8);
    assert [DigitChar(8), '0'] == "80";
  }

  lemma ExampleReadings(grades: seq<Option<string>>, read: string -> Num)
    requires grades == [Some("90"), Some("80"), Some("80")]
    requires read("90") == Val(90.0) && read("80") == Val(80.0)
    ensures Readings(grades, read) == [90.0, 80.0, 80.0]
  {
    var g3: seq<Option<string>> := [Some("80")];
    var g2 := [Some("80")] + g3;
    ReadingsCons(Some("80"), [], read, 80.0);
    assert [Some("80")] + [] == g3;
    ReadingsCons(Some("80"), g3, read, 80.0);
    ReadingsCons(Some("90"), g2, read, 90.0);
    assert grades == [Some("90")] + g2;
  }

  lemma MeanOfExample()
    ensures Average([90.0, 80.0, 80.0]) == Some(250.0 / 3.0)
  {
    var xs := [90.0, 80.0, 80.0];
    assert xs[1..] == [80.0, 80.0] && xs[1..][1..] == [80.0];
    assert Sum([80.0]) == 80.0;
    assert Sum(xs) == 250.0;
  }

  /** "90", "80" and "80" read as three values whose mean is 250/3. */
  lemma AverageOfThreeGrades()
    ensures NumericGrades([Some("90"), Some("80"), Some("80")]) == [90.0, 80.0, 80.0]
    ensures Average(NumericGrades([Some("90"), Some("80"), Some("80")])) == Some(250.0 / 3.0)
  {
    var grades := [Some("90"), Some("80"), Some("80")];
    TwoDigitGrades();
    ExampleReadings(grades, GradeNumber);
    assert NumericGrades(grades) == Readings(grades, GradeNumber);
    MeanOfExample();
  }

  /** The average lies between any bounds of the values. */
  lemma AverageWithin(xs: seq<real>, lo: real, hi: real)
    requires |xs| > 0
    requires forall k :: 0 <= k < |xs| ==> lo <= xs[k] <= hi
    ensures lo <= Average(xs).value <= hi
  {
    SumWithin(xs, lo, hi);
    var n := |xs| as real;
    var a := Average(xs).value;
    assert IsMeanOf(a, xs);
    assert a * n == Sum(xs);
  }

  /** `Math.max(...xs)`, or null for no values. */
  function Best(xs: seq<real>): (r: Option<real>)
    ensures r.None? <==> |xs| == 0
    ensures r.Some? ==> r.value in xs && forall k :: 0 <= k < |xs| ==> xs[k] <= r.value
  {
    if |xs| == 0 then None
    else match Best(xs[1..])
      case None => Some(xs[0])
      case Some(b) => Some(if xs[0] >= b then xs[0] else b)
  }
}
