/**
 * The JavaScript string and number built-ins the application relies on,
 * restated over `string` (a sequence of `char`).  Only ASCII letters are
 * case-folded; `Number()` is modelled on integer text.
 */
module JsText {

  /** `toLowerCase` on one character (ASCII letters only). */
  function LowerChar(c: char): char {
    if 'A' <= c <= 'Z' then (c as int + 32) as char else c
  }

  /** `s.toLowerCase()`. */
  function Lower(s: string): (r: string)
    ensures |r| == |s|
    ensures forall i :: 0 <= i < |s| ==> r[i] == LowerChar(s[i])
  {
    if s == [] then [] else [LowerChar(s[0])] + Lower(s[1..])
  }

  lemma LowerConcat(a: string, b: string)
    ensures Lower(a + b) == Lower(a) + Lower(b)
  {
    var ab := a + b;
    var l, la, lb := Lower(ab), Lower(a), Lower(b);
    var r := la + lb;
    forall i | 0 <= i < |ab|
      ensures l[i] == r[i]
    {
      if i < |a| {
        assert ab[i] == a[i] && r[i] == la[i];
      } else {
        assert ab[i] == b[i - |a|] && r[i] == lb[i - |a|];
      }
    }
  }

  /** Lower-casing twice is lower-casing once. */
  lemma LowerIdempotent(s: string)
    ensures Lower(Lower(s)) == Lower(s)
  {
    forall i | 0 <= i < |s|
      ensures Lower(Lower(s))[i] == Lower(s)[i]
    {
      assert LowerChar(LowerChar(s[i])) == LowerChar(s[i]);
    }
  }

  /** The characters `trim` removes: ECMAScript WhiteSpace and LineTerminator. */
  const Spaces: set<char> := {' ', '\t', '\n', '\U{0B}', '\U{0C}', '\r', '\U{A0}', '\U{FEFF}', '\U{1680}',
    '\U{2000}', '\U{2001}', '\U{2002}', '\U{2003}', '\U{2004}', '\U{2005}', '\U{2006}', '\U{2007}',
    '\U{2008}', '\U{2009}', '\U{200A}', '\U{2028}', '\U{2029}', '\U{202F}', '\U{205F}', '\U{3000}'}

  predicate IsSpace(c: char) {
    c in Spaces
  }

  function TrimStart(s: string): (r: string)
    ensures |r| <= |s|
  {
    if s != [] && IsSpace(s[0]) then TrimStart(s[1..]) else s
  }

  function TrimEnd(s: string): (r: string)
    ensures |r| <= |s|
  {
    if s != [] && IsSpace(s[|s| - 1]) then TrimEnd(s[..|s| - 1]) else s
  }

  /** `s.trim()`: the text between the leading and the trailing white space. */
  function Trim(s: string): (r: string)
    ensures |r| <= |s|
  {
    TrimEnd(TrimStart(s))
  }

  /** `trimStart` removes exactly the leading white space. */
  lemma {:induction false} TrimStartShape(s: string)
    ensures TrimStart(s) == s[|s| - |TrimStart(s)|..]
    ensures forall i :: 0 <= i < |s| - |TrimStart(s)| ==> IsSpace(s[i])
    ensures TrimStart(s) == [] || !IsSpace(TrimStart(s)[0])
    decreases |s|
  {
    if s != [] && IsSpace(s[0]) {
      TrimStartShape(s[1..]);
    }
  }

  /** `trimEnd` removes exactly the trailing white space. */
  lemma {:induction false} TrimEndShape(s: string)
    ensures TrimEnd(s) == s[..|TrimEnd(s)|]
    ensures forall i :: |TrimEnd(s)| <= i < |s| ==> IsSpace(s[i])
    ensures TrimEnd(s) == [] || !IsSpace(TrimEnd(s)[|TrimEnd(s)| - 1])
    decreases |s|
  {
    if s != [] && IsSpace(s[|s| - 1]) {
      TrimEndShape(s[..|s| - 1]);
    }
  }

  /** The trimmed text neither starts nor ends with white space. */
  lemma TrimEnds(s: string)
    ensures Trim(s) == [] || (!IsSpace(Trim(s)[0]) && !IsSpace(Trim(s)[|Trim(s)| - 1]))
  {
    var t := TrimStart(s);
    TrimStartShape(s);
    TrimEndShape(t);
    if Trim(s) != [] {
      assert Trim(s) == t[..|Trim(s)|];
      assert Trim(s)[0] == t[0];
    }
  }

  /** Trimming twice is trimming once. */
  lemma TrimIdempotent(s: string)
    ensures Trim(Trim(s)) == Trim(s)
  {
    TrimEnds(s);
  }

  /** The trimmed text is a piece of the original, starting at `a`. */
  lemma TrimSlice(s: string) returns (a: nat)
    ensures a + |Trim(s)| <= |s| && Trim(s) == s[a..a + |Trim(s)|]
  {
    var t := TrimStart(s);
    TrimStartShape(s);
    TrimEndShape(t);
    a := |s| - |t|;
  }

  /** Text without white space is its own trim. */
  lemma TrimNoSpace(s: string)
    requires forall i :: 0 <= i < |s| ==> !IsSpace(s[i])
    ensures Trim(s) == s
  {
  }

  predicate IsPrefix(p: string, s: string) {
    |p| <= |s| && s[..|p|] == p
  }

  /** `hay.includes(needle)`, equivalently `hay.indexOf(needle) !== -1`. */
  predicate Contains(hay: string, needle: string) {
    exists i :: 0 <= i <= |hay| - |needle| && IsPrefix(needle, hay[i..])
  }

  lemma ContainsInLeft(a: string, b: string, n: string)
    requires Contains(a, n)
    ensures Contains(a + b, n)
  {
    var i :| 0 <= i <= |a| - |n| && IsPrefix(n, a[i..]);
    assert (a + b)[i..][..|n|] == a[i..][..|n|];
  }

  lemma ContainsInRight(a: string, b: string, n: string)
    requires Contains(b, n)
    ensures Contains(a + b, n)
  {
    var i :| 0 <= i <= |b| - |n| && IsPrefix(n, b[i..]);
    assert (a + b)[i + |a|..][..|n|] == b[i..][..|n|];
  }

  /** Every text contains itself. */
  lemma ContainsSelf(s: string)
    ensures Contains(s, s)
  {
    assert IsPrefix(s, s[0..]);
  }

  /** `parts.join(sep)`. */
  function Join(parts: seq<string>, sep: string): (r: string)
    ensures parts == [] ==> r == ""
  {
    if parts == [] then ""
    else if |parts| == 1 then parts[0]
    else parts[0] + sep + Join(parts[1..], sep)
  }

  /** A part of a joined text is contained in it. */
  lemma {:induction false} JoinContainsPart(parts: seq<string>, sep: string, k: nat, n: string)
    requires k < |parts| && Contains(parts[k], n)
    ensures Contains(Join(parts, sep), n)
    decreases |parts|
  {
    if |parts| == 1 {
    } else if k == 0 {
      ContainsInLeft(parts[0], sep + Join(parts[1..], sep), n);
      assert parts[0] + sep + Join(parts[1..], sep) == parts[0] + (sep + Join(parts[1..], sep));
    } else {
      JoinContainsPart(parts[1..], sep, k - 1, n);
      ContainsInRight(parts[0] + sep, Join(parts[1..], sep), n);
    }
  }

  /** The same for a joined text that is lower-cased afterwards. */
  lemma {:induction false} LowerJoinContainsPart(parts: seq<string>, sep: string, k: nat, n: string)
    requires k < |parts| && Contains(Lower(parts[k]), n)
    ensures Contains(Lower(Join(parts, sep)), n)
    decreases |parts|
  {
    if |parts| == 1 {
    } else if k == 0 {
      var rest := sep + Join(parts[1..], sep);
      assert parts[0] + sep + Join(parts[1..], sep) == parts[0] + rest;
      LowerConcat(parts[0], rest);
      ContainsInLeft(Lower(parts[0]), Lower(rest), n);
    } else {
      LowerJoinContainsPart(parts[1..], sep, k - 1, n);
      LowerConcat(parts[0] + sep, Join(parts[1..], sep));
      ContainsInRight(Lower(parts[0] + sep), Lower(Join(parts[1..], sep)), n);
    }
  }

  /** `s.split(c)` for a one-character separator. */
  function Split(s: string, c: char): (r: seq<string>)
    ensures |r| >= 1
    decreases |s|
  {
    if s == [] then [""]
    else
      var rest := Split(s[1..], c);
      if s[0] == c then [""] + rest
      else [[s[0]] + rest[0]] + rest[1..]
  }

  /** Joining the pieces of a split with the separator gives the text back. */
  lemma {:induction false} JoinSplit(s: string, c: char)
    ensures Join(Split(s, c), [c]) == s
    decreases |s|
  {
    if s != [] {
      var rest := Split(s[1..], c);
      JoinSplit(s[1..], c);
      if s[0] == c {
        assert Split(s, c) == [""] + rest;
        assert ([""] + rest)[1..] == rest;
      } else {
        var r := [[s[0]] + rest[0]] + rest[1..];
        assert Split(s, c) == r;
        if |rest| == 1 {
          assert Join(r, [c]) == [s[0]] + rest[0];
        } else {
          assert r[1..] == rest[1..];
          assert Join(r, [c]) == [s[0]] + rest[0] + [c] + Join(rest[1..], [c]);
        }
      }
    }
  }

  /** No piece of a split holds the separator. */
  lemma {:induction false} SplitPiecesLackSeparator(s: string, c: char)
    ensures forall k, i :: 0 <= k < |Split(s, c)| && 0 <= i < |Split(s, c)[k]| ==> Split(s, c)[k][i] != c
    decreases |s|
  {
    if s != [] {
      SplitPiecesLackSeparator(s[1..], c);
      var rest := Split(s[1..], c);
      if s[0] != c {
        var r := [[s[0]] + rest[0]] + rest[1..];
        assert Split(s, c) == r;
        forall k, i | 0 <= k < |r| && 0 <= i < |r[k]| ensures r[k][i] != c {
          if k == 0 {
            if i > 0 { assert r[0][i] == rest[0][i - 1]; }
          } else {
            assert r[k] == rest[k];
          }
        }
      } else {
        assert Split(s, c) == [""] + rest;
        forall k, i | 1 <= k < |Split(s, c)| && 0 <= i < |Split(s, c)[k]| ensures Split(s, c)[k][i] != c {
          assert Split(s, c)[k] == rest[k - 1];
        }
      }
    }
  }

  /** A text without the separator splits into itself alone. */
  lemma {:induction false} SplitWithout(s: string, c: char)
    requires forall i :: 0 <= i < |s| ==> s[i] != c
    ensures Split(s, c) == [s]
    decreases |s|
  {
    if s != [] {
      SplitWithout(s[1..], c);
      assert [s[0]] + s[1..] == s;
    }
  }

  /** Splitting at the first separator: the text before it is the first piece. */
  lemma {:induction false} SplitAtFirst(a: string, c: char, b: string)
    requires forall i :: 0 <= i < |a| ==> a[i] != c
    ensures Split(a + [c] + b, c) == [a] + Split(b, c)
    decreases |a|
  {
    var s := a + [c] + b;
    if a == [] {
      assert s[1..] == b;
    } else {
      assert s[1..] == a[1..] + [c] + b;
      SplitAtFirst(a[1..], c, b);
      assert [a[0]] + a[1..] == a;
    }
  }

  /** Splitting pieces joined with a separator none of them holds gives the
      pieces back. */
  lemma {:induction false} SplitJoin(parts: seq<string>, c: char)
    requires |parts| >= 1
    requires forall k, i :: 0 <= k < |parts| && 0 <= i < |parts[k]| ==> parts[k][i] != c
    ensures Split(Join(parts, [c]), c) == parts
    decreases |parts|
  {
    if |parts| == 1 {
      SplitWithout(parts[0], c);
    } else {
      SplitJoin(parts[1..], c);
      assert Join(parts, [c]) == parts[0] + [c] + Join(parts[1..], [c]);
      SplitAtFirst(parts[0], c, Join(parts[1..], [c]));
      assert [parts[0]] + parts[1..] == parts;
    }
  }

  /** `s.startsWith(p)`. */
  predicate StartsWith(s: string, p: string) {
    IsPrefix(p, s)
  }

  /** `s.slice(0, n)` for `n >= 0`. */
  function Take(s: string, n: nat): (r: string)
    ensures |r| == if n < |s| then n else |s|
    ensures IsPrefix(r, s)
  {
    if n < |s| then s[..n] else s
  }

  /** `s.padStart(n, c)`. */
  function PadStart(s: string, n: nat, c: char): (r: string)
    ensures |r| == if |s| < n then n else |s|
    ensures r[|r| - |s|..] == s
    decreases n - |s|
  {
    if |s| < n then PadStart([c] + s, n, c) else s
  }

  predicate IsDigit(c: char) {
    '0' <= c <= '9'
  }

  function DigitChar(d: nat): (c: char)
    requires d < 10
    ensures IsDigit(c)
  {
    ('0' as int + d) as char
  }

  function DigitValue(c: char): nat
    requires IsDigit(c)
  {
    c as int - '0' as int
  }

  predicate AllDigits(s: string) {
    forall i :: 0 <= i < |s| ==> IsDigit(s[i])
  }

  /** The value of a run of decimal digits. */
  function DigitsValue(s: string): nat
    requires AllDigits(s)
    decreases |s|
  {
    if s == [] then 0 else DigitsValue(s[..|s| - 1]) * 10 + DigitValue(s[|s| - 1])
  }

  /** `String(n)` for a non-negative integer. */
  function NatToString(n: nat): (r: string)
    ensures |r| >= 1 && AllDigits(r)
    decreases n
  {
    if n < 10 then [DigitChar(n)] else NatToString(n / 10) + [DigitChar(n % 10)]
  }

  /** Reading back the decimal text of a number gives the number. */
  lemma {:induction false} DigitsOfNatToString(n: nat)
    ensures DigitsValue(NatToString(n)) == n
    decreases n
  {
    if n >= 10 {
      DigitsOfNatToString(n / 10);
      var r := NatToString(n);
      assert r[..|r| - 1] == NatToString(n / 10);
    }
  }

  /** `String(i)` for an integer. */
  function IntToString(i: int): (r: string)
    ensures |r| >= 1
  {
    if i < 0 then "-" + NatToString(-i) else NatToString(i)
  }

  /** The result of `Number(x)`: an integer or `NaN`. */
  datatype Num = NaN | Val(v: int)

  /** `Number(s)` on text: surrounding white space is ignored, empty text is 0,
      an optionally signed run of digits is its value, anything else is NaN. */
  function JsNumber(s: string): (r: Num)
    ensures Trim(s) == "" ==> r == Val(0)
  {
    var t := Trim(s);
    if t == "" then Val(0) else IntegerText(t)
  }

  /** The value of non-empty text holding an optional sign and at least one digit. */
  function IntegerText(t: string): (r: Num)
    requires t != ""
    ensures r.Val? ==> exists i :: 0 <= i < |t| && IsDigit(t[i])
  {
    if (t[0] == '-' || t[0] == '+') && |t| > 1 && AllDigits(t[1..]) then
      assert IsDigit(t[1..][0]);
      var v := DigitsValue(t[1..]);
      if t[0] == '-' then Val(0 - v) else Val(v)
    else if AllDigits(t) then Val(DigitsValue(t))
    else NaN
  }

  /** No digit, sign or separator a time or a number is written with is white space. */
  lemma NotSpace(c: char)
    requires IsDigit(c) || c == '-' || c == '+' || c == ':'
    ensures !IsSpace(c)
  {
  }

  lemma NoSpaceInDigits(s: string)
    requires AllDigits(s)
    ensures forall k :: 0 <= k < |s| ==> !IsSpace(s[k])
  {
    forall k | 0 <= k < |s| ensures !IsSpace(s[k]) {
      NotSpace(s[k]);
    }
  }

  lemma JsNumberOfNatToString(n: nat)
    ensures JsNumber(NatToString(n)) == Val(n)
  {
    var s := NatToString(n);
    NoSpaceInDigits(s);
    TrimNoSpace(s);
    assert IsDigit(s[0]);
    DigitsOfNatToString(n);
  }

  /** A leading zero does not change the value of a run of digits. */
  lemma {:induction false} DigitsLeadingZero(s: string)
    requires AllDigits(s)
    ensures AllDigits("0" + s) && DigitsValue("0" + s) == DigitsValue(s)
    decreases |s|
  {
    var t := "0" + s;
    if s != [] {
      assert t[..|t| - 1] == "0" + s[..|s| - 1];
      DigitsLeadingZero(s[..|s| - 1]);
    }
  }

  /** `Number(String(n).padStart(2, '0')) === n`. */
  lemma JsNumberOfPadded(n: nat)
    ensures JsNumber(PadStart(NatToString(n), 2, '0')) == Val(n)
  {
    var d := NatToString(n);
    if |d| < 2 {
      assert PadStart(d, 2, '0') == "0" + d;
      DigitsLeadingZero(d);
      DigitsOfNatToString(n);
      var t := "0" + d;
      NoSpaceInDigits(t);
      TrimNoSpace(t);
      assert IsDigit(t[0]);
    } else {
      JsNumberOfNatToString(n);
    }
  }

  lemma JsNumberOfSignedDigits(d: string)
    requires |d| >= 1 && AllDigits(d)
    ensures JsNumber("-" + d) == Val(0 - DigitsValue(d))
  {
    var s := "-" + d;
    NoSpaceInDigits(d);
    NotSpace('-');
    assert forall k :: 1 <= k < |s| ==> s[k] == d[k - 1];
    TrimNoSpace(s);
    assert s[1..] == d;
    assert IntegerText(s) == Val(0 - DigitsValue(d));
  }

  /** `Number(String(i)) === i`. */
  lemma JsNumberOfIntToString(i: int)
    ensures JsNumber(IntToString(i)) == Val(i)
  {
    if i < 0 {
      var d := NatToString(-i);
      JsNumberOfSignedDigits(d);
      DigitsOfNatToString(-i);
      calc {
        JsNumber(IntToString(i));
        JsNumber("-" + d);
        Val(0 - DigitsValue(d));
      }
    } else {
      var n: nat := i;
      JsNumberOfNatToString(n);
      assert IntToString(i) == NatToString(n);
    }
  }

  /** `a < b` on strings: lexicographic order of the characters. */
  predicate LexLess(a: string, b: string)
    decreases |a|
  {
    |b| > 0 && (|a| == 0 || a[0] < b[0] || (a[0] == b[0] && LexLess(a[1..], b[1..])))
  }

  /** `a <= b` on strings. */
  predicate LexLe(a: string, b: string) {
    !LexLess(b, a)
  }

  lemma {:induction false} LexLessIrreflexive(a: string)
    ensures !LexLess(a, a)
    decreases |a|
  {
    if |a| > 0 {
      LexLessIrreflexive(a[1..]);
    }
  }

  lemma {:induction false} LexLessAsymmetric(a: string, b: string)
    ensures !(LexLess(a, b) && LexLess(b, a))
    decreases |a|
  {
    if |a| > 0 && |b| > 0 && a[0] == b[0] {
      LexLessAsymmetric(a[1..], b[1..]);
    }
  }

  lemma {:induction false} LexLessTransitive(a: string, b: string, c: string)
    requires LexLess(a, b) && LexLess(b, c)
    ensures LexLess(a, c)
    decreases |a|
  {
    if |a| > 0 && a[0] == b[0] && b[0] == c[0] {
      LexLessTransitive(a[1..], b[1..], c[1..]);
    }
  }

  lemma {:induction false} LexLessTotal(a: string, b: string)
    ensures a == b || LexLess(a, b) || LexLess(b, a)
    decreases |a|
  {
    if |a| > 0 && |b| > 0 && a[0] == b[0] {
      LexLessTotal(a[1..], b[1..]);
      if a[1..] == b[1..] {
        assert a == [a[0]] + a[1..] && b == [b[0]] + b[1..];
      }
    }
  }

  /** `<=` on strings is a total preorder (in fact a total order). */
  lemma LexLeTotalPreorder()
    ensures forall a, b :: LexLe(a, b) || LexLe(b, a)
    ensures forall a, b, c :: LexLe(a, b) && LexLe(b, c) ==> LexLe(a, c)
  {
    forall a, b
      ensures LexLe(a, b) || LexLe(b, a)
    {
      LexLessAsymmetric(a, b);
    }
    forall a, b, c | LexLe(a, b) && LexLe(b, c)
      ensures LexLe(a, c)
    {
      LexLessTotal(a, b);
      LexLessTotal(b, c);
      if a != b && b != c {
        LexLessTransitive(a, b, c);
        LexLessAsymmetric(a, c);
      }
    }
  }
}
