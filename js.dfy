/**
 * The few pieces of the JavaScript runtime the gallery manager relies on:
 * `String.prototype.split` with a one-character separator, `parseInt(s, 10)`,
 * the decimal form of a non-negative integer (what `setAttribute` stores for
 * `i + 1`), `toUpperCase` on tag names, and the values a lookup can produce
 * (`null`/`undefined`/`NaN` as `None`, a thrown `TypeError` as `Err`).
 */
module Js {

  datatype Option<+T> = None | Some(value: T)

  /** The only exception the modelled code can raise: reading a property of `null`/`undefined`. */
  datatype JsError = TypeError

  datatype Result<+T> = Ok(value: T) | Err(error: JsError)

  // ---------------------------------------------------------------------------
  // split / join

  /** `s.split(c)`: the pieces of `s` between occurrences of `c`; `"".split(c)` is `[""]`. */
  function Split(s: string, c: char): (r: seq<string>)
    ensures |r| >= 1
    ensures forall i :: 0 <= i < |r| ==> c !in r[i]
  {
    if s == [] then [[]]
    else if s[0] == c then [[]] + Split(s[1..], c)
    else
      var rest := Split(s[1..], c);
      [[s[0]] + rest[0]] + rest[1..]
  }

  /** `ps.join(c)`: the inverse of `Split`. */
  function Join(ps: seq<string>, c: char): string
    requires |ps| >= 1
  {
    if |ps| == 1 then ps[0] else ps[0] + [c] + Join(ps[1..], c)
  }

  lemma {:induction false} JoinSplit(s: string, c: char)
    ensures Join(Split(s, c), c) == s
  {
    if s == [] {
    } else if s[0] == c {
      JoinSplit(s[1..], c);
      assert Split(s, c)[1..] == Split(s[1..], c);
    } else {
      JoinSplit(s[1..], c);
      var rest := Split(s[1..], c);
      var r := Split(s, c);
      if |rest| == 1 {
        assert r == [[s[0]] + rest[0]];
      } else {
        assert r[1..] == rest[1..];
        assert Join(r, c) == [s[0]] + rest[0] + [c] + Join(rest[1..], c);
      }
    }
  }

  /** A piece free of the separator, followed by the separator, splits off as one piece. */
  lemma {:induction false} SplitAfterPiece(a: string, c: char, b: string)
    requires c !in a
    ensures Split(a + [c] + b, c) == [a] + Split(b, c)
  {
    if a == [] {
      assert a + [c] + b == [c] + b;
      assert ([c] + b)[1..] == b;
    } else {
      assert (a + [c] + b)[1..] == a[1..] + [c] + b;
      SplitAfterPiece(a[1..], c, b);
      assert [a[0]] + a[1..] == a;
    }
  }

  /** A string free of the separator is a single piece. */
  lemma {:induction false} SplitWithout(a: string, c: char)
    requires c !in a
    ensures Split(a, c) == [a]
  {
    if a != [] {
      SplitWithout(a[1..], c);
      assert [a[0]] + a[1..] == a;
    }
  }

  /** `Split` undoes `Join` whenever no piece holds the separator. */
  lemma {:induction false} SplitJoin(ps: seq<string>, c: char)
    requires |ps| >= 1
    requires forall i :: 0 <= i < |ps| ==> c !in ps[i]
    ensures Split(Join(ps, c), c) == ps
  {
    if |ps| == 1 {
      SplitWithout(ps[0], c);
    } else {
      SplitJoin(ps[1..], c);
      SplitAfterPiece(ps[0], c, Join(ps[1..], c));
      assert [ps[0]] + ps[1..] == ps;
    }
  }

  lemma {:induction false} JoinAppend(xs: seq<string>, ys: seq<string>, c: char)
    requires |xs| >= 1 && |ys| >= 1
    ensures Join(xs + ys, c) == Join(xs, c) + [c] + Join(ys, c)
  {
    if |xs| == 1 {
      assert (xs + ys)[1..] == ys;
    } else {
      assert (xs + ys)[1..] == xs[1..] + ys;
      JoinAppend(xs[1..], ys, c);
    }
  }

  /** The first occurrence of `c` in `s`. */
  lemma {:induction false} FirstIndex(s: string, c: char) returns (i: nat)
    requires c in s
    ensures i < |s| && s[i] == c && c !in s[..i]
  {
    if s[0] == c {
      i := 0;
    } else {
      var j := FirstIndex(s[1..], c);
      i := j + 1;
      assert s[..i] == [s[0]] + s[1..][..j];
    }
  }

  /** Splitting around one separator occurrence splits each side independently. */
  lemma SplitConcat(a: string, c: char, b: string)
    ensures Split(a + [c] + b, c) == Split(a, c) + Split(b, c)
  {
    var xs, ys := Split(a, c), Split(b, c);
    JoinSplit(a, c);
    JoinSplit(b, c);
    JoinAppend(xs, ys, c);
    SplitJoin(xs + ys, c);
  }

  // ---------------------------------------------------------------------------
  // parseInt(s, 10)

  predicate IsDigit(ch: char) {
    '0' <= ch <= '9'
  }

  predicate AllDigits(s: string) {
    forall i :: 0 <= i < |s| ==> IsDigit(s[i])
  }

  /** StrWhiteSpaceChar of ECMAScript: WhiteSpace (including every Zs character) and LineTerminator. */
  predicate IsWhiteSpace(ch: char) {
    || ch == '\t' || ch == '\U{000B}' || ch == '\U{000C}' || ch == ' ' || ch == '\U{00A0}' || ch == '\U{FEFF}'
    || ch == '\U{1680}' || ('\U{2000}' <= ch <= '\U{200A}') || ch == '\U{202F}' || ch == '\U{205F}' || ch == '\U{3000}'
    || ch == '\n' || ch == '\r' || ch == '\U{2028}' || ch == '\U{2029}'
  }

  /** `s` without its leading white space. */
  function TrimStart(s: string): (r: string)
    ensures r == [] || !IsWhiteSpace(r[0])
  {
    if s != [] && IsWhiteSpace(s[0]) then TrimStart(s[1..]) else s
  }

  /** The longest prefix of decimal digits. */
  function LeadingDigits(s: string): (r: string)
    ensures |r| <= |s| && r == s[..|r|]
    ensures AllDigits(r)
    ensures |r| == |s| || !IsDigit(s[|r|])
  {
    if s != [] && IsDigit(s[0]) then [s[0]] + LeadingDigits(s[1..]) else []
  }

  /** The value of a run of decimal digits, most significant first. */
  function DigitsValue(ds: string): nat
    requires AllDigits(ds)
  {
    if ds == [] then 0
    else
      var last := ds[|ds| - 1];
      assert IsDigit(last);
      10 * DigitsValue(ds[..|ds| - 1]) + (last as int - '0' as int)
  }

  /**
   * `parseInt(s, 10)`: skip leading white space, take an optional sign, then the
   * longest run of digits; `None` (NaN) when that run is empty. `-0` is `0` here,
   * which is falsy like JavaScript's `-0`.
   */
  function ParseInt(s: string): Option<int>
  {
    ParseTrimmed(TrimStart(s))
  }

  /** What `parseInt` reads once the leading white space is gone. */
  function ParseTrimmed(t: string): Option<int>
  {
    var negative := t != [] && t[0] == '-';
    var u := if t != [] && (t[0] == '-' || t[0] == '+') then t[1..] else t;
    var ds := LeadingDigits(u);
    if ds == [] then None
    else
      var v: int := DigitsValue(ds);
      Some(if negative then -v else v)
  }

  // ---------------------------------------------------------------------------
  // Number to decimal string

  function DigitChar(d: nat): (ch: char)
    requires d < 10
    ensures IsDigit(ch) && ch as int - '0' as int == d
  {
    ('0' as int + d) as char
  }

  /** The decimal text of a non-negative integer, as `String(n)` gives it. */
  function NatToString(n: nat): (r: string)
    ensures r != [] && AllDigits(r)
  {
    if n < 10 then [DigitChar(n)] else NatToString(n / 10) + [DigitChar(n % 10)]
  }

  lemma {:induction false} DigitsValueOfNatToString(n: nat)
    ensures DigitsValue(NatToString(n)) == n
  {
    var r := NatToString(n);
    if n < 10 {
      assert r[..0] == [];
    } else {
      assert r[..|r| - 1] == NatToString(n / 10);
      DigitsValueOfNatToString(n / 10);
    }
  }

  /** A run of digits followed by anything that is not a digit reads back as that run. */
  lemma {:induction false} LeadingDigitsOf(ds: string, rest: string)
    requires AllDigits(ds)
    requires rest == [] || !IsDigit(rest[0])
    ensures LeadingDigits(ds + rest) == ds
  {
    if ds == [] {
      assert ds + rest == rest;
    } else {
      assert (ds + rest)[1..] == ds[1..] + rest;
      LeadingDigitsOf(ds[1..], rest);
      assert [ds[0]] + ds[1..] == ds;
    }
  }

  lemma {:induction false} TrimStartOf(ws: string, t: string)
    requires forall i :: 0 <= i < |ws| ==> IsWhiteSpace(ws[i])
    requires t == [] || !IsWhiteSpace(t[0])
    ensures TrimStart(ws + t) == t
  {
    if ws == [] {
      assert ws + t == t;
    } else {
      assert (ws + t)[1..] == ws[1..] + t;
      TrimStartOf(ws[1..], t);
    }
  }

  /** Leading white space does not change what `parseInt` reads. */
  lemma ParseIntSkipsWhiteSpace(ws: string, t: string)
    requires forall i :: 0 <= i < |ws| ==> IsWhiteSpace(ws[i])
    requires t == [] || !IsWhiteSpace(t[0])
    ensures ParseInt(ws + t) == ParseInt(t)
  {
    TrimStartOf(ws, t);
    TrimStartOf([], t);
    assert [] + t == t;
    assert ParseInt(ws + t) == ParseTrimmed(t);
  }

  lemma ParseTrimmedUnsigned(ds: string, rest: string)
    requires ds != [] && AllDigits(ds)
    requires rest == [] || !IsDigit(rest[0])
    ensures ParseTrimmed(ds + rest) == Some(DigitsValue(ds))
  {
    var t := ds + rest;
    assert t[0] == ds[0];
    LeadingDigitsOf(ds, rest);
  }

  lemma ParseTrimmedSigned(sign: char, ds: string, rest: string)
    requires sign == '+' || sign == '-'
    requires ds != [] && AllDigits(ds)
    requires rest == [] || !IsDigit(rest[0])
    ensures ParseTrimmed([sign] + ds + rest) == Some(if sign == '-' then -(DigitsValue(ds) as int) else DigitsValue(ds))
  {
    var t := [sign] + ds + rest;
    assert t[1..] == ds + rest;
    LeadingDigitsOf(ds, rest);
  }

  lemma ParseTrimmedReads(sign: string, ds: string, rest: string)
    requires sign == [] || sign == ['+'] || sign == ['-']
    requires ds != [] && AllDigits(ds)
    requires rest == [] || !IsDigit(rest[0])
    ensures ParseTrimmed(sign + ds + rest) == Some(if sign == ['-'] then -(DigitsValue(ds) as int) else DigitsValue(ds))
  {
    if sign == [] {
      assert sign + ds + rest == ds + rest;
      ParseTrimmedUnsigned(ds, rest);
    } else {
      ParseTrimmedSigned(sign[0], ds, rest);
      assert [sign[0]] == sign;
    }
  }

  /**
   * `parseInt` reads white space, an optional sign and a run of digits, and
   * ignores whatever follows the digits.
   */
  lemma ParseIntReads(ws: string, sign: string, ds: string, rest: string)
    requires forall i :: 0 <= i < |ws| ==> IsWhiteSpace(ws[i])
    requires sign == [] || sign == ['+'] || sign == ['-']
    requires ds != [] && AllDigits(ds)
    requires rest == [] || !IsDigit(rest[0])
    ensures ParseInt(ws + sign + ds + rest) == Some(if sign == ['-'] then -(DigitsValue(ds) as int) else DigitsValue(ds))
  {
    var t := sign + ds + rest;
    assert ws + sign + ds + rest == ws + t;
    assert t[0] == if sign == [] then ds[0] else sign[0];
    ParseIntSkipsWhiteSpace(ws, t);
    ParseTrimmedReads(sign, ds, rest);
  }

  /** `parseInt(String(n), 10) == n`: the decimal text of a number reads back as that number. */
  lemma ParseIntOfNatToString(n: nat)
    ensures ParseInt(NatToString(n)) == Some(n)
  {
    var s := NatToString(n);
    assert [] + [] + s + [] == s;
    ParseIntReads([], [], s, []);
    DigitsValueOfNatToString(n);
  }

  /** No digits after the white space and sign: NaN. */
  lemma ParseIntNaN(ws: string, sign: string, rest: string)
    requires forall i :: 0 <= i < |ws| ==> IsWhiteSpace(ws[i])
    requires sign == [] || sign == ['+'] || sign == ['-']
    requires rest == [] || (!IsDigit(rest[0]) && (sign == [] ==> !IsWhiteSpace(rest[0]) && rest[0] != '+' && rest[0] != '-'))
    ensures ParseInt(ws + sign + rest) == None
  {
    var t := sign + rest;
    assert ws + sign + rest == ws + t;
    TrimStartOf(ws, t);
    if sign == [] {
      assert t == rest;
    } else {
      assert t[1..] == rest;
    }
  }

  // ---------------------------------------------------------------------------
  // toUpperCase on ASCII letters

  function AsciiUpper(s: string): (r: string)
    ensures |r| == |s|
    ensures forall i :: 0 <= i < |s| ==>
      r[i] == if 'a' <= s[i] <= 'z' then (s[i] as int - 32) as char else s[i]
  {
    if s == [] then []
    else [if 'a' <= s[0] <= 'z' then (s[0] as int - 32) as char else s[0]] + AsciiUpper(s[1..])
  }

  /** `figure` in any mix of ASCII cases. */
  predicate SpellsFigure(s: string) {
    |s| == 6 && forall i :: 0 <= i < 6 ==> s[i] == "figure"[i] || s[i] == "FIGURE"[i]
  }

  /** A tag name upper-cases to `FIGURE` exactly when it spells `figure` in some mix of ASCII cases. */
  lemma AsciiUpperFigure(s: string)
    ensures AsciiUpper(s) == "FIGURE" <==> SpellsFigure(s)
  {
    if AsciiUpper(s) == "FIGURE" {
      AsciiUpperFigureOnlyIf(s);
    }
    if SpellsFigure(s) {
      AsciiUpperFigureIf(s);
    }
  }

  lemma AsciiUpperFigureOnlyIf(s: string)
    requires AsciiUpper(s) == "FIGURE"
    ensures SpellsFigure(s)
  {
    var u := AsciiUpper(s);
    forall i | 0 <= i < 6 ensures s[i] == "figure"[i] || s[i] == "FIGURE"[i] {
      assert u[i] == "FIGURE"[i];
      UpperCharFigure(s[i], "figure"[i], "FIGURE"[i]);
    }
  }

  lemma AsciiUpperFigureIf(s: string)
    requires SpellsFigure(s)
    ensures AsciiUpper(s) == "FIGURE"
  {
    var u := AsciiUpper(s);
    forall i | 0 <= i < 6 ensures u[i] == "FIGURE"[i] {
      UpperCharFigure(s[i], "figure"[i], "FIGURE"[i]);
    }
  }

  lemma UpperCharFigure(c: char, lower: char, upper: char)
    requires 'a' <= lower <= 'z' && upper == (lower as int - 32) as char
    ensures (if 'a' <= c <= 'z' then (c as int - 32) as char else c) == upper <==> c == lower || c == upper
  {
  }

  /** Upper-casing twice is upper-casing once. */
  lemma AsciiUpperIdempotent(s: string)
    ensures AsciiUpper(AsciiUpper(s)) == AsciiUpper(s)
  {
    var u := AsciiUpper(s);
    forall i | 0 <= i < |u| ensures AsciiUpper(u)[i] == u[i] {
    }
  }
}
