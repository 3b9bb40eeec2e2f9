/** The parts of JavaScript string semantics the controllers rely on:
    `String.prototype.trim`, `parseInt(s, 10)`, truthiness and the
    relational operators `<` / `>` on strings. */
module JsString {
  import opened Base

  /** ECMAScript WhiteSpace and LineTerminator code points (the set `trim`
      and `parseInt` skip). */
  predicate IsWhiteSpace(c: char)
  {
    || c == '\t' || c == '\n' || c == '\U{000B}' || c == '\U{000C}' || c == '\r' || c == ' '
    || c == '\U{00A0}' || c == '\U{1680}' || ('\U{2000}' <= c <= '\U{200A}')
    || c == '\U{2028}' || c == '\U{2029}' || c == '\U{202F}' || c == '\U{205F}'
    || c == '\U{3000}' || c == '\U{FEFF}'
  }

  predicate AllWhiteSpace(s: string)
  {
    forall i :: 0 <= i < |s| ==> IsWhiteSpace(s[i])
  }

  /** A string with no white space at either end. */
  predicate IsTrimmed(s: string)
  {
    |s| == 0 || (!IsWhiteSpace(s[0]) && !IsWhiteSpace(s[|s| - 1]))
  }

  /** A JavaScript string is truthy exactly when it is not empty. */
  predicate Truthy(s: Option<string>)
  {
    s.Some? && |s.value| > 0
  }

  function TrimStart(s: string): (r: string)
    ensures |r| <= |s| && r == s[|s| - |r|..]
    ensures AllWhiteSpace(s[..|s| - |r|])
    ensures |r| == 0 || !IsWhiteSpace(r[0])
    decreases |s|
  {
    if |s| > 0 && IsWhiteSpace(s[0]) then
      var r := TrimStart(s[1..]);
      assert s[..|s| - |r|] == [s[0]] + s[1..][..|s[1..]| - |r|];
      r
    else s
  }

  function TrimEnd(s: string): (r: string)
    ensures |r| <= |s| && r == s[..|r|]
    ensures AllWhiteSpace(s[|r|..])
    ensures |r| == 0 || !IsWhiteSpace(r[|r| - 1])
    decreases |s|
  {
    if |s| > 0 && IsWhiteSpace(s[|s| - 1]) then
      var t := s[..|s| - 1];
      var r := TrimEnd(t);
      assert r == s[..|r|];
      assert s[|r|..] == t[|r|..] + [s[|s| - 1]];
      r
    else s
  }

  /** `s.trim()`: the result is trimmed and is what remains of `s` once
      white space is cut from both ends. */
  function Trim(s: string): (r: string)
    ensures IsTrimmed(r)
    ensures |r| <= |s|
  {
    var a := TrimStart(s);
    var r := TrimEnd(a);
    assert |r| > 0 ==> r[0] == a[0];
    r
  }

  lemma {:induction false} TrimStartOfPadded(w: string, core: string)
    requires AllWhiteSpace(w)
    requires |core| == 0 || !IsWhiteSpace(core[0])
    ensures TrimStart(w + core) == core
    decreases |w|
  {
    if |w| > 0 {
      assert (w + core)[1..] == w[1..] + core;
      TrimStartOfPadded(w[1..], core);
    } else {
      assert w + core == core;
    }
  }

  lemma {:induction false} TrimEndOfPadded(core: string, w: string)
    requires AllWhiteSpace(w)
    requires |core| == 0 || !IsWhiteSpace(core[|core| - 1])
    ensures TrimEnd(core + w) == core
    decreases |w|
  {
    if |w| > 0 {
      assert (core + w)[..|core + w| - 1] == core + w[..|w| - 1];
      TrimEndOfPadded(core, w[..|w| - 1]);
    } else {
      assert core + w == core;
    }
  }

  /** `trim` removes exactly the white space around a trimmed core: this
      pins the result down completely. */
  lemma {:induction false} TrimOfPadded(left: string, core: string, right: string)
    requires AllWhiteSpace(left) && AllWhiteSpace(right)
    requires IsTrimmed(core) && |core| > 0
    ensures Trim(left + core + right) == core
  {
    assert left + core + right == left + (core + right);
    TrimStartOfPadded(left, core + right);
    TrimEndOfPadded(core, right);
  }

  /** A string of white space trims to the empty string. */
  lemma {:induction false} TrimOfWhiteSpace(w: string)
    requires AllWhiteSpace(w)
    ensures Trim(w) == ""
  {
    TrimStartOfPadded(w, "");
    assert w + "" == w;
  }

  /** Trimming a trimmed string changes nothing; in particular `trim` is idempotent. */
  lemma {:induction false} TrimTrimmed(s: string)
    requires IsTrimmed(s)
    ensures Trim(s) == s
  {
    if |s| > 0 {
      TrimOfPadded("", s, "");
      assert "" + s + "" == s;
    }
  }

  lemma {:induction false} TrimIdempotent(s: string)
    ensures Trim(Trim(s)) == Trim(s)
  {
    TrimTrimmed(Trim(s));
  }

  // ---------------------------------------------------------------------
  // Decimal digits and parseInt(s, 10)

  predicate IsDigit(c: char) { '0' <= c <= '9' }

  predicate AllDigits(s: string) { forall i :: 0 <= i < |s| ==> IsDigit(s[i]) }

  function DigitValue(c: char): nat
    requires IsDigit(c)
  {
    (c as int - '0' as int) as nat
  }

  function DigitChar(d: nat): (c: char)
    requires d < 10
    ensures IsDigit(c) && DigitValue(c) == d
  {
    ('0' as int + d) as char
  }

  /** The longest prefix of `s` made of decimal digits. */
  function DigitPrefix(s: string): (r: string)
    ensures AllDigits(r) && |r| <= |s| && r == s[..|r|]
    ensures |r| == |s| || !IsDigit(s[|r|])
    decreases |s|
  {
    if |s| > 0 && IsDigit(s[0]) then [s[0]] + DigitPrefix(s[1..]) else []
  }

  /** The number a string of decimal digits denotes (most significant first). */
  function DigitsValue(s: string): nat
    requires AllDigits(s)
    decreases |s|
  {
    if |s| == 0 then 0 else DigitsValue(s[..|s| - 1]) * 10 + DigitValue(s[|s| - 1])
  }

  /** `String(n)` for a natural number: its shortest decimal form. */
  function NatToDecimal(n: nat): (r: string)
    ensures AllDigits(r) && |r| > 0
    ensures |r| > 1 ==> r[0] != '0'
  {
    if n < 10 then [DigitChar(n)] else NatToDecimal(n / 10) + [DigitChar(n % 10)]
  }

  /** `String(n)` for an integer. */
  function IntToDecimal(n: int): string
  {
    if n < 0 then "-" + NatToDecimal(-n) else NatToDecimal(n)
  }

  /** `parseInt(s, 10)`: skip leading white space, read an optional sign and
      then the longest run of decimal digits; with no digit the result is
      `NaN`, written `None`. Whatever follows the digits is ignored. */
  function ParseInt(s: string): (r: Option<int>)
    ensures r.None? <==> |DigitPrefix(Unsigned(TrimStart(s)))| == 0
    ensures r.Some? && !IsNegated(TrimStart(s)) ==> r.value >= 0
  {
    LeadingInt(TrimStart(s))
  }

  /** `parseInt` after the leading white space is gone. */
  function LeadingInt(t: string): (r: Option<int>)
    ensures r.None? <==> |DigitPrefix(Unsigned(t))| == 0
  {
    var ds := DigitPrefix(Unsigned(t));
    if |ds| == 0 then None
    else
      var v: int := DigitsValue(ds);
      Some(if IsNegated(t) then -v else v)
  }

  predicate IsNegated(t: string) { |t| > 0 && t[0] == '-' }

  /** The text after an optional leading sign. */
  function Unsigned(t: string): (r: string)
    ensures |r| <= |t|
  {
    if |t| > 0 && (t[0] == '-' || t[0] == '+') then t[1..] else t
  }

  lemma {:induction false} DigitPrefixOfDigits(ds: string, rest: string)
    requires AllDigits(ds)
    requires |rest| == 0 || !IsDigit(rest[0])
    ensures DigitPrefix(ds + rest) == ds
    decreases |ds|
  {
    if |ds| == 0 {
      assert ds + rest == rest;
    } else {
      assert (ds + rest)[1..] == ds[1..] + rest;
      DigitPrefixOfDigits(ds[1..], rest);
      assert ds == [ds[0]] + ds[1..];
    }
  }

  lemma {:induction false} DigitsValueOfDecimal(n: nat)
    ensures DigitsValue(NatToDecimal(n)) == n
  {
    if n >= 10 {
      var r := NatToDecimal(n);
      assert r[..|r| - 1] == NatToDecimal(n / 10);
      DigitsValueOfDecimal(n / 10);
    }
  }

  /** Round trip: `parseInt(String(n) + rest, 10) == n` whenever `rest` does not
      continue the digits, so `parseInt("2025-12")` reads 2025. */
  lemma {:induction false} ParseIntOfDecimal(n: int, rest: string)
    requires |rest| == 0 || !IsDigit(rest[0])
    ensures ParseInt(IntToDecimal(n) + rest) == Some(n)
  {
    var m: nat := if n < 0 then -n else n;
    var digits := NatToDecimal(m);
    UnsignedOfDecimal(n, rest);
    DigitPrefixOfDigits(digits, rest);
    DigitsValueOfDecimal(m);
  }

  /** `parseInt(String(n), 10) == n`. */
  lemma {:induction false} ParseIntOfDecimalExact(n: int)
    ensures ParseInt(IntToDecimal(n)) == Some(n)
  {
    ParseIntOfDecimal(n, []);
    assert IntToDecimal(n) + [] == IntToDecimal(n);
  }

  lemma {:induction false} DigitIsPlain(c: char)
    requires IsDigit(c)
    ensures !IsWhiteSpace(c) && c != '-' && c != '+'
  {
  }

  lemma {:induction false} UnsignedOfDecimal(n: int, rest: string)
    ensures var s := IntToDecimal(n) + rest;
      TrimStart(s) == s && IsNegated(s) == (n < 0)
      && Unsigned(s) == NatToDecimal(if n < 0 then -n else n) + rest
  {
    if n < 0 {
      UnsignedOfSigned(NatToDecimal(-n), rest);
    } else {
      UnsignedOfDigits(NatToDecimal(n), rest);
    }
  }

  lemma {:induction false} UnsignedOfSigned(digits: string, rest: string)
    requires |digits| > 0 && IsDigit(digits[0])
    ensures var s := "-" + digits + rest;
      TrimStart(s) == s && IsNegated(s) && Unsigned(s) == digits + rest
  {
    var s := "-" + digits + rest;
    assert s[0] == '-';
    TrimStartPlain(s);
    assert s[1..] == digits + rest;
  }

  lemma {:induction false} UnsignedOfDigits(digits: string, rest: string)
    requires |digits| > 0 && IsDigit(digits[0])
    ensures var s := digits + rest;
      TrimStart(s) == s && !IsNegated(s) && Unsigned(s) == s
  {
    var s := digits + rest;
    assert s[0] == digits[0];
    DigitIsPlain(digits[0]);
    TrimStartPlain(s);
  }

  lemma {:induction false} TrimStartPlain(s: string)
    requires |s| > 0 && !IsWhiteSpace(s[0])
    ensures TrimStart(s) == s
  {
  }

  // ---------------------------------------------------------------------
  // Number(s)

  /** `Number(s)` on the integer forms of a numeric string: white space is
      trimmed from both ends, an empty remainder is 0, and otherwise the
      whole remainder must be an optional sign followed by decimal digits;
      anything else is `NaN`, written `None`. */
  function NumberValue(s: string): (r: Option<int>)
    ensures |Trim(s)| == 0 ==> r == Some(0)
    ensures r.Some? && |Trim(s)| > 0 ==> AllDigits(Unsigned(Trim(s))) && |Unsigned(Trim(s))| > 0
  {
    NumeralValue(Trim(s))
  }

  /** The value of already trimmed numeric text. */
  function NumeralValue(t: string): Option<int>
  {
    var u := Unsigned(t);
    if |t| == 0 then Some(0)
    else if |u| > 0 && AllDigits(u) then
      var v: int := DigitsValue(u);
      Some(if IsNegated(t) then -v else v)
    else None
  }

  /** Where `Number` reads a non-empty numeral, `parseInt` reads the same number. */
  lemma {:induction false} NumberAgreesWithParseInt(s: string)
    requires NumberValue(s).Some? && |Trim(s)| > 0
    ensures ParseInt(s) == NumberValue(s)
  {
    var a := TrimStart(s);
    var t := Trim(s);
    var u := Unsigned(t);
    var ws := a[|t|..];
    assert a == t + ws;
    assert AllWhiteSpace(ws);
    assert |ws| == 0 || !IsDigit(ws[0]) by {
      if |ws| > 0 { WhiteSpaceIsNotDigit(ws[0]); }
    }
    UnsignedAppend(t, ws);
    DigitPrefixOfDigits(u, ws);
    ParseIntOfParts(s, a, u);
    NumberOfParts(s, t, u);
  }

  lemma {:induction false} ParseIntOfParts(s: string, a: string, u: string)
    requires a == TrimStart(s) && DigitPrefix(Unsigned(a)) == u && |u| > 0
    ensures ParseInt(s) == Some(if IsNegated(a) then -(DigitsValue(u) as int) else DigitsValue(u))
  {
    assert ParseInt(s) == LeadingInt(a);
  }

  lemma {:induction false} NumberOfParts(s: string, t: string, u: string)
    requires t == Trim(s) && |t| > 0 && u == Unsigned(t) && |u| > 0 && AllDigits(u)
    ensures NumberValue(s) == Some(if IsNegated(t) then -(DigitsValue(u) as int) else DigitsValue(u))
  {
    assert NumberValue(s) == NumeralValue(t);
    NumeralOfParts(t, u);
  }

  lemma {:induction false} NumeralOfParts(t: string, u: string)
    requires |t| > 0 && u == Unsigned(t) && |u| > 0 && AllDigits(u)
    ensures NumeralValue(t) == Some(if IsNegated(t) then -(DigitsValue(u) as int) else DigitsValue(u))
  {
  }

  lemma {:induction false} UnsignedAppend(t: string, ws: string)
    requires |t| > 0
    ensures Unsigned(t + ws) == Unsigned(t) + ws
    ensures IsNegated(t + ws) == IsNegated(t)
  {
    assert (t + ws)[0] == t[0];
    assert (t + ws)[1..] == t[1..] + ws;
  }

  lemma {:induction false} WhiteSpaceIsNotDigit(c: char)
    requires IsWhiteSpace(c)
    ensures !IsDigit(c)
  {
  }

  /** `Number(String(n)) == n`. */
  lemma {:induction false} NumberOfDecimal(n: int)
    ensures NumberValue(IntToDecimal(n)) == Some(n)
  {
    var s := IntToDecimal(n);
    var m: nat := if n < 0 then -n else n;
    var d := NatToDecimal(m);
    DigitIsPlain(d[0]);
    DigitIsPlain(d[|d| - 1]);
    assert IsTrimmed(s);
    TrimTrimmed(s);
    assert Unsigned(s) == d;
    DigitsValueOfDecimal(m);
  }

  /** Leading zeros do not change the value of a numeral. */
  lemma {:induction false} DigitsValueOfZeros(z: nat, ds: string)
    requires AllDigits(ds)
    ensures AllDigits(seq(z, _ => '0') + ds)
    ensures DigitsValue(seq(z, _ => '0') + ds) == DigitsValue(ds)
    decreases |ds|
  {
    var zs: string := seq(z, _ => '0');
    if |ds| == 0 {
      assert zs + ds == zs;
      ZerosValue(z);
    } else {
      var init := ds[..|ds| - 1];
      assert (zs + ds)[..|zs + ds| - 1] == zs + init;
      DigitsValueOfZeros(z, init);
    }
  }

  lemma {:induction false} ZerosValue(z: nat)
    ensures AllDigits(seq(z, _ => '0'))
    ensures DigitsValue(seq(z, _ => '0')) == 0
    decreases z
  {
    if z > 0 {
      assert seq(z, _ => '0')[..z - 1] == seq(z - 1, _ => '0');
      ZerosValue(z - 1);
    }
  }

  /** `Number(String(n).padStart(width, "0")) == n`, so "02" reads as 2. */
  lemma {:induction false} NumberOfPadded(n: nat, width: nat)
    ensures NumberValue(PadDecimal(n, width)) == Some(n)
  {
    var d := NatToDecimal(n);
    var s := PadDecimal(n, width);
    DigitsValueOfDecimal(n);
    if |d| < width {
      DigitsValueOfZeros(width - |d|, d);
    }
    DigitIsPlain(s[0]);
    DigitIsPlain(s[|s| - 1]);
    assert IsTrimmed(s);
    TrimTrimmed(s);
    assert Unsigned(s) == s;
  }

  // ---------------------------------------------------------------------
  // split

  /** `s.split(sep)` for a one-character separator: the pieces between the
      separators, empty pieces included. */
  function Split(s: string, sep: char): (r: seq<string>)
    ensures |r| >= 1
    ensures forall i :: 0 <= i < |r| ==> sep !in r[i]
    ensures JoinWith(r, sep) == s
    decreases |s|
  {
    if |s| == 0 then [""]
    else
      var rest := Split(s[1..], sep);
      if s[0] == sep then
        assert s == [sep] + s[1..];
        [""] + rest
      else
        var r := [[s[0]] + rest[0]] + rest[1..];
        assert r[1..] == rest[1..];
        JoinWithHead([s[0]], rest, sep);
        assert s == [s[0]] + s[1..];
        r
  }

  /** `parts.join(sep)`. */
  function JoinWith(parts: seq<string>, sep: char): string
    requires |parts| >= 1
    decreases |parts|
  {
    if |parts| == 1 then parts[0] else parts[0] + [sep] + JoinWith(parts[1..], sep)
  }

  lemma {:induction false} JoinWithHead(a: string, parts: seq<string>, sep: char)
    requires |parts| >= 1
    ensures JoinWith([a + parts[0]] + parts[1..], sep) == a + JoinWith(parts, sep)
  {
    var q := [a + parts[0]] + parts[1..];
    if |parts| > 1 {
      assert q[1..] == parts[1..];
    }
  }

  /** Splitting undoes joining pieces that do not contain the separator. */
  lemma {:induction false} SplitOfJoin(parts: seq<string>, sep: char)
    requires |parts| >= 1
    requires forall i :: 0 <= i < |parts| ==> sep !in parts[i]
    ensures Split(JoinWith(parts, sep), sep) == parts
    decreases |parts|
  {
    if |parts| == 1 {
      SplitOfPlain(parts[0], sep);
    } else {
      SplitOfJoin(parts[1..], sep);
      SplitOfPiece(parts[0], JoinWith(parts[1..], sep), sep);
      assert [parts[0]] + parts[1..] == parts;
    }
  }

  /** Text without the separator is a single piece. */
  lemma {:induction false} SplitOfPlain(a: string, sep: char)
    requires sep !in a
    ensures Split(a, sep) == [a]
    decreases |a|
  {
    if |a| > 0 {
      SplitOfPlain(a[1..], sep);
      assert [a[0]] + a[1..] == a;
    }
  }

  /** A piece without the separator, followed by the separator and more
      text, splits off as the first piece. */
  lemma {:induction false} SplitOfPiece(a: string, b: string, sep: char)
    requires sep !in a
    ensures Split(a + [sep] + b, sep) == [a] + Split(b, sep)
    decreases |a|
  {
    if |a| > 0 {
      SplitOfPiece(a[1..], b, sep);
      SplitOfPieceStep(a, b, sep);
    } else {
      assert a + [sep] + b == [sep] + b;
      SplitOfSeparator(b, sep);
    }
  }

  lemma {:induction false} SplitOfPieceStep(a: string, b: string, sep: char)
    requires |a| > 0 && a[0] != sep
    requires Split(a[1..] + [sep] + b, sep) == [a[1..]] + Split(b, sep)
    ensures Split(a + [sep] + b, sep) == [a] + Split(b, sep)
  {
    var t := a[1..] + [sep] + b;
    assert a + [sep] + b == [a[0]] + t;
    SplitOfChar(a[0], t, sep);
    assert [a[0]] + a[1..] == a;
  }

  lemma {:induction false} SplitOfChar(c: char, t: string, sep: char)
    requires c != sep
    ensures Split([c] + t, sep) == [[c] + Split(t, sep)[0]] + Split(t, sep)[1..]
  {
    assert ([c] + t)[1..] == t;
  }

  lemma {:induction false} SplitOfSeparator(t: string, sep: char)
    ensures Split([sep] + t, sep) == [""] + Split(t, sep)
  {
    assert ([sep] + t)[1..] == t;
  }

  /** `String(n).padStart(width, "0")` for a natural number. */
  function PadDecimal(n: nat, width: nat): (r: string)
    ensures AllDigits(r) && |r| >= width
  {
    var d := NatToDecimal(n);
    if |d| >= width then d else seq(width - |d|, _ => '0') + d
  }

  /** A string of digits holds no `-`, so it is one piece of a `split("-")`. */
  lemma {:induction false} DigitsHaveNoDash(s: string)
    requires AllDigits(s)
    ensures '-' !in s
  {
  }

  // ---------------------------------------------------------------------
  // Relational comparison of strings

  /** `a < b` on JavaScript strings: lexicographic comparison by code unit,
      a proper prefix coming first. */
  predicate StrLess(a: string, b: string)
    decreases |a|
  {
    if |a| == 0 then |b| > 0
    else if |b| == 0 then false
    else if a[0] != b[0] then a[0] < b[0]
    else StrLess(a[1..], b[1..])
  }

  lemma {:induction false} StrLessIrreflexive(a: string)
    ensures !StrLess(a, a)
    decreases |a|
  {
    if |a| > 0 { StrLessIrreflexive(a[1..]); }
  }

  lemma {:induction false} StrLessTransitive(a: string, b: string, c: string)
    requires StrLess(a, b) && StrLess(b, c)
    ensures StrLess(a, c)
    decreases |a|
  {
    if |a| > 0 && |b| > 0 && |c| > 0 && a[0] == b[0] && b[0] == c[0] {
      StrLessTransitive(a[1..], b[1..], c[1..]);
    }
  }

  lemma {:induction false} StrLessTotal(a: string, b: string)
    requires a != b
    ensures StrLess(a, b) || StrLess(b, a)
    decreases |a|
  {
    if |a| > 0 && |b| > 0 && a[0] == b[0] {
      assert a == [a[0]] + a[1..] && b == [b[0]] + b[1..];
      StrLessTotal(a[1..], b[1..]);
    }
  }

  lemma {:induction false} StrLessAsymmetric(a: string, b: string)
    requires StrLess(a, b)
    ensures !StrLess(b, a)
  {
    if StrLess(b, a) {
      StrLessTransitive(a, b, a);
      StrLessIrreflexive(a);
    }
  }
}
