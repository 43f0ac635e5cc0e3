/** The handful of Python string operations the rule parsers, the natural sort
    key and the captions rely on: `str.split(sep)`, `str.strip()`, `int(s)`,
    `str(n)` and `str.lower()`, written out over `seq<char>`. */
module PyText {
  import opened Base

  /** The characters for which Python's `str.isspace()` holds; the regular
      expression class `\s` matches exactly these: U+0009 to U+000D, U+001C
      to U+0020, U+0085, U+00A0, U+1680, U+2000 to U+200A, U+2028, U+2029,
      U+202F, U+205F and U+3000. */
  predicate IsSpace(c: char) {
    ('\t' <= c <= '\r') || ('\U{001C}' <= c <= ' ') || c == '\U{0085}' || c == '\U{00A0}'
    || c == '\U{1680}' || ('\U{2000}' <= c <= '\U{200A}') || c == '\U{2028}' || c == '\U{2029}'
    || c == '\U{202F}' || c == '\U{205F}' || c == '\U{3000}'
  }

  predicate IsDigit(c: char) { '0' <= c <= '9' }

  predicate AllDigits(s: string) { forall i :: 0 <= i < |s| ==> IsDigit(s[i]) }

  predicate NoSpace(s: string) { forall i :: 0 <= i < |s| ==> !IsSpace(s[i]) }

  /** Lower-casing of one character (ASCII letters only). */
  function Lower(c: char): char {
    if 'A' <= c <= 'Z' then (c as int + 32) as char else c
  }

  function LowerString(s: string): (r: string)
    ensures |r| == |s|
    ensures forall i :: 0 <= i < |s| ==> r[i] == Lower(s[i])
  {
    seq(|s|, i requires 0 <= i < |s| => Lower(s[i]))
  }

  /** Case folding leaves no ASCII capital behind, maps each capital to its
      small letter, keeps every other character, and folding twice is
      folding once. */
  lemma LowerFolds(s: string)
    ensures forall i :: 0 <= i < |s| ==> !('A' <= LowerString(s)[i] <= 'Z')
    ensures forall i :: 0 <= i < |s| && 'A' <= s[i] <= 'Z' ==>
              LowerString(s)[i] as int == s[i] as int + 32
    ensures forall i :: 0 <= i < |s| && !('A' <= s[i] <= 'Z') ==> LowerString(s)[i] == s[i]
    ensures LowerString(LowerString(s)) == LowerString(s)
  {
    var r := LowerString(s);
    assert forall i :: 0 <= i < |r| ==> LowerString(r)[i] == r[i];
  }

  // ---------------------------------------------------------------- split / join

  /** `s.split(sep)`: the pieces between the separators, in order; an empty
      string gives one empty piece. */
  function Split(s: string, sep: char): (r: seq<string>)
    ensures |r| >= 1
    ensures forall i :: 0 <= i < |r| ==> sep !in r[i]
  {
    if s == [] then [[]]
    else
      var rest := Split(s[1..], sep);
      if s[0] == sep then [[]] + rest else [[s[0]] + rest[0]] + rest[1..]
  }

  /** `sep.join(parts)`. */
  function Join(parts: seq<string>, sep: char): string
  {
    if |parts| == 0 then []
    else if |parts| == 1 then parts[0]
    else parts[0] + [sep] + Join(parts[1..], sep)
  }

  /** A join of pieces whose first is non-empty is non-empty. */
  lemma JoinNonEmpty(parts: seq<string>, sep: char)
    requires |parts| >= 1 && parts[0] != []
    ensures Join(parts, sep) != []
  {
    if |parts| > 1 {
      assert Join(parts, sep)[0] == parts[0][0];
    }
  }

  /** Splitting undoes joining, when no piece contains the separator. */
  lemma {:induction false} SplitJoin(parts: seq<string>, sep: char)
    requires |parts| >= 1
    requires forall i :: 0 <= i < |parts| ==> sep !in parts[i]
    ensures Split(Join(parts, sep), sep) == parts
  {
    if |parts| == 1 {
      NoSeparator(parts[0], sep);
    } else {
      SplitJoin(parts[1..], sep);
      SplitAfterPiece(parts[0], sep, Join(parts[1..], sep));
    }
  }

  /** A string without the separator splits into itself. */
  lemma {:induction false} NoSeparator(s: string, sep: char)
    requires sep !in s
    ensures Split(s, sep) == [s]
  {
    if s != [] {
      assert s[0] != sep && sep !in s[1..];
      NoSeparator(s[1..], sep);
      assert [s[0]] + s[1..] == s;
    }
  }

  lemma {:induction false} SplitAfterPiece(p: string, sep: char, t: string)
    requires sep !in p
    ensures Split(p + [sep] + t, sep) == [p] + Split(t, sep)
  {
    if p == [] {
      assert p + [sep] + t == [sep] + t;
      assert ([sep] + t)[1..] == t;
    } else {
      assert (p + [sep] + t)[1..] == p[1..] + [sep] + t;
      SplitAfterPiece(p[1..], sep, t);
      assert [p[0]] + p[1..] == p;
    }
  }

  /** Joining undoes splitting. */
  lemma {:induction false} JoinSplit(s: string, sep: char)
    ensures Join(Split(s, sep), sep) == s
  {
    if s != [] {
      JoinSplit(s[1..], sep);
      var rest := Split(s[1..], sep);
      if s[0] == sep {
        assert ([[]] + rest)[1..] == rest;
      } else {
        var r := [[s[0]] + rest[0]] + rest[1..];
        if |rest| > 1 {
          assert r[1..] == rest[1..];
          assert Join(rest, sep) == rest[0] + [sep] + Join(rest[1..], sep);
        }
      }
    }
  }

  // ---------------------------------------------------------------- strip

  function StripLeft(s: string): string
  {
    if s != [] && IsSpace(s[0]) then StripLeft(s[1..]) else s
  }

  function StripRight(s: string): string
  {
    if s != [] && IsSpace(s[|s| - 1]) then StripRight(s[..|s| - 1]) else s
  }

  /** `s.strip()`: `s` with its leading and trailing whitespace removed. */
  function Strip(s: string): string
  {
    StripRight(StripLeft(s))
  }

  /** `StripLeft` drops the leading whitespace run and nothing else. */
  lemma {:induction false} StripLeftShape(s: string)
    ensures var r := StripLeft(s);
            |r| <= |s| && r == s[|s| - |r|..] && (r == [] || !IsSpace(r[0]))
            && forall i :: 0 <= i < |s| - |r| ==> IsSpace(s[i])
  {
    if s != [] && IsSpace(s[0]) {
      var t := s[1..];
      StripLeftShape(t);
      var r := StripLeft(t);
      assert StripLeft(s) == r;
      assert t[|t| - |r|..] == s[|s| - |r|..];
      forall i | 1 <= i < |s| - |r|
        ensures IsSpace(s[i])
      {
        assert s[i] == t[i - 1];
      }
    }
  }

  /** `StripRight` drops the trailing whitespace run and nothing else. */
  lemma {:induction false} StripRightShape(s: string)
    ensures var r := StripRight(s);
            |r| <= |s| && r == s[..|r|] && (r == [] || !IsSpace(r[|r| - 1]))
            && forall i :: |r| <= i < |s| ==> IsSpace(s[i])
  {
    if s != [] && IsSpace(s[|s| - 1]) {
      var t := s[..|s| - 1];
      StripRightShape(t);
      var r := StripRight(t);
      assert StripRight(s) == r;
      assert t[..|r|] == s[..|r|];
      forall i | |r| <= i < |s| - 1
        ensures IsSpace(s[i])
      {
        assert s[i] == t[i];
      }
    }
  }

  lemma StripNoSpace(s: string)
    requires NoSpace(s)
    ensures Strip(s) == s
  {
  }

  // ---------------------------------------------------------------- int() and str()

  function DigitValue(c: char): int { c as int - '0' as int }

  /** The value of a string of decimal digits, most significant first. */
  function DigitsValue(s: string): (n: nat)
    requires AllDigits(s)
  {
    if s == [] then 0 else DigitsValue(s[..|s| - 1]) * 10 + DigitValue(s[|s| - 1])
  }

  /** Python's `int(s)` on base-10 text: it succeeds exactly on optional
      surrounding whitespace around an optional sign and a non-empty run of
      ASCII digits. */
  function ParseInt(s: string): (r: Option<int>)
  {
    var t := Strip(s);
    var negative := t != [] && t[0] == '-';
    var digits := if t != [] && (t[0] == '-' || t[0] == '+') then t[1..] else t;
    if digits != [] && AllDigits(digits) then
      var v: int := DigitsValue(digits);
      Some(if negative then -v else v)
    else None
  }

  function DigitChar(d: int): char
    requires 0 <= d < 10
  {
    ('0' as int + d) as char
  }

  /** Python's `str(n)` for a natural number. */
  function NatToString(n: nat): (s: string)
    ensures s != [] && AllDigits(s)
  {
    if n < 10 then [DigitChar(n)] else NatToString(n / 10) + [DigitChar(n % 10)]
  }

  /** Python's `str(n)` for any integer. */
  function IntToString(n: int): (s: string)
    ensures s != []
  {
    if n < 0 then "-" + NatToString(-n) else NatToString(n)
  }

  lemma {:induction false} NatToStringValue(n: nat)
    ensures DigitsValue(NatToString(n)) == n
  {
    if n >= 10 {
      NatToStringValue(n / 10);
      var s := NatToString(n);
      assert s[..|s| - 1] == NatToString(n / 10);
    }
  }

  /** `int(str(n)) == n`: the decimal text printed for labels and page
      numbers reads back as the same integer. */
  lemma ParseIntToString(n: int)
    ensures ParseInt(IntToString(n)) == Some(n)
  {
    var s := IntToString(n);
    var digits := NatToString(if n < 0 then -n else n);
    NatToStringValue(if n < 0 then -n else n);
    assert NoSpace(s);
    StripNoSpace(s);
    if n < 0 {
      assert s[1..] == digits;
    } else {
      assert s[0] != '-' && s[0] != '+';
    }
  }

  /** Decimal text has no whitespace and none of the separators `-`, `,`
      and `:` the rule parsers split on. */
  lemma DigitsText(a: string)
    requires AllDigits(a)
    ensures NoSpace(a) && '-' !in a && ',' !in a && ':' !in a
  {
  }

  /** `str(n)` has no whitespace and none of the separators `,` and `:`. */
  lemma IntToStringText(n: int)
    ensures NoSpace(IntToString(n)) && ':' !in IntToString(n) && ',' !in IntToString(n)
  {
    if n < 0 {
      var d := NatToString(-n);
      var s := IntToString(n);
      DigitsText(d);
      assert s == ['-'] + d;
      assert forall i :: 1 <= i < |s| ==> s[i] == d[i - 1];
    } else {
      DigitsText(NatToString(n));
    }
  }

  /** A character in neither part nor the separator is not in their join. */
  lemma NotInJoined(a: string, sep: char, b: string, x: char)
    requires x != sep && x !in a && x !in b
    ensures x !in a + [sep] + b
  {
  }

  /** `a + sep + b` for two texts free of whitespace and of `sep`: it strips
      to itself and splits on `sep` into `a` and `b`. */
  lemma JoinedText(a: string, sep: char, b: string)
    requires NoSpace(a) && NoSpace(b) && !IsSpace(sep)
    requires sep !in a && sep !in b
    ensures NoSpace(a + [sep] + b) && sep in a + [sep] + b
    ensures Strip(a + [sep] + b) == a + [sep] + b
    ensures Split(a + [sep] + b, sep) == [a, b]
  {
    var t := a + [sep] + b;
    assert t[|a|] == sep;
    assert forall i :: 0 <= i < |t| ==> t[i] == sep || t[i] in a || t[i] in b;
    StripNoSpace(t);
    SplitAfterPiece(a, sep, b);
    NoSeparator(b, sep);
  }
}
