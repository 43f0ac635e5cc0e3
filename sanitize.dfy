/** `sanitize_filename`, which turns the exam type and date into a file name:
    characters outside an allowed class become `_`, each whitespace run
    becomes one `_`, underscores are trimmed from both ends, and an empty
    result becomes `untitled`.

    The class is that of XML name characters: four ranges of non-ASCII
    letters, `\w`, `\s`, `.` and `-`. Python's `\w` (Unicode letters, digits
    and `_`) is not written out here; it is the parameter `isWord`, of which
    only what `PythonWord` says is assumed. */
module Sanitize {
  import opened PyText

  /** What the model needs of `\w`: it matches `_` and the ASCII letters and
      digits. */
  ghost predicate PythonWord(isWord: char -> bool)
  {
    isWord('_') && forall c: char :: ('a' <= c <= 'z' || 'A' <= c <= 'Z' || '0' <= c <= '9') ==> isWord(c)
  }

  /** The first character of the third range as the source has it, U+8C48,
      and as the XML name-character class has it, U+F900, the compatibility
      ideograph that canonical normalisation rewrites to U+8C48. */
  const AsWrittenStart: char := '\U{8C48}'
  const IntendedStart: char := '\U{F900}'

  /** The allowed class, with the third range starting at `start`. */
  predicate KeptBy(c: char, isWord: char -> bool, start: char)
  {
    ('\U{00C0}' <= c <= '\U{1FFF}') || ('\U{2C00}' <= c <= '\U{D7FF}') || (start <= c <= '\U{FDCF}')
    || ('\U{FDF0}' <= c <= '\U{FFFD}') || isWord(c) || IsSpace(c) || c == '.' || c == '-'
  }

  predicate AllKept(s: string, isWord: char -> bool, start: char)
  {
    forall i :: 0 <= i < |s| ==> KeptBy(s[i], isWord, start)
  }

  /** The first `re.sub`: every character outside the class becomes `_`. */
  function Replace(s: string, isWord: char -> bool, start: char): string
  {
    seq(|s|, i requires 0 <= i < |s| => if KeptBy(s[i], isWord, start) then s[i] else '_')
  }

  /** `re.sub(r'\s+', '_', s)`, one character at a time; `inRun` says that
      the previous character was whitespace. */
  function Collapse(s: string, inRun: bool): string
  {
    if s == [] then []
    else if IsSpace(s[0]) then (if inRun then [] else "_") + Collapse(s[1..], true)
    else [s[0]] + Collapse(s[1..], false)
  }

  function TrimLeft(s: string): string
  {
    if s != [] && s[0] == '_' then TrimLeft(s[1..]) else s
  }

  function TrimRight(s: string): string
  {
    if s != [] && s[|s| - 1] == '_' then TrimRight(s[..|s| - 1]) else s
  }

  function SanitizeWith(name: string, isWord: char -> bool, start: char): (r: string)
    ensures r != []
  {
    var t := TrimRight(TrimLeft(Collapse(Replace(name, isWord, start), false)));
    if t == [] then "untitled" else t
  }

  /** `sanitize_filename` with the class as intended; the rest of the model
      uses this one. */
  function SanitizeFilename(name: string, isWord: char -> bool): (r: string)
    ensures r != []
  {
    SanitizeWith(name, isWord, IntendedStart)
  }

  /** `sanitize_filename` with the class exactly as written. */
  function SanitizeAsWritten(name: string, isWord: char -> bool): (r: string)
    ensures r != []
  {
    SanitizeWith(name, isWord, AsWrittenStart)
  }

  /** A name the function leaves alone: not empty, free of whitespace, not
      starting or ending with `_`, and made of allowed characters only. */
  predicate Clean(t: string, isWord: char -> bool, start: char)
  {
    t != [] && NoSpace(t) && t[0] != '_' && t[|t| - 1] != '_' && AllKept(t, isWord, start)
  }

  // ---------------------------------------------------------------- steps

  lemma ReplaceKeeps(s: string, isWord: char -> bool, start: char)
    requires isWord('_')
    ensures AllKept(Replace(s, isWord, start), isWord, start)
  {
  }

  lemma ReplaceClean(s: string, isWord: char -> bool, start: char)
    requires AllKept(s, isWord, start)
    ensures Replace(s, isWord, start) == s
  {
  }

  /** Text free of whitespace all of whose characters satisfy `p`. */
  predicate SpaceFree(r: string, p: char -> bool)
  {
    NoSpace(r) && forall i :: 0 <= i < |r| ==> p(r[i])
  }

  lemma SpaceFreeAppend(a: string, b: string, p: char -> bool)
    requires SpaceFree(a, p) && SpaceFree(b, p)
    ensures SpaceFree(a + b, p)
  {
    assert forall i :: |a| <= i < |a + b| ==> (a + b)[i] == b[i - |a|];
  }

  /** Collapsing leaves no whitespace and brings in only `_`: whatever
      holds of `_` and of every character of the input holds of every
      character of the output. */
  lemma {:induction false} CollapseKeeps(s: string, inRun: bool, p: char -> bool)
    requires p('_') && forall i :: 0 <= i < |s| ==> p(s[i])
    ensures SpaceFree(Collapse(s, inRun), p)
  {
    if s != [] {
      var t := s[1..];
      assert forall i :: 0 <= i < |t| ==> t[i] == s[i + 1];
      CollapseKeeps(t, IsSpace(s[0]), p);
      var head: string := if IsSpace(s[0]) then (if inRun then [] else "_") else [s[0]];
      assert Collapse(s, inRun) == head + Collapse(t, IsSpace(s[0]));
      assert SpaceFree(head, p);
      SpaceFreeAppend(head, Collapse(t, IsSpace(s[0])), p);
    }
  }

  lemma {:induction false} CollapseNoSpace(s: string, inRun: bool)
    requires NoSpace(s)
    ensures Collapse(s, inRun) == s
  {
    if s != [] {
      CollapseNoSpace(s[1..], false);
    }
  }

  /** `TrimLeft` drops the leading underscores and nothing else. */
  lemma {:induction false} TrimLeftShape(s: string)
    ensures var r := TrimLeft(s); |r| <= |s| && r == s[|s| - |r|..] && (r == [] || r[0] != '_')
    ensures var r := TrimLeft(s); forall i :: 0 <= i < |s| - |r| ==> s[i] == '_'
  {
    if s != [] && s[0] == '_' {
      TrimLeftShape(s[1..]);
      var r := TrimLeft(s[1..]);
      assert s[1..][|s| - 1 - |r|..] == s[|s| - |r|..];
    }
  }

  /** `TrimRight` drops the trailing underscores and nothing else. */
  lemma {:induction false} TrimRightShape(s: string)
    ensures var r := TrimRight(s); |r| <= |s| && r == s[..|r|] && (r == [] || r[|r| - 1] != '_')
    ensures var r := TrimRight(s); forall i :: |r| <= i < |s| ==> s[i] == '_'
  {
    if s != [] && s[|s| - 1] == '_' {
      var t := s[..|s| - 1];
      TrimRightShape(t);
      var r := TrimRight(t);
      assert t[..|r|] == s[..|r|];
    }
  }

  lemma SliceKeeps(s: string, i: int, j: int, isWord: char -> bool, start: char)
    requires 0 <= i <= j <= |s| && NoSpace(s) && AllKept(s, isWord, start)
    ensures NoSpace(s[i..j]) && AllKept(s[i..j], isWord, start)
  {
    assert forall k :: 0 <= k < j - i ==> s[i..j][k] == s[i + k];
  }

  // ---------------------------------------------------------------- properties

  /** The result is always clean. */
  lemma SanitizeClean(name: string, isWord: char -> bool, start: char)
    requires PythonWord(isWord)
    ensures Clean(SanitizeWith(name, isWord, start), isWord, start)
  {
    var a := Replace(name, isWord, start);
    ReplaceKeeps(name, isWord, start);
    var b := Collapse(a, false);
    var kept := c => KeptBy(c, isWord, start);
    CollapseKeeps(a, false, kept);
    var c := TrimLeft(b);
    TrimLeftShape(b);
    SliceKeeps(b, |b| - |c|, |b|, isWord, start);
    var d := TrimRight(c);
    TrimRightShape(c);
    SliceKeeps(c, 0, |d|, isWord, start);
    if d == [] {
      var u := "untitled";
      assert forall i :: 0 <= i < |u| ==> 'a' <= u[i] <= 'z';
    } else {
      assert d[0] == c[0];
    }
  }

  /** A clean name is left as it is. */
  lemma SanitizeFixes(t: string, isWord: char -> bool, start: char)
    requires Clean(t, isWord, start)
    ensures SanitizeWith(t, isWord, start) == t
  {
    ReplaceClean(t, isWord, start);
    CollapseNoSpace(t, false);
  }

  /** Sanitising twice is sanitising once, whichever start the third range
      has: with the class as intended and with the class as written. */
  lemma SanitizeIdempotent(name: string, isWord: char -> bool, start: char)
    requires PythonWord(isWord)
    ensures SanitizeWith(SanitizeWith(name, isWord, start), isWord, start) == SanitizeWith(name, isWord, start)
  {
    SanitizeClean(name, isWord, start);
    SanitizeFixes(SanitizeWith(name, isWord, start), isWord, start);
  }

  /** A single character outside the class is replaced, and the lone `_`
      left is trimmed away. */
  lemma OutsideReplaced(c: char, isWord: char -> bool)
    requires !KeptBy(c, isWord, IntendedStart) && PythonWord(isWord)
    ensures SanitizeFilename([c], isWord) == "untitled"
  {
    assert Replace([c], isWord, IntendedStart) == "_";
    assert Collapse("_", false) == "_" by {
      assert "_"[1..] == [];
    }
    assert TrimLeft("_") == [] by {
      assert "_"[1..] == [];
    }
  }

  /** The third range as written starts at U+8C48, so it takes in the private
      use area U+E000 to U+F8FF, which is neither a letter nor a digit: a
      private-use character survives as written and is replaced when the
      range starts at U+F900. */
  lemma PrivateUseKept(isWord: char -> bool)
    requires !isWord('\U{E000}') && PythonWord(isWord)
    ensures SanitizeAsWritten("\U{E000}", isWord) == "\U{E000}"
    ensures SanitizeFilename("\U{E000}", isWord) == "untitled"
  {
    var s := "\U{E000}";
    assert Replace(s, isWord, AsWrittenStart) == s;
    assert Collapse(s, false) == s by {
      assert s[1..] == [];
    }
    OutsideReplaced('\U{E000}', isWord);
  }

  // ---------------------------------------------------------------- file names

  /** `f"{sanitize_filename(exam_type)}_{sanitize_filename(exam_date)}"`
      followed by `.pdf` or `.zip`, with the third range starting at
      `start`. */
  function OutputNameWith(examType: string, examDate: string, extension: string, isWord: char -> bool, start: char): string
  {
    SanitizeWith(examType, isWord, start) + "_" + SanitizeWith(examDate, isWord, start) + extension
  }

  /** The download name with the class as intended; the rest of the model
      uses this one. */
  function OutputName(examType: string, examDate: string, extension: string, isWord: char -> bool): string
  {
    OutputNameWith(examType, examDate, extension, isWord, IntendedStart)
  }

  /** The name's stem is itself clean: sanitising it again changes nothing.
      This holds for the class as written as well as for the class as
      intended. */
  lemma OutputStemClean(examType: string, examDate: string, extension: string, isWord: char -> bool, start: char)
    requires PythonWord(isWord)
    ensures var n := OutputNameWith(examType, examDate, extension, isWord, start);
            var stem := n[..|n| - |extension|];
            n == stem + extension && SanitizeWith(stem, isWord, start) == stem
  {
    var a, b := SanitizeWith(examType, isWord, start), SanitizeWith(examDate, isWord, start);
    SanitizeClean(examType, isWord, start);
    SanitizeClean(examDate, isWord, start);
    var stem := a + "_" + b;
    var n := OutputNameWith(examType, examDate, extension, isWord, start);
    assert n == stem + extension;
    assert n[..|n| - |extension|] == stem;
    assert forall i :: 0 <= i < |stem| ==> stem[i] == (if i < |a| then a[i] else if i == |a| then '_' else b[i - |a| - 1]);
    assert Clean(stem, isWord, start);
    SanitizeFixes(stem, isWord, start);
  }
}
