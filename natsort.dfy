/** `natural_sort_key` and the stable sort of the upload list by it.

    The key of a name is the list `re.split(r'(\d+)', name)` with each digit
    run read as an integer and every other piece lower-cased. Python compares
    two such lists element by element; the pieces alternate text and digits,
    so equal positions always hold pieces of the same kind and the comparison
    never meets a string against an integer. */
module NatSort {
  import opened PyText
  import opened Uploads

  // ---------------------------------------------------------------- re.split(r'(\d+)', s)

  /** `re.split(r'(\d+)', s)`: the text before the first digit run, the run,
      the text up to the next run, and so on, ending with the (possibly
      empty) text after the last run. Written one character at a time: a
      non-digit joins the leading text piece of the split of the rest; a
      digit starts the leading digit run, prefixing the run the rest begins
      with, if any, or standing alone in front of the rest's text. */
  function Runs(s: string): (r: seq<string>)
    ensures |r| >= 1
  {
    if s == [] then [[]]
    else
      var rest := Runs(s[1..]);
      if !IsDigit(s[0]) then [[s[0]] + rest[0]] + rest[1..]
      else if rest[0] == [] && |rest| > 1 then [[], [s[0]] + rest[1]] + rest[2..]
      else [[], [s[0]]] + rest
  }

  function Concat(pieces: seq<string>): string
  {
    if pieces == [] then [] else pieces[0] + Concat(pieces[1..])
  }

  predicate NoDigit(s: string) { forall j :: 0 <= j < |s| ==> !IsDigit(s[j]) }

  /** The pieces of `re.split` alternate: an odd number of them, text without
      digits at even positions and non-empty digit runs at odd positions. */
  predicate Alternating(pieces: seq<string>)
  {
    |pieces| % 2 == 1
    && (forall i :: 0 <= i < |pieces| && i % 2 == 0 ==> NoDigit(pieces[i]))
    && (forall i :: 0 <= i < |pieces| && i % 2 == 1 ==> pieces[i] != [] && AllDigits(pieces[i]))
  }

  lemma AlternatingCons(p: string, q: string, rest: seq<string>)
    requires NoDigit(p) && q != [] && AllDigits(q) && Alternating(rest)
    ensures Alternating([p, q] + rest)
  {
    var r := [p, q] + rest;
    assert forall i :: 2 <= i < |r| ==> r[i] == rest[i - 2];
  }

  lemma AlternatingHead(p: string, rest: seq<string>)
    requires NoDigit(p) && Alternating(rest)
    ensures Alternating([p] + rest[1..])
  {
    var r := [p] + rest[1..];
    assert forall i :: 1 <= i < |r| ==> r[i] == rest[i];
  }

  lemma AlternatingDrop(rest: seq<string>)
    requires Alternating(rest) && |rest| > 1
    ensures Alternating(rest[2..])
  {
    var r := rest[2..];
    assert forall i :: 0 <= i < |r| ==> r[i] == rest[i + 2];
  }

  lemma ConcatCons(p: string, q: string, rest: seq<string>)
    ensures Concat([p, q] + rest) == p + (q + Concat(rest))
  {
    var r := [p, q] + rest;
    assert r[1..] == [q] + rest;
    assert r[1..][1..] == rest;
  }

  lemma ConcatHead(p: string, rest: seq<string>)
    requires rest != []
    ensures Concat([p] + rest[1..]) == p + Concat(rest[1..])
  {
    assert ([p] + rest[1..])[1..] == rest[1..];
  }

  /** The digit runs are maximal: `\d+` matches greedily, so two runs are
      always parted by some text, and only the first and the last text
      piece can be empty. */
  predicate Maximal(pieces: seq<string>)
  {
    forall i :: 0 < i < |pieces| - 1 && i % 2 == 0 ==> pieces[i] != []
  }

  /** The pieces alternate, their digit runs are maximal, and put back
      together they give `s`. */
  lemma {:induction false} RunsShape(s: string)
    ensures Alternating(Runs(s))
    ensures Maximal(Runs(s))
    ensures Concat(Runs(s)) == s
  {
    if s != [] {
      RunsShape(s[1..]);
      RunsStep(s[0], s[1..], Runs(s[1..]));
      RunsMaximalStep(s[0], s[1..], Runs(s[1..]));
      assert [s[0]] + s[1..] == s;
    }
  }

  /** One step of the maximality half of `RunsShape`. */
  lemma RunsMaximalStep(c: char, tail: string, rest: seq<string>)
    requires rest == Runs(tail) && Maximal(rest)
    ensures Maximal(Runs([c] + tail))
  {
    assert ([c] + tail)[1..] == tail;
    var r := Runs([c] + tail);
    if !IsDigit(c) {
      assert forall i :: 1 <= i < |r| ==> r[i] == rest[i];
    } else if rest[0] == [] && |rest| > 1 {
      assert forall i :: 2 <= i < |r| ==> r[i] == rest[i];
    } else {
      assert forall i :: 2 <= i < |r| ==> r[i] == rest[i - 2];
    }
  }

  /** One step of `RunsShape`, over the split `rest` of the tail. */
  lemma RunsStep(c: char, tail: string, rest: seq<string>)
    requires rest == Runs(tail) && Alternating(rest) && Concat(rest) == tail
    ensures Alternating(Runs([c] + tail)) && Concat(Runs([c] + tail)) == [c] + tail
  {
    assert ([c] + tail)[1..] == tail;
    assert Concat(rest) == rest[0] + Concat(rest[1..]);
    if !IsDigit(c) {
      AlternatingHead([c] + rest[0], rest);
      ConcatHead([c] + rest[0], rest);
    } else if rest[0] == [] && |rest| > 1 {
      AlternatingDrop(rest);
      AlternatingCons([], [c] + rest[1], rest[2..]);
      ConcatCons([], [c] + rest[1], rest[2..]);
      ConcatCons([], rest[1], rest[2..]);
      assert rest == [[], rest[1]] + rest[2..];
    } else {
      AlternatingCons([], [c], rest);
      ConcatCons([], [c], rest);
    }
  }

  // ---------------------------------------------------------------- the key

  datatype KeyPart = Text(text: string) | Num(value: nat)

  /** One piece of the split, as the comprehension turns it into a key
      element: `int(text) if text.isdigit() else text.lower()`. */
  function PieceKey(piece: string): KeyPart
  {
    if piece != [] && AllDigits(piece) then Num(DigitsValue(piece)) else Text(LowerString(piece))
  }

  function NaturalKey(name: string): (key: seq<KeyPart>)
    ensures |key| == |Runs(name)|
    ensures forall i :: 0 <= i < |key| ==> key[i] == PieceKey(Runs(name)[i])
  {
    var pieces := Runs(name);
    seq(|pieces|, i requires 0 <= i < |pieces| => PieceKey(pieces[i]))
  }

  /** The key alternates: text at even positions, numbers at odd ones. */
  predicate KeyAlternates(key: seq<KeyPart>)
  {
    forall i :: 0 <= i < |key| ==> key[i].Num? == (i % 2 == 1)
  }

  lemma NaturalKeyAlternates(name: string)
    ensures |NaturalKey(name)| % 2 == 1
    ensures KeyAlternates(NaturalKey(name))
  {
    RunsShape(name);
    var pieces := Runs(name);
    var key := NaturalKey(name);
    forall i | 0 <= i < |key|
      ensures key[i].Num? == (i % 2 == 1)
    {
      if i % 2 == 0 && pieces[i] != [] {
        assert !IsDigit(pieces[i][0]);
      }
    }
  }

  // ---------------------------------------------------------------- case

  lemma LowerSlice(s: string, i: int, j: int)
    requires 0 <= i <= j <= |s|
    ensures LowerString(s)[i..j] == LowerString(s[i..j])
  {
  }

  lemma LowerCons(c: char, p: string)
    ensures LowerString([c] + p) == [Lower(c)] + LowerString(p)
  {
  }

  /** `lower` holds each piece of `pieces` lower-cased. */
  predicate LowerPieces(lower: seq<string>, pieces: seq<string>)
  {
    |lower| == |pieces| && forall i :: 0 <= i < |pieces| ==> lower[i] == LowerString(pieces[i])
  }

  lemma LowerPiecesCons(lp: string, lq: string, lower: seq<string>, p: string, q: string, pieces: seq<string>)
    requires lp == LowerString(p) && lq == LowerString(q) && LowerPieces(lower, pieces)
    ensures LowerPieces([lp, lq] + lower, [p, q] + pieces)
  {
    var a, b := [lp, lq] + lower, [p, q] + pieces;
    assert forall i :: 2 <= i < |b| ==> a[i] == lower[i - 2] && b[i] == pieces[i - 2];
  }

  lemma LowerPiecesHead(lp: string, lower: seq<string>, p: string, pieces: seq<string>)
    requires lp == LowerString(p) && LowerPieces(lower, pieces) && pieces != []
    ensures LowerPieces([lp] + lower[1..], [p] + pieces[1..])
  {
    var a, b := [lp] + lower[1..], [p] + pieces[1..];
    assert forall i :: 1 <= i < |b| ==> a[i] == lower[i] && b[i] == pieces[i];
  }

  lemma LowerPiecesDrop(lower: seq<string>, pieces: seq<string>)
    requires LowerPieces(lower, pieces) && |pieces| > 1
    ensures LowerPieces(lower[2..], pieces[2..])
  {
    assert forall i :: 0 <= i < |pieces| - 2 ==> lower[2..][i] == lower[i + 2] && pieces[2..][i] == pieces[i + 2];
  }

  /** Lower-casing a name lower-cases each piece of its split and moves no
      boundary. */
  lemma {:induction false} RunsLower(s: string)
    ensures LowerPieces(Runs(LowerString(s)), Runs(s))
  {
    if s != [] {
      var c, l := s[0], LowerString(s);
      LowerSlice(s, 1, |s|);
      assert l[1..] == LowerString(s[1..]);
      RunsLower(s[1..]);
      var rest, lrest := Runs(s[1..]), Runs(l[1..]);
      assert LowerPieces(lrest, rest);
      assert l[0] == Lower(c) && IsDigit(Lower(c)) == IsDigit(c);
      assert (lrest[0] == []) == (rest[0] == []);
      if !IsDigit(c) {
        LowerCons(c, rest[0]);
        LowerPiecesHead([Lower(c)] + lrest[0], lrest, [c] + rest[0], rest);
      } else if rest[0] == [] && |rest| > 1 {
        LowerCons(c, rest[1]);
        LowerPiecesDrop(lrest, rest);
        LowerPiecesCons([], [Lower(c)] + lrest[1], lrest[2..], [], [c] + rest[1], rest[2..]);
      } else {
        LowerCons(c, []);
        LowerPiecesCons([], [Lower(c)], lrest, [], [c], rest);
      }
    }
  }

  lemma PieceKeyLower(p: string)
    ensures PieceKey(LowerString(p)) == PieceKey(p)
  {
    var l := LowerString(p);
    if p != [] && AllDigits(p) {
      assert l == p;
    } else {
      assert LowerString(l) == l;
    }
  }

  /** The key ignores the case of ASCII letters: `natural_sort_key` lower-
      cases every text piece, so a name and its lower-cased form sort alike. */
  lemma NaturalKeyIgnoresCase(name: string)
    ensures NaturalKey(LowerString(name)) == NaturalKey(name)
  {
    RunsLower(name);
    var a, b := NaturalKey(LowerString(name)), NaturalKey(name);
    forall i | 0 <= i < |a|
      ensures a[i] == b[i]
    {
      PieceKeyLower(Runs(name)[i]);
    }
  }

  // ---------------------------------------------------------------- comparison

  /** Python's `<` on strings: lexicographic by code point, a proper prefix
      before the longer string. */
  function StrLess(a: string, b: string): bool
  {
    if a == [] then b != []
    else if b == [] then false
    else if a[0] != b[0] then a[0] < b[0]
    else StrLess(a[1..], b[1..])
  }

  /** `<` on two key elements of the same kind. Python raises on a string
      against an integer; `Comparable` keys never reach that case. */
  function PartLess(x: KeyPart, y: KeyPart): bool
  {
    match (x, y)
    case (Text(a), Text(b)) => StrLess(a, b)
    case (Num(m), Num(n)) => m < n
    case _ => false
  }

  /** Python's `<` on lists: decided at the first position where the
      elements differ, and a proper prefix comes first. */
  function KeyLess(a: seq<KeyPart>, b: seq<KeyPart>): bool
  {
    if a == [] then b != []
    else if b == [] then false
    else if a[0] != b[0] then PartLess(a[0], b[0])
    else KeyLess(a[1..], b[1..])
  }

  /** At every position both keys have, the elements are of the same kind. */
  predicate Comparable(a: seq<KeyPart>, b: seq<KeyPart>)
  {
    forall i :: 0 <= i < |a| && i < |b| ==> a[i].Num? == b[i].Num?
  }

  lemma NaturalKeysComparable(x: string, y: string)
    ensures Comparable(NaturalKey(x), NaturalKey(y))
  {
    NaturalKeyAlternates(x);
    NaturalKeyAlternates(y);
  }

  lemma {:induction false} StrLessIrreflexive(a: string)
    ensures !StrLess(a, a)
  {
    if a != [] {
      StrLessIrreflexive(a[1..]);
    }
  }

  lemma {:induction false} StrLessTransitive(a: string, b: string, c: string)
    requires StrLess(a, b) && StrLess(b, c)
    ensures StrLess(a, c)
  {
    if a != [] && a[0] == b[0] && b[0] == c[0] {
      StrLessTransitive(a[1..], b[1..], c[1..]);
    }
  }

  lemma {:induction false} StrLessTotal(a: string, b: string)
    requires a != b
    ensures StrLess(a, b) || StrLess(b, a)
  {
    if a != [] && b != [] && a[0] == b[0] {
      assert a == [a[0]] + a[1..] && b == [b[0]] + b[1..];
      StrLessTotal(a[1..], b[1..]);
    }
  }

  lemma {:induction false} KeyLessIrreflexive(a: seq<KeyPart>)
    ensures !KeyLess(a, a)
  {
    if a != [] {
      KeyLessIrreflexive(a[1..]);
    }
  }

  lemma PartLessTransitive(x: KeyPart, y: KeyPart, z: KeyPart)
    requires x.Num? == y.Num? && y.Num? == z.Num?
    requires PartLess(x, y) && PartLess(y, z)
    ensures PartLess(x, z)
  {
    if x.Text? {
      StrLessTransitive(x.text, y.text, z.text);
    }
  }

  lemma PartLessAsymmetric(x: KeyPart, y: KeyPart)
    requires PartLess(x, y)
    ensures !PartLess(y, x)
  {
    if x.Text? {
      if StrLess(y.text, x.text) {
        StrLessTransitive(x.text, y.text, x.text);
        StrLessIrreflexive(x.text);
      }
    }
  }

  /** Comparison of comparable keys is transitive. */
  lemma {:induction false} KeyLessTransitive(a: seq<KeyPart>, b: seq<KeyPart>, c: seq<KeyPart>)
    requires Comparable(a, b) && Comparable(b, c) && Comparable(a, c)
    requires KeyLess(a, b) && KeyLess(b, c)
    ensures KeyLess(a, c)
  {
    if a != [] && b != [] && c != [] {
      if a[0] != b[0] && b[0] != c[0] {
        PartLessTransitive(a[0], b[0], c[0]);
        if a[0] == c[0] {
          PartLessAsymmetric(a[0], b[0]);
        }
      } else if a[0] == b[0] && b[0] == c[0] {
        KeyLessTransitive(a[1..], b[1..], c[1..]);
      }
    }
  }

  /** Comparable keys that differ are ordered one way or the other. */
  lemma {:induction false} KeyLessTotal(a: seq<KeyPart>, b: seq<KeyPart>)
    requires Comparable(a, b) && a != b
    ensures KeyLess(a, b) || KeyLess(b, a)
  {
    if a != [] && b != [] {
      if a[0] != b[0] {
        if a[0].Text? {
          StrLessTotal(a[0].text, b[0].text);
        }
      } else {
        assert a == [a[0]] + a[1..] && b == [b[0]] + b[1..];
        KeyLessTotal(a[1..], b[1..]);
      }
    }
  }

  // ---------------------------------------------------------------- the stable sort

  /** The key the upload list is sorted by: the natural key of the file name. */
  function NameKey(u: Upload): seq<KeyPart>
  {
    NaturalKey(u.name)
  }

  /** Every key `key` gives alternates text and numbers, so that any two of
      them are comparable. */
  ghost predicate AlternatingKeys(key: Upload -> seq<KeyPart>)
  {
    forall u :: KeyAlternates(key(u))
  }

  lemma NameKeyAlternates()
    ensures AlternatingKeys(NameKey)
  {
    forall u: Upload
      ensures KeyAlternates(NameKey(u))
    {
      NaturalKeyAlternates(u.name);
    }
  }

  /** The sort's `<` on uploads: by the key of each. */
  predicate Before(key: Upload -> seq<KeyPart>, u: Upload, v: Upload)
  {
    KeyLess(key(u), key(v))
  }

  lemma BeforeTransitive(key: Upload -> seq<KeyPart>, u: Upload, v: Upload, w: Upload)
    requires AlternatingKeys(key)
    requires Before(key, u, v) && Before(key, v, w)
    ensures Before(key, u, w)
  {
    assert KeyAlternates(key(u)) && KeyAlternates(key(v)) && KeyAlternates(key(w));
    KeyLessTransitive(key(u), key(v), key(w));
  }

  lemma BeforeIrreflexive(key: Upload -> seq<KeyPart>, u: Upload)
    ensures !Before(key, u, u)
  {
    KeyLessIrreflexive(key(u));
  }

  /** Uploads with different keys are ordered one way or the other. */
  lemma BeforeTotal(key: Upload -> seq<KeyPart>, u: Upload, v: Upload)
    requires AlternatingKeys(key)
    requires key(u) != key(v)
    ensures Before(key, u, v) || Before(key, v, u)
  {
    assert KeyAlternates(key(u)) && KeyAlternates(key(v));
    KeyLessTotal(key(u), key(v));
  }

  /** `x` placed after every element it is not less than: before the first
      element it is less than. */
  function Insert(x: Upload, s: seq<Upload>, key: Upload -> seq<KeyPart>): seq<Upload>
  {
    if s == [] then [x]
    else if Before(key, x, s[0]) then [x] + s
    else [s[0]] + Insert(x, s[1..], key)
  }

  /** `list.sort(key=key)`, as an insertion sort: Python's sort is stable,
      and so is this one. */
  function SortBy(s: seq<Upload>, key: Upload -> seq<KeyPart>): seq<Upload>
  {
    if s == [] then [] else Insert(s[|s| - 1], SortBy(s[..|s| - 1], key), key)
  }

  /** `files.sort(key=lambda f: natural_sort_key(f['name']))`. */
  function SortByName(s: seq<Upload>): seq<Upload>
  {
    SortBy(s, NameKey)
  }

  predicate Sorted(s: seq<Upload>, key: Upload -> seq<KeyPart>)
  {
    forall i, j :: 0 <= i < j < |s| ==> !Before(key, s[j], s[i])
  }

  lemma SortedTail(s: seq<Upload>, key: Upload -> seq<KeyPart>)
    requires Sorted(s, key) && s != []
    ensures Sorted(s[1..], key)
  {
    var t := s[1..];
    forall i, j | 0 <= i < j < |t|
      ensures !Before(key, t[j], t[i])
    {
      assert t[i] == s[i + 1] && t[j] == s[j + 1];
    }
  }

  lemma {:induction false} InsertPermutes(x: Upload, s: seq<Upload>, key: Upload -> seq<KeyPart>)
    ensures multiset(Insert(x, s, key)) == multiset(s) + multiset{x}
  {
    if s != [] && !Before(key, x, s[0]) {
      InsertPermutes(x, s[1..], key);
      assert s == [s[0]] + s[1..];
    }
  }

  lemma {:induction false} InsertSorted(x: Upload, s: seq<Upload>, key: Upload -> seq<KeyPart>)
    requires AlternatingKeys(key)
    requires Sorted(s, key)
    ensures Sorted(Insert(x, s, key), key)
    decreases |s|
  {
    if s != [] {
      var r := Insert(x, s, key);
      if Before(key, x, s[0]) {
        forall j | 0 <= j < |s|
          ensures !Before(key, s[j], x)
        {
          if Before(key, s[j], x) {
            BeforeTransitive(key, s[j], x, s[0]);
            if j == 0 {
              BeforeIrreflexive(key, s[0]);
            }
            assert false;
          }
        }
        forall i, j | 0 <= i < j < |r|
          ensures !Before(key, r[j], r[i])
        {
          assert r[j] == s[j - 1];
          if i > 0 {
            assert r[i] == s[i - 1];
          }
        }
      } else {
        var t := s[1..];
        var tail := Insert(x, t, key);
        SortedTail(s, key);
        InsertSorted(x, t, key);
        InsertPermutes(x, t, key);
        forall j | 0 <= j < |tail|
          ensures !Before(key, tail[j], s[0])
        {
          assert tail[j] in multiset(tail);
          if tail[j] != x {
            assert tail[j] in multiset(t);
            var k :| 0 <= k < |t| && t[k] == tail[j];
            assert s[k + 1] == tail[j];
          }
        }
        assert r == [s[0]] + tail;
        forall i, j | 0 <= i < j < |r|
          ensures !Before(key, r[j], r[i])
        {
          assert r[j] == tail[j - 1];
          if i > 0 {
            assert r[i] == tail[i - 1];
          }
        }
      }
    }
  }

  lemma {:induction false} SortBySorted(s: seq<Upload>, key: Upload -> seq<KeyPart>)
    requires AlternatingKeys(key)
    ensures Sorted(SortBy(s, key), key)
  {
    if s != [] {
      SortBySorted(s[..|s| - 1], key);
      InsertSorted(s[|s| - 1], SortBy(s[..|s| - 1], key), key);
    }
  }

  lemma {:induction false} SortByPermutes(s: seq<Upload>, key: Upload -> seq<KeyPart>)
    ensures multiset(SortBy(s, key)) == multiset(s)
  {
    if s != [] {
      SortByPermutes(s[..|s| - 1], key);
      InsertPermutes(s[|s| - 1], SortBy(s[..|s| - 1], key), key);
      assert s == s[..|s| - 1] + [s[|s| - 1]];
    }
  }

  /** The uploads of `s` whose key is `k`, in order. */
  function WithKey(s: seq<Upload>, key: Upload -> seq<KeyPart>, k: seq<KeyPart>): seq<Upload>
  {
    if s == [] then []
    else (if key(s[0]) == k then [s[0]] else []) + WithKey(s[1..], key, k)
  }

  lemma {:induction false} WithKeyAppend(a: seq<Upload>, b: seq<Upload>, key: Upload -> seq<KeyPart>, k: seq<KeyPart>)
    ensures WithKey(a + b, key, k) == WithKey(a, key, k) + WithKey(b, key, k)
  {
    if a != [] {
      var head := if key(a[0]) == k then [a[0]] else [];
      assert (a + b)[0] == a[0];
      assert (a + b)[1..] == a[1..] + b;
      WithKeyAppend(a[1..], b, key, k);
      assert WithKey(a + b, key, k) == head + WithKey(a[1..] + b, key, k);
      assert WithKey(a, key, k) == head + WithKey(a[1..], key, k);
    } else {
      assert a + b == b;
    }
  }

  /** In a sorted list whose head comes after `x`, no upload has `x`'s key. */
  lemma {:induction false} NoEqualKeyAfter(x: Upload, s: seq<Upload>, key: Upload -> seq<KeyPart>)
    requires AlternatingKeys(key)
    requires Sorted(s, key) && s != [] && Before(key, x, s[0])
    ensures WithKey(s, key, key(x)) == []
    decreases |s|
  {
    if key(s[0]) == key(x) {
      BeforeIrreflexive(key, x);
      assert false;
    }
    if |s| > 1 {
      var t := s[1..];
      if !Before(key, x, t[0]) {
        if key(t[0]) != key(x) {
          BeforeTotal(key, x, t[0]);
          BeforeTransitive(key, t[0], x, s[0]);
        }
        assert false;
      }
      SortedTail(s, key);
      NoEqualKeyAfter(x, t, key);
    }
  }

  lemma {:induction false} InsertWithKey(x: Upload, s: seq<Upload>, key: Upload -> seq<KeyPart>, k: seq<KeyPart>)
    requires AlternatingKeys(key)
    requires Sorted(s, key)
    ensures WithKey(Insert(x, s, key), key, k) == WithKey(s, key, k) + (if key(x) == k then [x] else [])
    decreases |s|
  {
    if s == [] {
    } else if Before(key, x, s[0]) {
      WithKeyAppend([x], s, key, k);
      if key(x) == k {
        NoEqualKeyAfter(x, s, key);
      }
    } else {
      var t := s[1..];
      SortedTail(s, key);
      InsertWithKey(x, t, key, k);
      WithKeyAppend([s[0]], Insert(x, t, key), key, k);
      WithKeyAppend([s[0]], t, key, k);
      assert s == [s[0]] + t;
    }
  }

  /** Stability: the uploads sharing a key keep their input order. */
  lemma {:induction false} SortByStable(s: seq<Upload>, key: Upload -> seq<KeyPart>, k: seq<KeyPart>)
    requires AlternatingKeys(key)
    ensures WithKey(SortBy(s, key), key, k) == WithKey(s, key, k)
  {
    if s != [] {
      var init, last := s[..|s| - 1], s[|s| - 1];
      SortByStable(init, key, k);
      SortBySorted(init, key);
      InsertWithKey(last, SortBy(init, key), key, k);
      assert s == init + [last];
      WithKeyAppend(init, [last], key, k);
    }
  }

  /** The sorted upload list is in natural order of the names, holds the
      same uploads, and keeps uploads whose names have equal keys (such as
      "A1.png" and "a1.png") in upload order. */
  lemma SortByNameCorrect(s: seq<Upload>, k: seq<KeyPart>)
    ensures Sorted(SortByName(s), NameKey)
    ensures multiset(SortByName(s)) == multiset(s)
    ensures WithKey(SortByName(s), NameKey, k) == WithKey(s, NameKey, k)
  {
    NameKeyAlternates();
    SortBySorted(s, NameKey);
    SortByPermutes(s, NameKey);
    SortByStable(s, NameKey, k);
  }

  // ---------------------------------------------------------------- examples

  lemma RunsText(c: char, s: string)
    requires !IsDigit(c)
    ensures Runs([c] + s) == [[c] + Runs(s)[0]] + Runs(s)[1..]
  {
    assert ([c] + s)[1..] == s;
  }

  lemma RunsDigitJoins(c: char, s: string)
    requires IsDigit(c) && Runs(s)[0] == [] && |Runs(s)| > 1
    ensures Runs([c] + s) == [[], [c] + Runs(s)[1]] + Runs(s)[2..]
  {
    assert ([c] + s)[1..] == s;
  }

  lemma RunsDigitAlone(c: char, s: string)
    requires IsDigit(c) && !(Runs(s)[0] == [] && |Runs(s)| > 1)
    ensures Runs([c] + s) == [[], [c]] + Runs(s)
  {
    assert ([c] + s)[1..] == s;
  }

  lemma RunsP2()
    ensures Runs("p2") == ["p", "2", ""]
  {
    RunsDigitAlone('2', "");
    assert Runs("2") == ["", "2", ""] by { assert "2" == ['2'] + ""; }
    var r := Runs("2");
    RunsText('p', "2");
    assert "p2" == ['p'] + "2" && ['p'] + r[0] == "p" && r[1..] == ["2", ""];
  }

  lemma RunsP10()
    ensures Runs("p10") == ["p", "10", ""]
  {
    RunsDigitAlone('0', "");
    assert Runs("0") == ["", "0", ""] by { assert "0" == ['0'] + ""; }
    var r := Runs("0");
    RunsDigitJoins('1', "0");
    assert "10" == ['1'] + "0" && ['1'] + r[1] == "10" && r[2..] == [""];
    r := Runs("10");
    RunsText('p', "10");
    assert "p10" == ['p'] + "10" && ['p'] + r[0] == "p" && r[1..] == ["10", ""];
  }

  /** Digit-free text splits into itself alone. */
  lemma {:induction false} RunsNoDigit(q: string)
    requires NoDigit(q)
    ensures Runs(q) == [q]
  {
    if q != [] {
      assert forall j :: 0 <= j < |q[1..]| ==> q[1..][j] == q[j + 1];
      RunsNoDigit(q[1..]);
      assert !IsDigit(q[0]) && [q[0]] + q[1..] == q;
    }
  }

  /** A digit run followed by digit-free text splits into the run and the
      text. */
  lemma {:induction false} RunsDigitsThen(d: string, q: string)
    requires d != [] && AllDigits(d) && NoDigit(q)
    ensures Runs(d + q) == ["", d, q]
  {
    var t := d[1..];
    var s := d + q;
    assert s[0] == d[0] && IsDigit(s[0]) && s[1..] == t + q && [d[0]] + t == d;
    if t == [] {
      RunsNoDigit(q);
      assert t + q == q;
      var rest := Runs(q);
      assert Runs(s) == [[], [d[0]]] + rest;
      assert d == [d[0]] && rest == [q];
    } else {
      assert forall j :: 0 <= j < |t| ==> t[j] == d[j + 1];
      RunsDigitsThen(t, q);
      var rest := Runs(t + q);
      assert rest[0] == [] && |rest| > 1 && rest[2..] == [q];
      assert Runs(s) == [[], [d[0]] + rest[1]] + rest[2..];
    }
  }

  /** Digit-free text, one digit run and digit-free text split into those
      three pieces. */
  lemma {:induction false} RunsTextDigits(p: string, d: string, q: string)
    requires NoDigit(p) && d != [] && AllDigits(d) && NoDigit(q)
    ensures Runs(p + d + q) == [p, d, q]
  {
    if p == [] {
      assert p + d + q == d + q;
      RunsDigitsThen(d, q);
    } else {
      var t := p[1..];
      assert forall j :: 0 <= j < |t| ==> t[j] == p[j + 1];
      RunsTextDigits(t, d, q);
      var s := p + d + q;
      assert s[0] == p[0] && !IsDigit(s[0]) && s[1..] == t + d + q && [p[0]] + t == p;
      var rest := Runs(t + d + q);
      assert Runs(s) == [[p[0]] + rest[0]] + rest[1..];
    }
  }

  /** Names that differ only in one digit run sort by the run's value, not
      by its text: `img2.png` before `img10.png`, whatever the text around
      the run. */
  lemma NumbersCompareAsIntegers(p: string, d: string, e: string, q: string)
    requires NoDigit(p) && NoDigit(q)
    requires d != [] && AllDigits(d) && e != [] && AllDigits(e)
    requires DigitsValue(d) < DigitsValue(e)
    ensures KeyLess(NaturalKey(p + d + q), NaturalKey(p + e + q))
  {
    RunsTextDigits(p, d, q);
    RunsTextDigits(p, e, q);
    var a, b := NaturalKey(p + d + q), NaturalKey(p + e + q);
    assert a[0] == b[0] && a[1] == Num(DigitsValue(d)) && b[1] == Num(DigitsValue(e));
    assert a[1..][0] == a[1] && b[1..][0] == b[1];
  }

  /** "p2" sorts before "p10", though as plain strings it comes after. */
  lemma TwoBeforeTen()
    ensures KeyLess(NaturalKey("p2"), NaturalKey("p10"))
    ensures StrLess("p10", "p2")
  {
    RunsP2();
    RunsP10();
    assert DigitsValue("10") == 10;
    assert NaturalKey("p2")[1] == Num(2) && NaturalKey("p10")[1] == Num(10);
  }
}
