/** The session's upload list and the buttons that act on it: add the picked
    files to the batch, clear everything, remove one batch, generate the
    PDF, and export the archive. */
module Batches {
  import opened Base
  import opened Uploads
  import opened NatSort
  import opened Parsers
  import opened Numbering
  import opened Pagination
  import opened Pdf
  import opened Layout
  import opened Archive
  import opened Sanitize

  /** A file chosen in the uploader, as far as the model needs it. */
  datatype Picked = Picked(name: string, decodes: bool, scaledHeight: nat)

  function Names(s: seq<Upload>): seq<string>
  {
    seq(|s|, i requires 0 <= i < |s| => s[i].name)
  }

  /** No two uploads share a name. */
  predicate Distinct(s: seq<Upload>)
  {
    forall i, j :: 0 <= i < j < |s| ==> s[i].name != s[j].name
  }

  /** The uploads from position `from` on are numbered in batches of ten by
      their position. */
  predicate Batched(s: seq<Upload>, from: int)
  {
    forall j :: 0 <= j < |s| && from <= j ==> s[j].batch == j / 10 + 1
  }

  // ---------------------------------------------------------------- adding

  /** One turn of the add loop: a name already in the list is ignored; a new
      one is appended with batch `len // 10 + 1`. */
  function AddOne(s: seq<Upload>, p: Picked): seq<Upload>
  {
    if p.name in Names(s) then s else s + [Upload(p.name, |s| / 10 + 1, p.decodes, p.scaledHeight)]
  }

  /** The add loop over the picked files, in order. */
  function Added(s: seq<Upload>, ps: seq<Picked>): seq<Upload>
  {
    if ps == [] then s else AddOne(Added(s, ps[..|ps| - 1]), ps[|ps| - 1])
  }

  lemma AddOneFacts(s: seq<Upload>, p: Picked, from: int)
    requires 0 <= from <= |s| && Batched(s, from)
    ensures var r := AddOne(s, p);
            |s| <= |r| <= |s| + 1 && r[..|s|] == s && Batched(r, from)
            && p.name in Names(r)
            && (forall n :: n in Names(r) ==> n in Names(s) || n == p.name)
            && (Distinct(s) ==> Distinct(r))
  {
    var r := AddOne(s, p);
    if p.name !in Names(s) {
      assert Names(r) == Names(s) + [p.name];
      if Distinct(s) {
        forall i, j | 0 <= i < j < |r|
          ensures r[i].name != r[j].name
        {
          if j == |s| {
            assert r[i].name == Names(s)[i];
          }
        }
      }
    }
  }

  /** Adding keeps what was there, in place. */
  lemma {:induction false} AddedKeeps(s: seq<Upload>, ps: seq<Picked>)
    requires Batched(s, |s|)
    ensures var r := Added(s, ps); |s| <= |r| <= |s| + |ps| && r[..|s|] == s && Batched(r, |s|)
  {
    if ps != [] {
      var init := ps[..|ps| - 1];
      AddedKeeps(s, init);
      var a := Added(s, init);
      AddOneFacts(a, ps[|ps| - 1], |s|);
      assert Added(s, ps)[..|s|] == Added(s, ps)[..|a|][..|s|];
    }
  }

  /** After adding, every picked name is in the list, and every name in the
      list was there before or was picked. */
  lemma {:induction false} AddedNames(s: seq<Upload>, ps: seq<Picked>)
    ensures var r := Added(s, ps);
            (forall k :: 0 <= k < |ps| ==> ps[k].name in Names(r))
            && forall n :: n in Names(r) ==> n in Names(s) || exists k :: 0 <= k < |ps| && ps[k].name == n
  {
    if ps != [] {
      var init := ps[..|ps| - 1];
      AddedNames(s, init);
      var a := Added(s, init);
      AddOneFacts(a, ps[|ps| - 1], |a|);
      AddedKeepsNames(a, ps[|ps| - 1]);
      forall n | n in Names(Added(s, ps)) && n !in Names(s)
        ensures exists k :: 0 <= k < |ps| && ps[k].name == n
      {
        if n != ps[|ps| - 1].name {
          assert n in Names(a);
          var k :| 0 <= k < |init| && init[k].name == n;
          assert ps[k] == init[k];
        }
      }
    }
  }

  lemma AddedKeepsNames(s: seq<Upload>, p: Picked)
    ensures forall n :: n in Names(s) ==> n in Names(AddOne(s, p))
  {
    if p.name !in Names(s) {
      assert Names(AddOne(s, p)) == Names(s) + [p.name];
    }
  }

  /** Adding never brings in a second file of the same name. */
  lemma {:induction false} AddedDistinct(s: seq<Upload>, ps: seq<Picked>)
    requires Distinct(s)
    ensures Distinct(Added(s, ps))
  {
    if ps != [] {
      AddedDistinct(s, ps[..|ps| - 1]);
      var a := Added(s, ps[..|ps| - 1]);
      AddOneFacts(a, ps[|ps| - 1], |a|);
    }
  }

  // ---------------------------------------------------------------- removing

  /** `[f for f in files if f['batch'] != batch_num]`. */
  function Without(s: seq<Upload>, b: int): (r: seq<Upload>)
    ensures |r| <= |s|
  {
    if s == [] then [] else (if s[0].batch != b then [s[0]] else []) + Without(s[1..], b)
  }

  /** Removing a batch keeps exactly the uploads of the other batches. */
  lemma {:induction false} WithoutMembers(s: seq<Upload>, b: int)
    ensures forall f :: f in Without(s, b) <==> f in s && f.batch != b
  {
    if s != [] {
      WithoutMembers(s[1..], b);
      var head: seq<Upload> := if s[0].batch != b then [s[0]] else [];
      assert Without(s, b) == head + Without(s[1..], b);
      assert s == [s[0]] + s[1..];
    }
  }

  lemma {:induction false} WithoutDistinct(s: seq<Upload>, b: int)
    requires Distinct(s)
    ensures Distinct(Without(s, b))
  {
    if s != [] {
      WithoutDistinct(s[1..], b);
      WithoutMembers(s[1..], b);
      var t := Without(s[1..], b);
      if s[0].batch != b {
        var r := Without(s, b);
        assert r == [s[0]] + t;
        forall i, j | 0 <= i < j < |r|
          ensures r[i].name != r[j].name
        {
          if i == 0 {
            assert r[j] == t[j - 1] && t[j - 1] in t;
            var k :| 0 <= k < |s[1..]| && s[1..][k] == t[j - 1];
            assert s[k + 1] == t[j - 1];
          } else {
            assert r[i] == t[i - 1] && r[j] == t[j - 1];
          }
        }
      }
    }
  }

  // ---------------------------------------------------------------- the buttons' settings

  /** What the sidebar holds: the exam details, the strip groups, and the
      numbering and skip texts. */
  datatype Settings = Settings(examType: string, examDate: string, strips: seq<StripGroup>, numbering: string, skipping: string)

  /** The font measurements the drawing uses; `None` where measuring raises. */
  datatype Measures = Measures(title: Option<Box>, sub: Option<Box>, rotated: Option<Box>, pageNumber: string -> Option<Box>)

  /** The generated PDF, as a layout: the header, the pages' fragments, the
      marks of each page, and the download's file name. */
  datatype Document = Document(header: Header, pages: seq<seq<Fragment>>, marks: seq<Marks>, fileName: string)

  /** The exported archive: its files and the download's file name. */
  datatype Zip = Zip(entries: seq<Entry>, fileName: string)

  /** The header leaves the cursor on the first page. */
  predicate HeaderFits(settings: Settings, m: Measures)
  {
    CursorOk(HeaderLayout(settings.examType, settings.examDate, m.title, m.sub).y)
  }

  function MarksFor(count: nat, m: Measures): (r: seq<Marks>)
    ensures |r| == count
  {
    seq(count, i requires 0 <= i < count => PageMarks(i, m.rotated, m.pageNumber))
  }

  /** The PDF button: it needs both exam details, and `create_pdf` fails
      (returns `None`) when a strip, numbering or skip text does not parse;
      otherwise it sorts the list naturally and lays the document out. */
  function PdfResult(files: seq<Upload>, settings: Settings, m: Measures, isWord: char -> bool): Option<Document>
    requires HeaderFits(settings, m)
  {
    if settings.examType == [] || settings.examDate == [] then None
    else
      match (StripMapping(settings.strips), Overrides(settings.numbering), NumberList(settings.skipping))
      case (Success(strips), Success(overrides), Success(skips)) =>
        var h := HeaderLayout(settings.examType, settings.examDate, m.title, m.sub);
        var pages := Pages(Run(SortByName(files), Cursor(Start, Begin(h.y)), overrides, skips, strips).flow);
        Some(Document(h, pages, MarksFor(|pages|, m), OutputName(settings.examType, settings.examDate, ".pdf", isWord)))
      case _ => None
  }

  /** The archive button: it fails when a text does not parse, and otherwise
      exports the list in its current order. */
  function ZipResult(files: seq<Upload>, settings: Settings, isWord: char -> bool): Option<Zip>
  {
    match (StripMapping(settings.strips), Overrides(settings.numbering), NumberList(settings.skipping))
    case (Success(strips), Success(overrides), Success(skips)) =>
      Some(Zip(ZipEntries(files, Start, overrides, skips, strips), OutputName(settings.examType, settings.examDate, ".zip", isWord)))
    case _ => None
  }

  /** A generated document numbers, in order, the placed uploads of the
      naturally sorted list; it has one set of marks per page, with a page
      number on every page but the first; no part is drawn off its page; and
      its page count is one plus its parts less its placed images; every
      part carries its image's strip; and its file name's stem is already
      clean. */
  lemma DocumentFacts(files: seq<Upload>, settings: Settings, m: Measures, isWord: char -> bool)
    requires HeaderFits(settings, m) && PythonWord(isWord)
    requires TopNext <= HeaderLayout(settings.examType, settings.examDate, m.title, m.sub).y
    requires PdfResult(files, settings, m, isWord).Some?
    ensures var d := PdfResult(files, settings, m, isWord).value;
            var overrides, skips := Overrides(settings.numbering).value, NumberList(settings.skipping).value;
            Numbers(Flatten(d.pages)) == PlacedNumbers(PdfOutcomes(SortByName(files), Start, overrides, skips))
            && AllInPage(Flatten(d.pages))
            && |d.marks| == |d.pages| >= 1
            && |d.pages| == 1 + |Flatten(d.pages)| - |PlacedNumbers(PdfOutcomes(SortByName(files), Start, overrides, skips))|
            && StripsAgree(Flatten(d.pages), StripMapping(settings.strips).value)
            && (forall i :: 0 <= i < |d.marks| ==> (d.marks[i].pageNumber.Some? <==> i > 0))
            && var stem := d.fileName[..|d.fileName| - 4]; SanitizeFilename(stem, isWord) == stem
  {
    var d := PdfResult(files, settings, m, isWord).value;
    var strips := StripMapping(settings.strips).value;
    var overrides, skips := Overrides(settings.numbering).value, NumberList(settings.skipping).value;
    var h := HeaderLayout(settings.examType, settings.examDate, m.title, m.sub);
    var start := Cursor(Start, Begin(h.y));
    DocumentNumbers(SortByName(files), h.y, overrides, skips, strips);
    DocumentShape(SortByName(files), h.y, overrides, skips, strips);
    FlattenOne([]);
    assert Pages(Begin(h.y)) == [[]];
    RunInPage(SortByName(files), start, overrides, skips, strips);
    OutputStemClean(settings.examType, settings.examDate, ".pdf", isWord, IntendedStart);
    forall i | 0 <= i < |d.marks|
      ensures d.marks[i].pageNumber.Some? <==> i > 0
    {
      PagesNumbered(m.rotated, m.pageNumber, i);
    }
  }

  /** No upload of `s` has the name of `x`. */
  predicate NameAbsent(x: Upload, s: seq<Upload>)
  {
    forall u :: u in s ==> u.name != x.name
  }

  lemma DistinctCons(a: Upload, t: seq<Upload>)
    requires Distinct(t) && NameAbsent(a, t)
    ensures Distinct([a] + t)
  {
    var s := [a] + t;
    forall i, j | 0 <= i < j < |s|
      ensures s[i].name != s[j].name
    {
      assert s[j] == t[j - 1];
      if i > 0 {
        assert s[i] == t[i - 1];
      }
    }
  }

  /** Inserting an upload whose name is new keeps the names distinct. */
  lemma {:induction false} InsertDistinct(x: Upload, s: seq<Upload>, key: Upload -> seq<KeyPart>)
    requires Distinct(s) && NameAbsent(x, s)
    ensures Distinct(Insert(x, s, key))
  {
    if s == [] {
    } else if Before(key, x, s[0]) {
      DistinctCons(x, s);
    } else {
      var t := s[1..];
      assert forall i :: 0 <= i < |t| ==> t[i] == s[i + 1];
      InsertDistinct(x, t, key);
      InsertPermutes(x, t, key);
      var r := Insert(x, t, key);
      forall u | u in r
        ensures u.name != s[0].name
      {
        assert u in multiset(r);
        if u != x {
          var k :| 0 <= k < |t| && t[k] == u;
          assert s[k + 1] == u;
        }
      }
      DistinctCons(s[0], r);
    }
  }

  /** Sorting keeps the names distinct: a successful PDF leaves a valid
      session valid. */
  lemma {:induction false} SortByDistinct(s: seq<Upload>, key: Upload -> seq<KeyPart>)
    requires Distinct(s)
    ensures Distinct(SortBy(s, key))
  {
    if s != [] {
      var p, x := s[..|s| - 1], s[|s| - 1];
      assert forall i :: 0 <= i < |p| ==> p[i] == s[i];
      SortByDistinct(p, key);
      SortByPermutes(p, key);
      forall u | u in SortBy(p, key)
        ensures u.name != x.name
      {
        assert u in multiset(SortBy(p, key));
        var k :| 0 <= k < |p| && p[k] == u;
      }
      InsertDistinct(x, SortBy(p, key), key);
    }
  }

  // ---------------------------------------------------------------- the session

  class Session {
    /** `st.session_state.uploaded_files`. */
    var files: seq<Upload>

    /** No two uploads share a name; this is what the add loop's name
        check is for. */
    ghost predicate Valid()
      reads this
    {
      Distinct(files)
    }

    constructor ()
      ensures files == [] && Valid()
    {
      files := [];
    }

    /** The add button. */
    method AddToBatch(incoming: seq<Picked>)
      modifies this
      ensures files == Added(old(files), incoming)
      ensures old(Valid()) ==> Valid()
    {
      for i := 0 to |incoming|
        invariant files == Added(old(files), incoming[..i])
      {
        assert incoming[..i + 1][..i] == incoming[..i];
        var p := incoming[i];
        if !(p.name in Names(files)) {
          files := files + [Upload(p.name, |files| / 10 + 1, p.decodes, p.scaledHeight)];
        }
      }
      assert incoming[..|incoming|] == incoming;
      if Distinct(old(files)) {
        AddedDistinct(old(files), incoming);
      }
    }

    /** The clear button. */
    method Clear()
      modifies this
      ensures files == [] && Valid()
    {
      files := [];
    }

    /** A batch's remove button. */
    method RemoveBatch(b: int)
      modifies this
      ensures files == Without(old(files), b)
      ensures old(Valid()) ==> Valid()
    {
      if Distinct(files) {
        WithoutDistinct(files, b);
      }
      files := Without(files, b);
    }

    /** The PDF button. `files.sort` sorts the session's own list,
        so a successful PDF leaves the list in natural order. */
    method GeneratePdf(settings: Settings, m: Measures, isWord: char -> bool) returns (r: Option<Document>)
      requires HeaderFits(settings, m)
      modifies this
      ensures r == PdfResult(old(files), settings, m, isWord)
      ensures files == if r.Some? then SortByName(old(files)) else old(files)
      ensures old(Valid()) ==> Valid()
    {
      if settings.examType == [] || settings.examDate == [] {
        return None;
      }
      var strips := GetStripMapping(settings.strips);
      var overrides := ParseMultiNumbering(settings.numbering);
      var skips := ParseSkipImages(settings.skipping);
      if strips.Failure? || overrides.Failure? || skips.Failure? {
        return None;
      }
      var h := HeaderLayout(settings.examType, settings.examDate, m.title, m.sub);
      if Distinct(files) {
        SortByDistinct(files, NameKey);
      }
      files := SortByName(files);
      var pages := CreateDocument(files, h.y, overrides.value, skips.value, strips.value);
      var marks := MarkPages(|pages|, m.rotated, m.pageNumber);
      assert marks == MarksFor(|pages|, m);
      r := Some(Document(h, pages, marks, OutputName(settings.examType, settings.examDate, ".pdf", isWord)));
    }

    /** The archive button. */
    method ExportZip(settings: Settings, isWord: char -> bool) returns (r: Option<Zip>)
      ensures r == ZipResult(files, settings, isWord)
    {
      var strips := GetStripMapping(settings.strips);
      var overrides := ParseMultiNumbering(settings.numbering);
      var skips := ParseSkipImages(settings.skipping);
      if strips.Failure? || overrides.Failure? || skips.Failure? {
        return None;
      }
      var entries := ZipExport(files, overrides.value, skips.value, strips.value);
      r := Some(Zip(entries, OutputName(settings.examType, settings.examDate, ".zip", isWord)));
    }
  }

  /** On a list whose batches follow the positions, as every list does until
      a batch is removed, adding keeps the names distinct and the batches
      in tens by position. */
  lemma AddKeepsBatches(s: seq<Upload>, ps: seq<Picked>)
    requires Distinct(s) && Batched(s, 0)
    ensures Distinct(Added(s, ps)) && Batched(Added(s, ps), 0)
  {
    AddedDistinct(s, ps);
    AddedKeeps(s, ps);
    var r := Added(s, ps);
    forall j | 0 <= j < |s|
      ensures r[j].batch == j / 10 + 1
    {
      assert r[j] == r[..|s|][j];
    }
  }
}
