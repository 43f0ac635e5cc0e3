/** Where `create_pdf` draws text: the two header lines on the first page,
    the question number on an image's first part, and the watermark and page
    number on every page. Text is measured with a font's bounding box; the
    fonts are not modelled, so each measurement is a parameter, and `None`
    stands for a measurement that raised and sent the code to its fallback
    position. */
module Layout {
  import opened Base
  import opened PyText
  import opened Pagination

  /** The extents of a bounding box, `bbox[2] - bbox[0]` and
      `bbox[3] - bbox[1]`. */
  datatype Box = Box(width: int, height: int)

  /** A text drawn with its top-left corner at `(x, y)`. */
  datatype Text = Text(x: int, y: int, text: string)

  const College := "LITTLE FLOWER JUNIOR COLLEGE, UPPAL, HYD-39"
  const WatermarkText := "LFJC"
  /** A fill colour with its fourth (alpha) component. */
  datatype Rgba = Rgba(red: int, green: int, blue: int, alpha: int)

  /** `int(255 * 0.20)`. */
  const WatermarkOpacity := 51
  const WatermarkAngle := 45
  /** The ink of the rotated watermark, drawn on a transparent layer that is
      pasted through its own alpha. */
  const WatermarkInk := Rgba(0, 0, 0, WatermarkOpacity)
  /** The fill of the fallback watermark, drawn straight onto the page. */
  const FallbackFill := Rgba(200, 200, 200, 100)

  /** A thing of size `size` at `pos` sits in the middle of `[lo, hi]`, to
      within the pixel that floor division drops. */
  predicate CenteredIn(lo: int, hi: int, pos: int, size: int)
  {
    pos + pos + size == lo + hi || pos + pos + size == lo + hi - 1
  }

  /** `(A4_WIDTH - width) // 2`, Python's floor division; Dafny's `/` agrees
      with it for a positive divisor. */
  function CenterX(width: int): (x: int)
    ensures CenteredIn(0, PageWidth, x, width)
  {
    (PageWidth - width) / 2
  }

  // ---------------------------------------------------------------- header

  /** `f"{exam_type}   {exam_date}"`. */
  function Subheader(examType: string, examDate: string): string
  {
    examType + "   " + examDate
  }

  /** The two header lines and the cursor the images start at. */
  datatype Header = Header(title: Text, sub: Text, y: int)

  function HeaderLayout(examType: string, examDate: string, title: Option<Box>, sub: Option<Box>): (h: Header)
    ensures h.title.text == College && h.sub.text == Subheader(examType, examDate)
    ensures h.title.y == TopFirst
    ensures title.Some? ==> CenteredIn(0, PageWidth, h.title.x, title.value.width)
                            && h.sub.y == TopFirst + title.value.height + 10
    ensures title.None? ==> h.title.x == PageWidth / 4 && h.sub.y == TopFirst + 80
    ensures sub.Some? ==> CenteredIn(0, PageWidth, h.sub.x, sub.value.width)
                          && h.y == h.sub.y + sub.value.height + 40
    ensures sub.None? ==> h.sub.x == PageWidth / 3 && h.y == h.sub.y + 60
  {
    var t := if title.Some? then Text(CenterX(title.value.width), TopFirst, College)
             else Text(PageWidth / 4, TopFirst, College);
    var y1 := if title.Some? then TopFirst + title.value.height + 10 else TopFirst + 80;
    var s := Subheader(examType, examDate);
    var st := if sub.Some? then Text(CenterX(sub.value.width), y1, s) else Text(PageWidth / 3, y1, s);
    var y2 := if sub.Some? then y1 + sub.value.height + 40 else y1 + 60;
    Header(t, st, y2)
  }

  /** With both lines measured at non-negative heights the images start below
      both lines; with neither measured they start at row 265. */
  lemma HeaderBelowLines(examType: string, examDate: string, title: Option<Box>, sub: Option<Box>)
    requires title.Some? ==> title.value.height >= 0
    requires sub.Some? ==> sub.value.height >= 0
    ensures var h := HeaderLayout(examType, examDate, title, sub);
            h.title.y < h.sub.y < h.y
            && (title.Some? ==> h.sub.y >= h.title.y + title.value.height)
            && (sub.Some? ==> h.y >= h.sub.y + sub.value.height)
            && (title.None? && sub.None? ==> h.y == 265)
  {
  }

  // ---------------------------------------------------------------- question numbers

  /** `f"{question_number_to_display}."`. */
  function LabelText(n: int): (s: string)
    ensures |s| >= 2 && s[|s| - 1] == '.'
  {
    IntToString(n) + "."
  }

  /** The label reads back as its number once the final dot is dropped. */
  lemma LabelReadsBack(n: int)
    ensures var s := LabelText(n); ParseInt(s[..|s| - 1]) == Some(n)
  {
    var s := LabelText(n);
    assert s[..|s| - 1] == IntToString(n);
    ParseIntToString(n);
  }

  /** Where the number is drawn on an image's first part, in the part's own
      coordinates: ten pixels down, and either ten pixels in or, on a masked
      image, ending ten pixels left of the strip's right edge.
      `stripWidth` is `int(img_part.width * fraction)`. */
  function Label(n: int, measured: Option<Box>, stripWidth: Option<int>): (t: Text)
    ensures t.text == LabelText(n) && t.y == 10
    ensures measured.Some? && stripWidth.Some? ==> t.x + measured.value.width + 10 == stripWidth.value
    ensures measured.None? || stripWidth.None? ==> t.x == 10
  {
    match measured
    case None => Text(10, 10, LabelText(n))
    case Some(b) =>
      Text(if stripWidth.Some? then stripWidth.value - b.width - 10 else 10, 10, LabelText(n))
  }

  /** On a masked image whose strip is wide enough for it, the label lies
      on the white strip, clear of both its edges; on an unmasked image, or
      when measuring raises, it is ten pixels in. Either way it reads back as
      its number. */
  lemma LabelOnStrip(n: int, measured: Option<Box>, stripWidth: Option<int>)
    requires measured.Some? ==> 0 <= measured.value.width
    ensures var t := Label(n, measured, stripWidth);
            (measured.Some? && stripWidth.Some? && measured.value.width + 10 <= stripWidth.value ==>
               0 <= t.x && t.x + measured.value.width < stripWidth.value)
            && (measured.None? || stripWidth.None? ==> t.x == 10)
            && ParseInt(t.text[..|t.text| - 1]) == Some(n)
  {
    LabelReadsBack(n);
  }

  // ---------------------------------------------------------------- page marks

  /** The watermark: its top-left corner, the angle it is turned by, and the
      fill its text is drawn with. */
  datatype Stamp = Stamp(x: int, y: int, angle: int, fill: Rgba)

  /** Drawn on each page: the watermark, and the page number on every page
      but the first. */
  datatype Marks = Marks(watermark: Stamp, pageNumber: Option<Text>)

  /** The watermark, given the size of the rotated text image; when
      measuring or rotating raises, the text is drawn unrotated, in grey, at
      a fixed spot. */
  function Watermark(rotated: Option<Box>): (w: Stamp)
    ensures rotated.Some? ==> CenteredIn(0, PageWidth, w.x, rotated.value.width)
                              && CenteredIn(0, PageHeight, w.y, rotated.value.height)
                              && w.angle == WatermarkAngle && w.fill == WatermarkInk
    ensures rotated.None? ==> w == Stamp(827, 1753, 0, FallbackFill)
  {
    match rotated
    case Some(b) => Stamp(CenterX(b.width), (PageHeight - b.height) / 2, WatermarkAngle, WatermarkInk)
    case None => Stamp(PageWidth / 3, PageHeight / 2, 0, FallbackFill)
  }

  /** The page number of page `i` (0-based), given the measured size of its
      text: none on the first page; otherwise `str(i + 1)`, centred across
      the page and, vertically, in the band of the bottom margin's height
      that ends 20 rows above the page's foot. */
  function PageNumber(i: nat, measured: Option<Box>): (r: Option<Text>)
    ensures r.Some? <==> i > 0
    ensures r.Some? ==> r.value.text == IntToString(i + 1)
    ensures r.Some? && measured.Some? ==>
              CenteredIn(0, PageWidth, r.value.x, measured.value.width)
              && CenteredIn(PageHeight - Bottom - 20, PageHeight - 20, r.value.y, measured.value.height)
    ensures r.Some? && measured.None? ==> r.value.x == 1240 && r.value.y == 3457
  {
    if i == 0 then None
    else
      var s := IntToString(i + 1);
      match measured
      case Some(b) => Some(Text(CenterX(b.width), PageHeight - Bottom + (Bottom - b.height) / 2 - 20, s))
      case None => Some(Text(PageWidth / 2, PageHeight - 50, s))
  }

  function PageMarks(i: nat, rotated: Option<Box>, measure: string -> Option<Box>): Marks
  {
    Marks(Watermark(rotated), PageNumber(i, measure(IntToString(i + 1))))
  }

  /** The `for i, page in enumerate(pdf_pages)` loop. */
  method MarkPages(count: nat, rotated: Option<Box>, measure: string -> Option<Box>) returns (marks: seq<Marks>)
    ensures |marks| == count
    ensures forall i :: 0 <= i < count ==> marks[i] == PageMarks(i, rotated, measure)
  {
    marks := [];
    for i := 0 to count
      invariant |marks| == i
      invariant forall j :: 0 <= j < i ==> marks[j] == PageMarks(j, rotated, measure)
    {
      var number: Option<Text> := None;
      if i > 0 {
        var s := IntToString(i + 1);
        match measure(s)
        case Some(b) =>
          number := Some(Text((PageWidth - b.width) / 2, PageHeight - Bottom + (Bottom - b.height) / 2 - 20, s));
        case None =>
          number := Some(Text(PageWidth / 2, PageHeight - 50, s));
      }
      marks := marks + [Marks(Watermark(rotated), number)];
    }
  }

  /** Every page but the first is numbered, and page `i` reads back as
      `i + 1`; the watermark is the same on every page. */
  lemma PagesNumbered(rotated: Option<Box>, measure: string -> Option<Box>, i: nat)
    ensures var m := PageMarks(i, rotated, measure);
            (m.pageNumber.Some? <==> i > 0)
            && (m.pageNumber.Some? ==> ParseInt(m.pageNumber.value.text) == Some(i + 1))
            && m.watermark == PageMarks(0, rotated, measure).watermark
  {
    ParseIntToString(i + 1);
  }
}
