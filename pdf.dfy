/** The PDF loop of `create_pdf`: walk the (already sorted) uploads, number
    each one, and flow the placed images down the pages. The header and the
    per-page marks are drawn around this loop and modelled with the layout. */
module Pdf {
  import opened Base
  import opened Uploads
  import opened Numbering
  import opened Pagination

  /** The loop's whole state: the numbering counters and the page flow. */
  datatype Cursor = Cursor(counters: Counters, flow: Flow)

  /** `strip_mapping.get(question_number_to_display, None)`. */
  function StripOf(strips: map<int, Ratio>, n: int): (r: Option<Ratio>)
    ensures r.Some? <==> n in strips
    ensures r.Some? ==> r.value == strips[n]
  {
    if n in strips then Some(strips[n]) else None
  }

  /** The first flow: nothing pushed, an empty page, the cursor below the
      header. */
  function Begin(y0: int): Flow { Flow([], [], y0) }

  /** One upload: a placed image is spread from its first row with its number
      on the first part and its strip, if any, on every part; a skipped or
      failed one leaves the pages as they are. */
  function Turn(cur: Cursor, f: Upload, overrides: map<int, int>, skips: seq<int>, strips: map<int, Ratio>): (r: Cursor)
    requires CursorOk(cur.flow.y)
    ensures CursorOk(r.flow.y)
    ensures r.counters == PdfStep(cur.counters, f, overrides, skips).1
    ensures !PdfStep(cur.counters, f, overrides, skips).0.Placed? ==> r.flow == cur.flow
  {
    var (o, n) := PdfStep(cur.counters, f, overrides, skips);
    if o.Placed? then
      SpreadCursor(cur.flow, f.scaledHeight, 0, Some(o.number), StripOf(strips, o.number));
      Cursor(n, Spread(cur.flow, f.scaledHeight, 0, Some(o.number), StripOf(strips, o.number)))
    else Cursor(n, cur.flow)
  }

  /** The `for file_info in files` loop. */
  function Run(files: seq<Upload>, cur: Cursor, overrides: map<int, int>, skips: seq<int>, strips: map<int, Ratio>): (r: Cursor)
    requires CursorOk(cur.flow.y)
    ensures CursorOk(r.flow.y)
  {
    if files == [] then cur else Run(files[1..], Turn(cur, files[0], overrides, skips, strips), overrides, skips, strips)
  }

  function PlacedOf(o: Outcome): seq<int>
  {
    if o.Placed? then [o.number] else []
  }

  /** The numbers of the placed uploads, in order. */
  function PlacedNumbers(os: seq<Outcome>): seq<int>
  {
    if os == [] then [] else PlacedOf(os[0]) + PlacedNumbers(os[1..])
  }

  lemma PlacedNumbersStep(files: seq<Upload>, c: Counters, overrides: map<int, int>, skips: seq<int>)
    requires files != []
    ensures var (o, n) := PdfStep(c, files[0], overrides, skips);
            PlacedNumbers(PdfOutcomes(files, c, overrides, skips))
            == PlacedOf(o) + PlacedNumbers(PdfOutcomes(files[1..], n, overrides, skips))
  {
    var (o, n) := PdfStep(c, files[0], overrides, skips);
    var os := PdfOutcomes(files, c, overrides, skips);
    assert os[0] == o && os[1..] == PdfOutcomes(files[1..], n, overrides, skips);
  }

  lemma TurnNumbers(cur: Cursor, f: Upload, overrides: map<int, int>, skips: seq<int>, strips: map<int, Ratio>)
    requires CursorOk(cur.flow.y)
    ensures var o := PdfStep(cur.counters, f, overrides, skips).0;
            Numbers(Flatten(Pages(Turn(cur, f, overrides, skips, strips).flow)))
            == Numbers(Flatten(Pages(cur.flow))) + PlacedOf(o)
  {
    var o := PdfStep(cur.counters, f, overrides, skips).0;
    if o.Placed? {
      var s := StripOf(strips, o.number);
      SpreadFragments(cur.flow, f.scaledHeight, 0, Some(o.number), s);
      NumbersAppend(Flatten(Pages(cur.flow)), Frags(Cuts(cur.flow.y, f.scaledHeight, 0), Some(o.number), s));
      FragsNumbers(Cuts(cur.flow.y, f.scaledHeight, 0), o.number, s);
    } else {
      assert Numbers(Flatten(Pages(cur.flow))) + [] == Numbers(Flatten(Pages(cur.flow)));
    }
  }

  /** The numbers drawn in the document are those of the placed uploads, in
      upload order, each once: neither a skipped nor a failed upload leaves a
      number behind, and a cut image is numbered on its first part only. */
  lemma {:induction false} RunNumbers(files: seq<Upload>, cur: Cursor, overrides: map<int, int>, skips: seq<int>, strips: map<int, Ratio>)
    requires CursorOk(cur.flow.y)
    ensures Numbers(Flatten(Pages(Run(files, cur, overrides, skips, strips).flow)))
            == Numbers(Flatten(Pages(cur.flow))) + PlacedNumbers(PdfOutcomes(files, cur.counters, overrides, skips))
  {
    if files == [] {
      assert Numbers(Flatten(Pages(cur.flow))) + [] == Numbers(Flatten(Pages(cur.flow)));
    } else {
      var st := PdfStep(cur.counters, files[0], overrides, skips);
      var next := Turn(cur, files[0], overrides, skips, strips);
      assert Run(files, cur, overrides, skips, strips) == Run(files[1..], next, overrides, skips, strips);
      TurnNumbers(cur, files[0], overrides, skips, strips);
      RunNumbers(files[1..], next, overrides, skips, strips);
      PlacedNumbersStep(files, cur.counters, overrides, skips);
      Regroup(Numbers(Flatten(Pages(cur.flow))), PlacedOf(st.0), PlacedNumbers(PdfOutcomes(files[1..], st.1, overrides, skips)));
    }
  }

  /** The numbers printed in the whole document, from the first flow. */
  lemma DocumentNumbers(files: seq<Upload>, y0: int, overrides: map<int, int>, skips: seq<int>, strips: map<int, Ratio>)
    requires CursorOk(y0)
    ensures Numbers(Flatten(Pages(Run(files, Cursor(Start, Begin(y0)), overrides, skips, strips).flow)))
            == PlacedNumbers(PdfOutcomes(files, Start, overrides, skips))
  {
    RunNumbers(files, Cursor(Start, Begin(y0)), overrides, skips, strips);
    FlattenOne([]);
    assert Pages(Begin(y0)) == [[]];
  }

  /** A whole document has one page more than it has page breaks: every
      part after an image's first opens a new page, so the page count is one
      plus the parts drawn less the images placed. Every part carries its
      image's strip: the one the strip text gives its number, or, for a
      part without a label, the strip of the part before it. */
  lemma DocumentShape(files: seq<Upload>, y0: int, overrides: map<int, int>, skips: seq<int>, strips: map<int, Ratio>)
    requires CursorOk(y0)
    ensures var pages := Pages(Run(files, Cursor(Start, Begin(y0)), overrides, skips, strips).flow);
            |pages| == 1 + |Flatten(pages)| - |PlacedNumbers(PdfOutcomes(files, Start, overrides, skips))|
            && StripsAgree(Flatten(pages), strips)
  {
    var start := Cursor(Start, Begin(y0));
    FlattenOne([]);
    assert Pages(Begin(y0)) == [[]];
    RunPageCount(files, start, overrides, skips, strips);
    RunStrips(files, start, overrides, skips, strips);
  }

  /** No part of any image is drawn off the page, from a header that leaves
      the cursor on the page. */
  lemma {:induction false} RunInPage(files: seq<Upload>, cur: Cursor, overrides: map<int, int>, skips: seq<int>, strips: map<int, Ratio>)
    requires CursorOk(cur.flow.y) && TopNext <= cur.flow.y && AllInPage(Flatten(Pages(cur.flow)))
    ensures var r := Run(files, cur, overrides, skips, strips);
            AllInPage(Flatten(Pages(r.flow))) && TopNext <= r.flow.y
  {
    if files != [] {
      var (o, n) := PdfStep(cur.counters, files[0], overrides, skips);
      if o.Placed? {
        SpreadInPage(cur.flow, files[0].scaledHeight, 0, Some(o.number), StripOf(strips, o.number));
      }
      RunInPage(files[1..], Turn(cur, files[0], overrides, skips, strips), overrides, skips, strips);
    }
  }

  /** The loop only pushes pages: the pages pushed before it stay as they
      are. */
  lemma {:induction false} RunKeepsPages(files: seq<Upload>, cur: Cursor, overrides: map<int, int>, skips: seq<int>, strips: map<int, Ratio>)
    requires CursorOk(cur.flow.y)
    ensures var r := Run(files, cur, overrides, skips, strips);
            |cur.flow.done| <= |r.flow.done| && r.flow.done[..|cur.flow.done|] == cur.flow.done
  {
    if files != [] {
      var (o, n) := PdfStep(cur.counters, files[0], overrides, skips);
      var next := Turn(cur, files[0], overrides, skips, strips);
      if o.Placed? {
        SpreadDone(cur.flow, files[0].scaledHeight, 0, Some(o.number), StripOf(strips, o.number));
      }
      assert next.flow.done[..|cur.flow.done|] == cur.flow.done;
      RunKeepsPages(files[1..], next, overrides, skips, strips);
      var r := Run(files[1..], next, overrides, skips, strips);
      assert r.flow.done[..|cur.flow.done|] == r.flow.done[..|next.flow.done|][..|cur.flow.done|];
    }
  }

  /** When nothing is placed the document is the header page alone. */
  lemma {:induction false} NothingPlaced(files: seq<Upload>, cur: Cursor, overrides: map<int, int>, skips: seq<int>, strips: map<int, Ratio>)
    requires CursorOk(cur.flow.y)
    requires PlacedNumbers(PdfOutcomes(files, cur.counters, overrides, skips)) == []
    ensures Run(files, cur, overrides, skips, strips).flow == cur.flow
  {
    if files != [] {
      var (o, n) := PdfStep(cur.counters, files[0], overrides, skips);
      PlacedNumbersStep(files, cur.counters, overrides, skips);
      NothingPlaced(files[1..], Turn(cur, files[0], overrides, skips, strips), overrides, skips, strips);
    }
  }

  /** The pages pushed grow by one per cut: over the loop, by the parts
      drawn less one per placed image. */
  lemma {:induction false} RunPageCount(files: seq<Upload>, cur: Cursor, overrides: map<int, int>, skips: seq<int>, strips: map<int, Ratio>)
    requires CursorOk(cur.flow.y)
    ensures var r := Run(files, cur, overrides, skips, strips);
            |r.flow.done| + |PlacedNumbers(PdfOutcomes(files, cur.counters, overrides, skips))| + |Flatten(Pages(cur.flow))|
            == |cur.flow.done| + |Flatten(Pages(r.flow))|
  {
    if files != [] {
      var st := PdfStep(cur.counters, files[0], overrides, skips);
      var next := Turn(cur, files[0], overrides, skips, strips);
      assert Run(files, cur, overrides, skips, strips) == Run(files[1..], next, overrides, skips, strips);
      RunPageCount(files[1..], next, overrides, skips, strips);
      PlacedNumbersStep(files, cur.counters, overrides, skips);
      if st.0.Placed? {
        var s := StripOf(strips, st.0.number);
        SpreadDone(cur.flow, files[0].scaledHeight, 0, Some(st.0.number), s);
        SpreadFragments(cur.flow, files[0].scaledHeight, 0, Some(st.0.number), s);
      }
    }
  }

  /** Every part carries the strip of the image it belongs to: a numbered
      part the strip mapped to its number, a continuation part the strip of
      the part before it. */
  predicate StripsAgree(frs: seq<Fragment>, strips: map<int, Ratio>)
  {
    forall k :: 0 <= k < |frs| ==> PartAgrees(frs, k, strips)
  }

  predicate PartAgrees(frs: seq<Fragment>, k: int, strips: map<int, Ratio>)
    requires 0 <= k < |frs|
  {
    match frs[k].number
    case Some(n) => frs[k].strip == StripOf(strips, n)
    case None => 0 < k && frs[k].strip == frs[k - 1].strip
  }

  lemma StripsAgreeAppend(a: seq<Fragment>, b: seq<Fragment>, strips: map<int, Ratio>)
    requires StripsAgree(a, strips) && StripsAgree(b, strips)
    ensures StripsAgree(a + b, strips)
  {
    var r := a + b;
    forall k | 0 <= k < |r|
      ensures PartAgrees(r, k, strips)
    {
      if k < |a| {
        assert PartAgrees(a, k, strips);
        assert r[k] == a[k];
        if 0 < k {
          assert r[k - 1] == a[k - 1];
        }
      } else {
        assert PartAgrees(b, k - |a|, strips);
        assert r[k] == b[k - |a|];
        if |a| < k {
          assert r[k - 1] == b[k - 1 - |a|];
        }
      }
    }
  }

  lemma FragsAgree(c: seq<Piece>, n: int, strips: map<int, Ratio>)
    requires c != []
    ensures StripsAgree(Frags(c, Some(n), StripOf(strips, n)), strips)
  {
  }

  /** The mask painted on a part is the one mapped to its image's number. */
  lemma {:induction false} RunStrips(files: seq<Upload>, cur: Cursor, overrides: map<int, int>, skips: seq<int>, strips: map<int, Ratio>)
    requires CursorOk(cur.flow.y) && StripsAgree(Flatten(Pages(cur.flow)), strips)
    ensures StripsAgree(Flatten(Pages(Run(files, cur, overrides, skips, strips).flow)), strips)
  {
    if files != [] {
      var st := PdfStep(cur.counters, files[0], overrides, skips);
      var next := Turn(cur, files[0], overrides, skips, strips);
      if st.0.Placed? {
        var s := StripOf(strips, st.0.number);
        SpreadFragments(cur.flow, files[0].scaledHeight, 0, Some(st.0.number), s);
        FragsAgree(Cuts(cur.flow.y, files[0].scaledHeight, 0), st.0.number, strips);
        StripsAgreeAppend(Flatten(Pages(cur.flow)), Frags(Cuts(cur.flow.y, files[0].scaledHeight, 0), Some(st.0.number), s), strips);
      }
      RunStrips(files[1..], next, overrides, skips, strips);
    }
  }

  // ---------------------------------------------------------------- the loops

  /** The `while img_to_process` loop: paste parts until the image is used up,
      pushing a page after each cut. */
  method PlaceImage(done0: seq<seq<Fragment>>, page0: seq<Fragment>, y0: int, h: int, number: int, strip: Option<Ratio>)
    returns (done: seq<seq<Fragment>>, page: seq<Fragment>, y: int)
    requires h > 0 && CursorOk(y0)
    ensures Flow(done, page, y) == Spread(Flow(done0, page0, y0), h, 0, Some(number), strip)
  {
    ghost var target := Spread(Flow(done0, page0, y0), h, 0, Some(number), strip);
    done, page, y := done0, page0, y0;
    var rest, top, first, more := h, 0, true, true;
    while more
      invariant CursorOk(y)
      invariant more ==> rest > 0 && Spread(Flow(done, page, y), rest, top, if first then Some(number) else None, strip) == target
      invariant !more ==> Flow(done, page, y) == target
      decreases more, if y == TopNext then 2 * rest else 2 * rest + 2 * Gap + 1
    {
      var room := PageHeight - y - Bottom;
      var height := rest;
      if rest <= room {
        more := false;
      } else {
        height := room + Overlap;
      }
      page := page + [Fragment(y, height, top, if first then Some(number) else None, strip)];
      y := y + height + Gap;
      if more {
        top, rest := top + room, rest - room;
        done, page, y := done + [page], [], TopNext;
      }
      first := false;
    }
  }

  /** The `for file_info in files` loop, up to the final page push. */
  method CreateDocument(files: seq<Upload>, y0: int, overrides: map<int, int>, skips: seq<int>, strips: map<int, Ratio>)
    returns (pages: seq<seq<Fragment>>)
    requires CursorOk(y0)
    ensures pages == Pages(Run(files, Cursor(Start, Begin(y0)), overrides, skips, strips).flow)
  {
    ghost var target := Run(files, Cursor(Start, Begin(y0)), overrides, skips, strips);
    var done, page, y := [], [], y0;
    var index, counter := 1, 0;
    for i := 0 to |files|
      invariant CursorOk(y)
      invariant Run(files[i..], Cursor(Counters(index, counter), Flow(done, page, y)), overrides, skips, strips) == target
    {
      ghost var cur := Cursor(Counters(index, counter), Flow(done, page, y));
      assert files[i..][0] == files[i] && files[i..][1..] == files[i + 1..];
      var f := files[i];
      var number := 0;
      if index in overrides {
        number := overrides[index];
      } else if index !in skips {
        counter := counter + 1;
        number := counter;
      } else {
        index := index + 1;
        continue;
      }
      if !Placeable(f) {
        // the image did not open, enhance or resize: the error is reported
        // and the position is not advanced
        continue;
      }
      done, page, y := PlaceImage(done, page, y, f.scaledHeight, number, StripOf(strips, number));
      index := index + 1;
    }
    pages := done + [page];
  }
}
