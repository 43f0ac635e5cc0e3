/** How the PDF loop flows scaled images down A4 pages at 300 dpi. An image
    that fits in the room left above the bottom margin is pasted whole at the
    cursor; one that does not is cut: the part pasted fills the room and runs
    `Overlap` rows past it, and the rest, which starts `Overlap` rows above
    the cut's lower edge, continues at the top of a new page. After each
    paste the cursor moves down by the part's height and the gap. */
module Pagination {
  import opened Base

  const PageWidth := 2481
  const PageHeight := 3507
  const TopFirst := 125
  const TopNext := 110
  const Bottom := 105
  const Gap := 20
  const Overlap := 25

  /** Room left on the page above the bottom margin; negative when the
      previous part ran into the margin. */
  function Room(y: int): int { PageHeight - y - Bottom }

  /** The cursor positions the loop can meet: a part that just fits leaves the
      cursor `Gap` rows below the content area, and no lower. */
  predicate CursorOk(y: int) { y <= PageHeight - Bottom + Gap }

  /** One part of a scaled image: the cursor it is pasted at, its height, and
      the row of the scaled image it starts at. Rows outside the image are the
      padding PIL adds when a crop box runs past an edge. */
  datatype Piece = Piece(y: int, height: int, top: int)

  /** The parts an image of height `h`, starting at row `top`, is cut into
      when the cursor is at `y`: a reference description of the loop's
      geometry, with no pages in it. */
  function Cuts(y: int, h: int, top: int): (c: seq<Piece>)
    requires h > 0 && CursorOk(y)
    ensures c != [] && c[0].y == y && c[0].top == top
    decreases if y == TopNext then 2 * h else 2 * h + 2 * Gap + 1
  {
    var room := Room(y);
    if h <= room then [Piece(y, h, top)]
    else [Piece(y, room + Overlap, top)] + Cuts(TopNext, h - room, top + room)
  }

  function Last<T>(s: seq<T>): T
    requires s != []
  {
    s[|s| - 1]
  }

  /** Every part but the last fills the room and overruns it by `Overlap`,
      and the next part starts on a new page at `TopNext`, `Overlap` rows
      above where the previous part ended in the image. */
  predicate Chained(c: seq<Piece>)
  {
    (forall k :: 1 <= k < |c| ==> c[k].y == TopNext)
    && (forall k :: 0 <= k < |c| - 1 ==>
          c[k].height == Room(c[k].y) + Overlap && c[k + 1].top == c[k].top + c[k].height - Overlap)
  }

  lemma ChainedCons(p: Piece, rest: seq<Piece>)
    requires Chained(rest) && rest != [] && rest[0].y == TopNext
    requires p.height == Room(p.y) + Overlap && rest[0].top == p.top + p.height - Overlap
    ensures Chained([p] + rest)
  {
    var c := [p] + rest;
    assert forall k :: 1 <= k < |c| ==> c[k] == rest[k - 1];
  }

  /** The parts are chained, and the last one fits in its room and ends at
      the image's last row. */
  lemma {:induction false} CutsShape(y: int, h: int, top: int)
    requires h > 0 && CursorOk(y)
    ensures var c := Cuts(y, h, top);
            Chained(c) && 0 < Last(c).height <= Room(Last(c).y) && Last(c).top + Last(c).height == top + h
    decreases if y == TopNext then 2 * h else 2 * h + 2 * Gap + 1
  {
    var room := Room(y);
    if h > room {
      var rest := Cuts(TopNext, h - room, top + room);
      CutsShape(TopNext, h - room, top + room);
      var p := Piece(y, room + Overlap, top);
      ChainedCons(p, rest);
      assert Cuts(y, h, top) == [p] + rest;
      assert Last([p] + rest) == Last(rest);
    }
  }

  /** An image is cut exactly when it does not fit in the room. */
  lemma CutsWhole(y: int, h: int, top: int)
    requires h > 0 && CursorOk(y)
    ensures |Cuts(y, h, top)| == 1 <==> h <= Room(y)
  {
  }

  function Heights(c: seq<Piece>): int
  {
    if c == [] then 0 else c[0].height + Heights(c[1..])
  }

  /** The parts' heights add up to the image's height plus one overlap per
      cut. */
  lemma {:induction false} CutsHeights(y: int, h: int, top: int)
    requires h > 0 && CursorOk(y)
    ensures Heights(Cuts(y, h, top)) == h + Overlap * (|Cuts(y, h, top)| - 1)
    decreases if y == TopNext then 2 * h else 2 * h + 2 * Gap + 1
  {
    var room := Room(y);
    if h > room {
      CutsHeights(TopNext, h - room, top + room);
      var c := Cuts(y, h, top);
      assert c[1..] == Cuts(TopNext, h - room, top + room);
    }
  }

  // ---------------------------------------------------------------- pages

  /** A part as pasted: where, how tall, from which image row, the question
      number drawn on it if any, and the ratio of the strip masked on it if
      any. */
  datatype Fragment = Fragment(y: int, height: int, top: int, number: Option<int>, strip: Option<Ratio>)

  /** The pages pushed so far, the page being filled, and the cursor on it. */
  datatype Flow = Flow(done: seq<seq<Fragment>>, page: seq<Fragment>, y: int)

  /** The document the flow stands for once the page being filled is pushed,
      as the loop's end always does. */
  function Pages(f: Flow): seq<seq<Fragment>>
  {
    f.done + [f.page]
  }

  function Flatten(pages: seq<seq<Fragment>>): seq<Fragment>
  {
    if pages == [] then [] else pages[0] + Flatten(pages[1..])
  }

  /** The fragments an image's parts become: the number on the first only, the
      strip on every one. */
  function Frags(c: seq<Piece>, number: Option<int>, strip: Option<Ratio>): (r: seq<Fragment>)
    ensures |r| == |c|
    ensures forall k :: 0 <= k < |c| ==>
              r[k] == Fragment(c[k].y, c[k].height, c[k].top, if k == 0 then number else None, strip)
  {
    seq(|c|, k requires 0 <= k < |c| => Fragment(c[k].y, c[k].height, c[k].top, if k == 0 then number else None, strip))
  }

  /** The `while img_to_process` loop for one image of height `h` from row
      `top`, as a recursion: paste the part, and when something is left push
      the page and go on at `TopNext` without the number. */
  function Spread(f: Flow, h: int, top: int, number: Option<int>, strip: Option<Ratio>): Flow
    requires h > 0 && CursorOk(f.y)
    decreases if f.y == TopNext then 2 * h else 2 * h + 2 * Gap + 1
  {
    var room := Room(f.y);
    if h <= room then Flow(f.done, f.page + [Fragment(f.y, h, top, number, strip)], f.y + h + Gap)
    else
      var part := Fragment(f.y, room + Overlap, top, number, strip);
      Spread(Flow(f.done + [f.page + [part]], [], TopNext), h - room, top + room, None, strip)
  }

  lemma FlattenCons(x: seq<Fragment>, rest: seq<seq<Fragment>>)
    ensures Flatten([x] + rest) == x + Flatten(rest)
  {
    assert ([x] + rest)[1..] == rest;
  }

  lemma {:induction false} FlattenAppend(a: seq<seq<Fragment>>, b: seq<seq<Fragment>>)
    ensures Flatten(a + b) == Flatten(a) + Flatten(b)
  {
    if a == [] {
      assert a + b == b;
    } else {
      var t := a[1..] + b;
      assert a + b == [a[0]] + t;
      assert a == [a[0]] + a[1..];
      FlattenCons(a[0], t);
      FlattenCons(a[0], a[1..]);
      FlattenAppend(a[1..], b);
      Regroup(a[0], Flatten(a[1..]), Flatten(b));
    }
  }

  lemma FlattenOne(p: seq<Fragment>)
    ensures Flatten([p]) == p
  {
    assert [p][1..] == [];
  }

  /** The pages pushed before an image stay as they are, and one page is
      pushed per cut. */
  lemma {:induction false} SpreadDone(f: Flow, h: int, top: int, number: Option<int>, strip: Option<Ratio>)
    requires h > 0 && CursorOk(f.y)
    ensures var r := Spread(f, h, top, number, strip);
            |r.done| == |f.done| + |Cuts(f.y, h, top)| - 1 && r.done[..|f.done|] == f.done
    decreases if f.y == TopNext then 2 * h else 2 * h + 2 * Gap + 1
  {
    var room := Room(f.y);
    if h > room {
      var g := Flow(f.done + [f.page + [Fragment(f.y, room + Overlap, top, number, strip)]], [], TopNext);
      SpreadDone(g, h - room, top + room, None, strip);
      var r := Spread(g, h - room, top + room, None, strip);
      assert Cuts(f.y, h, top)[1..] == Cuts(TopNext, h - room, top + room);
      assert r.done[..|f.done|] == r.done[..|g.done|][..|f.done|];
    }
  }

  /** The cursor ends `Gap` below the image's last part. */
  lemma {:induction false} SpreadCursor(f: Flow, h: int, top: int, number: Option<int>, strip: Option<Ratio>)
    requires h > 0 && CursorOk(f.y)
    ensures var r, c := Spread(f, h, top, number, strip), Cuts(f.y, h, top);
            r.y == Last(c).y + Last(c).height + Gap && CursorOk(r.y)
    decreases if f.y == TopNext then 2 * h else 2 * h + 2 * Gap + 1
  {
    var room := Room(f.y);
    if h > room {
      var g := Flow(f.done + [f.page + [Fragment(f.y, room + Overlap, top, number, strip)]], [], TopNext);
      SpreadCursor(g, h - room, top + room, None, strip);
      var c := Cuts(f.y, h, top);
      assert Last(c) == Last(c[1..]);
      assert c[1..] == Cuts(TopNext, h - room, top + room);
    }
  }

  lemma FlattenAdd(done: seq<seq<Fragment>>, page: seq<Fragment>, part: Fragment)
    ensures Flatten(done + [page + [part]]) == Flatten(done + [page]) + [part]
  {
    FlattenAppend(done, [page]);
    FlattenOne(page);
    FlattenAppend(done, [page + [part]]);
    FlattenOne(page + [part]);
  }

  lemma FlattenPush(done: seq<seq<Fragment>>, page: seq<Fragment>, part: Fragment)
    ensures Flatten(done + [page + [part]] + [[]]) == Flatten(done + [page]) + [part]
  {
    FlattenAppend(done + [page + [part]], [[]]);
    FlattenOne([]);
    FlattenAdd(done, page, part);
  }

  lemma FragsCons(c: seq<Piece>, number: Option<int>, strip: Option<Ratio>)
    requires c != []
    ensures Frags(c, number, strip)
            == [Fragment(c[0].y, c[0].height, c[0].top, number, strip)] + Frags(c[1..], None, strip)
  {
    var fr, rr := Frags(c, number, strip), Frags(c[1..], None, strip);
    assert forall k :: 1 <= k < |fr| ==> fr[k] == rr[k - 1];
  }

  /** The document's fragments gain the image's parts, in order. */
  lemma FitsFragments(f: Flow, h: int, top: int, number: Option<int>, strip: Option<Ratio>)
    requires 0 < h <= Room(f.y) && CursorOk(f.y)
    ensures Flatten(Pages(Spread(f, h, top, number, strip))) == Flatten(Pages(f)) + Frags(Cuts(f.y, h, top), number, strip)
  {
    var part := Fragment(f.y, h, top, number, strip);
    FlattenAdd(f.done, f.page, part);
    assert Pages(Spread(f, h, top, number, strip)) == f.done + [f.page + [part]];
    assert Frags(Cuts(f.y, h, top), number, strip) == [part];
  }

  /** The first part of an image that does not fit, and what is left of the
      loop after it. */
  lemma CutStep(f: Flow, h: int, top: int, number: Option<int>, strip: Option<Ratio>)
    requires 0 < h && Room(f.y) < h && CursorOk(f.y)
    ensures var room := Room(f.y);
            var part := Fragment(f.y, room + Overlap, top, number, strip);
            var g := Flow(f.done + [f.page + [part]], [], TopNext);
            Spread(f, h, top, number, strip) == Spread(g, h - room, top + room, None, strip)
            && Flatten(Pages(g)) == Flatten(Pages(f)) + [part]
            && Frags(Cuts(f.y, h, top), number, strip) == [part] + Frags(Cuts(TopNext, h - room, top + room), None, strip)
  {
    var room := Room(f.y);
    var part := Fragment(f.y, room + Overlap, top, number, strip);
    FlattenPush(f.done, f.page, part);
    var c := Cuts(f.y, h, top);
    FragsCons(c, number, strip);
    assert c[1..] == Cuts(TopNext, h - room, top + room);
  }

  /** The document's fragments gain the image's parts, in order. */
  lemma {:induction false} SpreadFragments(f: Flow, h: int, top: int, number: Option<int>, strip: Option<Ratio>)
    requires h > 0 && CursorOk(f.y)
    ensures Flatten(Pages(Spread(f, h, top, number, strip))) == Flatten(Pages(f)) + Frags(Cuts(f.y, h, top), number, strip)
    decreases if f.y == TopNext then 2 * h else 2 * h + 2 * Gap + 1
  {
    var room := Room(f.y);
    if h <= room {
      FitsFragments(f, h, top, number, strip);
    } else {
      var part := Fragment(f.y, room + Overlap, top, number, strip);
      var g := Flow(f.done + [f.page + [part]], [], TopNext);
      CutStep(f, h, top, number, strip);
      SpreadFragments(g, h - room, top + room, None, strip);
      Regroup(Flatten(Pages(f)), [part], Frags(Cuts(TopNext, h - room, top + room), None, strip));
    }
  }

  /** Every page an image starts opens with that image's next part at
      `TopNext`. */
  lemma {:induction false} SpreadNewPages(f: Flow, h: int, top: int, number: Option<int>, strip: Option<Ratio>)
    requires h > 0 && CursorOk(f.y)
    ensures var r := Spread(f, h, top, number, strip);
            |r.done| >= |f.done|
            && forall j :: |f.done| < j <= |r.done| ==> Pages(r)[j] != [] && Pages(r)[j][0].y == TopNext
    decreases if f.y == TopNext then 2 * h else 2 * h + 2 * Gap + 1
  {
    var room := Room(f.y);
    if h > room {
      var first := Fragment(f.y, room + Overlap, top, number, strip);
      var g := Flow(f.done + [f.page + [first]], [], TopNext);
      SpreadNewPages(g, h - room, top + room, None, strip);
      SpreadPageOpens(g, h - room, top + room, None, strip);
    }
  }

  /** Started on an empty page at `TopNext`, an image leaves that page
      opening with its first part. */
  lemma {:induction false} SpreadPageOpens(g: Flow, h: int, top: int, number: Option<int>, strip: Option<Ratio>)
    requires h > 0 && g.page == [] && g.y == TopNext
    ensures var r := Spread(g, h, top, number, strip);
            |r.done| >= |g.done| && Pages(r)[|g.done|] != [] && Pages(r)[|g.done|][0].y == TopNext
  {
    var room := Room(g.y);
    if h > room {
      var first := Fragment(g.y, room + Overlap, top, number, strip);
      var g2 := Flow(g.done + [g.page + [first]], [], TopNext);
      SpreadDone(g2, h - room, top + room, None, strip);
      var r := Spread(g2, h - room, top + room, None, strip);
      assert r.done[..|g2.done|] == g2.done;
      assert r.done[|g.done|] == g2.done[|g.done|];
    }
  }

  // ---------------------------------------------------------------- bounds

  /** A pasted part lies on the page: it starts below the smaller top margin,
      is not empty, and runs at most `Overlap` rows into the bottom margin. */
  predicate InPage(fr: Fragment)
  {
    TopNext <= fr.y && 0 < fr.height && fr.y + fr.height <= PageHeight - Bottom + Overlap
  }

  predicate AllInPage(frs: seq<Fragment>)
  {
    forall k :: 0 <= k < |frs| ==> InPage(frs[k])
  }

  lemma AllInPageAppend(a: seq<Fragment>, b: seq<Fragment>)
    requires AllInPage(a) && AllInPage(b)
    ensures AllInPage(a + b)
  {
    assert forall k :: |a| <= k < |a + b| ==> (a + b)[k] == b[k - |a|];
  }

  /** Every part of an image cut from a cursor on the page lies on the page. */
  lemma CutsInPage(y: int, h: int, top: int, number: Option<int>, strip: Option<Ratio>)
    requires h > 0 && CursorOk(y) && TopNext <= y
    ensures AllInPage(Frags(Cuts(y, h, top), number, strip))
    ensures TopNext <= Last(Cuts(y, h, top)).y
  {
    var c := Cuts(y, h, top);
    CutsShape(y, h, top);
    forall k | 0 <= k < |c|
      ensures TopNext <= c[k].y && 0 < c[k].height && c[k].y + c[k].height <= PageHeight - Bottom + Overlap
    {
      if k > 0 {
        assert c[k].y == TopNext;
      }
      if k < |c| - 1 {
        assert c[k].height == Room(c[k].y) + Overlap;
      } else {
        assert c[k] == Last(c);
      }
    }
    assert Last(c) == c[|c| - 1];
  }

  /** Spreading an image keeps every part on the page and the cursor where
      the loop can meet it. */
  lemma SpreadInPage(f: Flow, h: int, top: int, number: Option<int>, strip: Option<Ratio>)
    requires h > 0 && CursorOk(f.y) && TopNext <= f.y && AllInPage(Flatten(Pages(f)))
    ensures var r := Spread(f, h, top, number, strip);
            AllInPage(Flatten(Pages(r))) && TopNext <= r.y && CursorOk(r.y)
  {
    SpreadFragments(f, h, top, number, strip);
    CutsInPage(f.y, h, top, number, strip);
    SpreadCursor(f, h, top, number, strip);
    AllInPageAppend(Flatten(Pages(f)), Frags(Cuts(f.y, h, top), number, strip));
  }

  // ---------------------------------------------------------------- numbers

  /** The question numbers drawn, in document order. */
  function Numbers(frs: seq<Fragment>): seq<int>
  {
    if frs == [] then [] else (if frs[0].number.Some? then [frs[0].number.value] else []) + Numbers(frs[1..])
  }

  lemma NumbersCons(x: Fragment, rest: seq<Fragment>)
    ensures Numbers([x] + rest) == (if x.number.Some? then [x.number.value] else []) + Numbers(rest)
  {
    assert ([x] + rest)[1..] == rest;
  }

  lemma {:induction false} NumbersAppend(a: seq<Fragment>, b: seq<Fragment>)
    ensures Numbers(a + b) == Numbers(a) + Numbers(b)
  {
    if a == [] {
      assert a + b == b;
    } else {
      var t := a[1..] + b;
      assert a + b == [a[0]] + t;
      assert a == [a[0]] + a[1..];
      NumbersCons(a[0], t);
      NumbersCons(a[0], a[1..]);
      NumbersAppend(a[1..], b);
      Regroup(if a[0].number.Some? then [a[0].number.value] else [], Numbers(a[1..]), Numbers(b));
    }
  }

  lemma {:induction false} NumbersNone(frs: seq<Fragment>)
    requires forall k :: 0 <= k < |frs| ==> frs[k].number == None
    ensures Numbers(frs) == []
  {
    if frs != [] {
      NumbersNone(frs[1..]);
    }
  }

  /** An image's parts carry its number once. */
  lemma FragsNumbers(c: seq<Piece>, n: int, strip: Option<Ratio>)
    requires c != []
    ensures Numbers(Frags(c, Some(n), strip)) == [n]
  {
    var fr := Frags(c, Some(n), strip);
    NumbersNone(fr[1..]);
    assert fr == [fr[0]] + fr[1..];
    NumbersAppend([fr[0]], fr[1..]);
    assert Numbers([fr[0]]) == [n] + Numbers([]);
  }
}
