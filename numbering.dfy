/** Which question number each upload is labelled with. Both the PDF loop and the archive loop walk
    the upload list keeping a 1-based position `image_index` and the last
    automatic number `question_number_counter`; a position named in the
    override map takes its override, any other position not in the skip list
    takes the next automatic number, and the rest are skipped. The loops differ
    in when the position advances. */
module Numbering {
  import opened Uploads

  datatype Counters = Counters(index: int, counter: int)

  /** `image_index = 1`, `question_number_counter = 0`. */
  const Start := Counters(1, 0)

  /** `fromCounter` tells an automatic number from an override. */
  datatype Decision = Skip | Show(number: int, fromCounter: bool)

  /** The decision at the current position, and the new automatic counter. */
  function Decide(c: Counters, overrides: map<int, int>, skips: seq<int>): (r: (Decision, int))
    ensures c.index in overrides ==> r == (Show(overrides[c.index], false), c.counter)
    ensures c.index !in overrides && c.index !in skips ==> r == (Show(c.counter + 1, true), c.counter + 1)
    ensures r.0 == Skip <==> c.index !in overrides && c.index in skips
    ensures r.0 == Skip ==> r.1 == c.counter
  {
    if c.index in overrides then (Show(overrides[c.index], false), c.counter)
    else if c.index !in skips then (Show(c.counter + 1, true), c.counter + 1)
    else (Skip, c.counter)
  }

  // ---------------------------------------------------------------- the PDF loop

  /** What became of one upload in the PDF loop: skipped, placed with its
      number, or given a number but not placed because opening, enhancing or
      resizing the image raised. */
  datatype Outcome = Skipped | Placed(number: int, fromCounter: bool) | Failed(number: int, fromCounter: bool)

  /** One turn of the PDF loop. A skip advances the position; so does a
      placement; a failure is reported and the loop moves on without
      advancing it, although at an automatically numbered position the
      counter has already moved. */
  function PdfStep(c: Counters, f: Upload, overrides: map<int, int>, skips: seq<int>): (r: (Outcome, Counters))
    ensures r.0.Skipped? <==> Decide(c, overrides, skips).0 == Skip
    ensures r.0.Failed? <==> Decide(c, overrides, skips).0.Show? && !Placeable(f)
    ensures r.1.index == if r.0.Failed? then c.index else c.index + 1
    ensures r.1.counter == Decide(c, overrides, skips).1
    ensures !r.0.Skipped? ==> Decide(c, overrides, skips).0 == Show(r.0.number, r.0.fromCounter)
  {
    var (d, n) := Decide(c, overrides, skips);
    match d
    case Skip => (Skipped, Counters(c.index + 1, n))
    case Show(number, fromCounter) =>
      if Placeable(f) then (Placed(number, fromCounter), Counters(c.index + 1, n))
      else (Failed(number, fromCounter), Counters(c.index, n))
  }

  /** The PDF loop's outcome for each upload, in list order. */
  function PdfOutcomes(files: seq<Upload>, c: Counters, overrides: map<int, int>, skips: seq<int>): (r: seq<Outcome>)
    ensures |r| == |files|
  {
    if files == [] then []
    else
      var (o, n) := PdfStep(c, files[0], overrides, skips);
      [o] + PdfOutcomes(files[1..], n, overrides, skips)
  }

  /** The automatic labels handed out, in order, whether or not the image was
      then placed. */
  function AutoLabels(os: seq<Outcome>): seq<int>
  {
    if os == [] then []
    else (if !os[0].Skipped? && os[0].fromCounter then [os[0].number] else []) + AutoLabels(os[1..])
  }

  /** The automatic labels are consecutive from the counter on: skips and
      overrides take no number, and a failed image uses one up. */
  lemma {:induction false} PdfAutoLabelsConsecutive(files: seq<Upload>, c: Counters, overrides: map<int, int>, skips: seq<int>)
    ensures var a := AutoLabels(PdfOutcomes(files, c, overrides, skips));
            forall j :: 0 <= j < |a| ==> a[j] == c.counter + 1 + j
  {
    if files != [] {
      var (o, n) := PdfStep(c, files[0], overrides, skips);
      PdfAutoLabelsConsecutive(files[1..], n, overrides, skips);
      var os := PdfOutcomes(files, c, overrides, skips);
      assert os == [o] + PdfOutcomes(files[1..], n, overrides, skips);
      assert os[1..] == PdfOutcomes(files[1..], n, overrides, skips);
      var a, t := AutoLabels(os), AutoLabels(os[1..]);
      assert t == AutoLabels(PdfOutcomes(files[1..], n, overrides, skips));
      assert forall j :: 0 <= j < |t| ==> t[j] == n.counter + 1 + j;
      assert os[0] == o;
      if !o.Skipped? && o.fromCounter {
        assert n.counter == c.counter + 1 && o.number == n.counter;
        assert a == [o.number] + t;
        forall j | 0 <= j < |a|
          ensures a[j] == c.counter + 1 + j
        {
          if j > 0 {
            assert a[j] == t[j - 1];
          }
        }
      } else {
        assert n.counter == c.counter;
        assert a == t;
        assert forall j :: 0 <= j < |a| ==> a[j] == t[j];
      }
    }
  }

  /** With no overrides, no skips and every image placeable, the uploads are
      labelled 1, 2, 3, ... in order. */
  lemma {:induction false} PdfPlainNumbering(files: seq<Upload>, c: Counters)
    requires forall i :: 0 <= i < |files| ==> Placeable(files[i])
    ensures var os := PdfOutcomes(files, c, map[], []);
            forall k :: 0 <= k < |os| ==> os[k] == Placed(c.counter + k + 1, true)
  {
    if files != [] {
      var n := Counters(c.index + 1, c.counter + 1);
      assert PdfStep(c, files[0], map[], []) == (Placed(c.counter + 1, true), n);
      PdfPlainNumbering(files[1..], n);
      var os := PdfOutcomes(files, c, map[], []);
      assert os[1..] == PdfOutcomes(files[1..], n, map[], []);
    }
  }

  // ---------------------------------------------------------------- the archive loop

  /** One turn of the archive loop: the same decision, and the position
      always advances. */
  function ZipStep(c: Counters, overrides: map<int, int>, skips: seq<int>): (r: (Decision, Counters))
    ensures r.1.index == c.index + 1
    ensures r.0 == Decide(c, overrides, skips).0 && r.1.counter == Decide(c, overrides, skips).1
  {
    var (d, n) := Decide(c, overrides, skips);
    (d, Counters(c.index + 1, n))
  }

  /** The archive loop's decision for each of `count` uploads. */
  function ZipDecisions(count: nat, c: Counters, overrides: map<int, int>, skips: seq<int>): (r: seq<Decision>)
    ensures |r| == count
  {
    if count == 0 then []
    else
      var (d, n) := ZipStep(c, overrides, skips);
      [d] + ZipDecisions(count - 1, n, overrides, skips)
  }

  /** Whether position `p` takes an automatic number. */
  predicate Auto(p: int, overrides: map<int, int>, skips: seq<int>)
  {
    p !in overrides && p !in skips
  }

  /** How many of the positions `lo` to `hi - 1` take an automatic number. */
  function Autos(lo: int, hi: int, overrides: map<int, int>, skips: seq<int>): nat
    decreases hi - lo
  {
    if lo >= hi then 0 else (if Auto(lo, overrides, skips) then 1 else 0) + Autos(lo + 1, hi, overrides, skips)
  }

  /** The number position `p` should show, given the automatic numbers used
      before it: its override, else the next automatic number, unless it is
      skipped. */
  function DecisionAt(p: int, prior: int, overrides: map<int, int>, skips: seq<int>): Decision
  {
    if p in overrides then Show(overrides[p], false)
    else if p !in skips then Show(prior + 1, true)
    else Skip
  }

  /** The archive loop's decision for the upload at offset `k` depends on its
      position alone: from the start, position `p` shows its override, or the
      count of automatically numbered positions up to and including `p`, or
      is skipped. */
  lemma {:induction false} ZipDecisionsClosed(count: nat, c: Counters, overrides: map<int, int>, skips: seq<int>, k: nat)
    requires k < count
    ensures ZipDecisions(count, c, overrides, skips)[k]
            == DecisionAt(c.index + k, c.counter + Autos(c.index, c.index + k, overrides, skips), overrides, skips)
    decreases k
  {
    var st := ZipStep(c, overrides, skips);
    var ds := ZipDecisions(count, c, overrides, skips);
    assert ds[0] == st.0 && ds[1..] == ZipDecisions(count - 1, st.1, overrides, skips);
    if k > 0 {
      ZipDecisionsClosed(count - 1, st.1, overrides, skips, k - 1);
      assert ds[k] == ds[1..][k - 1];
      assert st.1.counter == c.counter + (if Auto(c.index, overrides, skips) then 1 else 0);
      assert Autos(c.index, c.index + k, overrides, skips)
             == (if Auto(c.index, overrides, skips) then 1 else 0) + Autos(c.index + 1, c.index + k, overrides, skips);
    }
  }

  predicate Agrees(o: Outcome, d: Decision)
  {
    match o
    case Skipped => d == Skip
    case Placed(number, fromCounter) => d == Show(number, fromCounter)
    case Failed(number, fromCounter) => d == Show(number, fromCounter)
  }

  /** Upload by upload, the PDF outcomes follow the archive decisions and
      none is a failure. */
  predicate AllAgree(os: seq<Outcome>, ds: seq<Decision>)
  {
    |os| == |ds| && forall k :: 0 <= k < |os| ==> Agrees(os[k], ds[k]) && !os[k].Failed?
  }

  lemma AllAgreeCons(o: Outcome, os: seq<Outcome>, d: Decision, ds: seq<Decision>)
    requires Agrees(o, d) && !o.Failed? && AllAgree(os, ds)
    ensures AllAgree([o] + os, [d] + ds)
  {
    var a, b := [o] + os, [d] + ds;
    assert forall k :: 1 <= k < |a| ==> a[k] == os[k - 1] && b[k] == ds[k - 1];
  }

  /** When every image can be placed the two loops agree upload by upload:
      the PDF loop only parts from the archive loop after a failure. */
  lemma {:induction false} PdfMatchesZip(files: seq<Upload>, c: Counters, overrides: map<int, int>, skips: seq<int>)
    requires forall i :: 0 <= i < |files| ==> Placeable(files[i])
    ensures AllAgree(PdfOutcomes(files, c, overrides, skips), ZipDecisions(|files|, c, overrides, skips))
  {
    if files != [] {
      var (o, n) := PdfStep(c, files[0], overrides, skips);
      var (d, m) := ZipStep(c, overrides, skips);
      assert n == m;
      assert d == Decide(c, overrides, skips).0;
      assert !o.Failed?;
      assert Agrees(o, d) by {
        if !o.Skipped? {
          assert d == Show(o.number, o.fromCounter);
        }
      }
      PdfMatchesZip(files[1..], n, overrides, skips);
      AllAgreeCons(o, PdfOutcomes(files[1..], n, overrides, skips), d, ZipDecisions(|files| - 1, n, overrides, skips));
    }
  }

  /** After a failure the loops part: an unreadable first upload followed by
      a readable one, with position 2 skipped. The PDF loop retries position
      1 for the second upload and labels it 2; the archive loop skips it. */
  lemma FailureShiftsPositions(bad: Upload, good: Upload)
    requires !Placeable(bad) && Placeable(good)
    ensures PdfOutcomes([bad, good], Start, map[], [2]) == [Failed(1, true), Placed(2, true)]
    ensures ZipDecisions(2, Start, map[], [2]) == [Show(1, true), Skip]
  {
    assert PdfStep(Start, bad, map[], [2]) == (Failed(1, true), Counters(1, 1));
    assert PdfStep(Counters(1, 1), good, map[], [2]) == (Placed(2, true), Counters(2, 2));
    assert [bad, good][1..] == [good];
    assert PdfOutcomes([good], Counters(1, 1), map[], [2]) == [Placed(2, true)];
    assert ZipStep(Start, map[], [2]) == (Show(1, true), Counters(2, 1));
    assert ZipStep(Counters(2, 1), map[], [2]) == (Skip, Counters(3, 1));
    assert ZipDecisions(1, Counters(2, 1), map[], [2]) == [Skip];
  }
}
