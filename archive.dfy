/** The archive export: walk the session's uploads in list order with the
    same numbering as the PDF, and save each numbered image that opens as
    `<number>.png`, cropped on the left by its strip's ratio when it has a
    positive one. The pixels are not modelled; an entry records its name,
    its number and the ratio it was cropped by. */
module Archive {
  import opened Base
  import opened PyText
  import opened Uploads
  import opened Numbering
  import opened Pdf

  /** One file of the archive; `crop` is the ratio whose share of the width
      is cut off the left, `None` when the image is saved whole. */
  datatype Entry = Entry(name: string, number: int, crop: Option<Ratio>)

  /** `if question_number_to_display:`, Python truthiness: no number, or the
      number 0, writes nothing. */
  predicate Exports(d: Decision)
  {
    d.Show? && d.number != 0
  }

  function EntryFor(n: int, strips: map<int, Ratio>): (e: Entry)
    ensures e.number == n
    ensures e.crop.Some? <==> n in strips && strips[n] > 0.0
    ensures e.crop.Some? ==> e.crop.value == strips[n]
  {
    Entry(IntToString(n) + ".png", n, if n in strips && strips[n] > 0.0 then Some(strips[n]) else None)
  }

  /** An entry's name is its number's decimal text and `.png`, and the
      number reads back from it. */
  lemma EntryNameReadsBack(n: int, strips: map<int, Ratio>)
    ensures var e := EntryFor(n, strips);
            |e.name| > 4 && e.name[|e.name| - 4..] == ".png" && ParseInt(e.name[..|e.name| - 4]) == Some(n)
  {
    var e := EntryFor(n, strips);
    assert e.name[..|e.name| - 4] == IntToString(n);
    ParseIntToString(n);
  }

  /** The archive loop; a failure to open or enhance reports the error and
      leaves the position advancing as usual. */
  function ZipEntries(files: seq<Upload>, c: Counters, overrides: map<int, int>, skips: seq<int>, strips: map<int, Ratio>): (r: seq<Entry>)
    ensures |r| <= |files|
  {
    if files == [] then []
    else
      var (d, n) := ZipStep(c, overrides, skips);
      EntryOf(files[0], d, strips) + ZipEntries(files[1..], n, overrides, skips, strips)
  }

  /** The entry one upload contributes under decision `d`. */
  function EntryOf(f: Upload, d: Decision, strips: map<int, Ratio>): seq<Entry>
  {
    if Exports(d) && f.decodes then [EntryFor(d.number, strips)] else []
  }

  lemma ZipEntriesStep(files: seq<Upload>, c: Counters, overrides: map<int, int>, skips: seq<int>, strips: map<int, Ratio>)
    requires files != []
    ensures var st := ZipStep(c, overrides, skips);
            ZipEntries(files, c, overrides, skips, strips)
            == EntryOf(files[0], st.0, strips) + ZipEntries(files[1..], st.1, overrides, skips, strips)
  {
  }

  /** The entries chosen from a list of decisions, one per upload. */
  function Select(files: seq<Upload>, ds: seq<Decision>, strips: map<int, Ratio>): seq<Entry>
    requires |files| == |ds|
  {
    if files == [] then []
    else (if Exports(ds[0]) && files[0].decodes then [EntryFor(ds[0].number, strips)] else [])
         + Select(files[1..], ds[1..], strips)
  }

  /** The archive holds, in list order, one entry per upload that opens and
      whose archive decision shows a nonzero number. */
  lemma {:induction false} ZipEntriesSelect(files: seq<Upload>, c: Counters, overrides: map<int, int>, skips: seq<int>, strips: map<int, Ratio>)
    ensures ZipEntries(files, c, overrides, skips, strips)
            == Select(files, ZipDecisions(|files|, c, overrides, skips), strips)
  {
    if files != [] {
      var st := ZipStep(c, overrides, skips);
      var ds := ZipDecisions(|files|, c, overrides, skips);
      assert ds[0] == st.0 && ds[1..] == ZipDecisions(|files| - 1, st.1, overrides, skips);
      ZipEntriesSelect(files[1..], st.1, overrides, skips, strips);
    }
  }

  function EntryNumbers(es: seq<Entry>): (r: seq<int>)
    ensures |r| == |es|
    ensures forall k :: 0 <= k < |es| ==> r[k] == es[k].number
  {
    seq(|es|, k requires 0 <= k < |es| => es[k].number)
  }

  lemma EntryNumbersAppend(a: seq<Entry>, b: seq<Entry>)
    ensures EntryNumbers(a + b) == EntryNumbers(a) + EntryNumbers(b)
  {
  }

  /** When every image can be placed and no override is 0, the archive's
      files are numbered exactly as the PDF's questions, in the same order
      (before the PDF's sort, which only the PDF path applies). */
  lemma {:induction false} ZipMatchesPdf(files: seq<Upload>, c: Counters, overrides: map<int, int>, skips: seq<int>, strips: map<int, Ratio>)
    requires forall i :: 0 <= i < |files| ==> Placeable(files[i])
    requires forall k :: k in overrides ==> overrides[k] != 0
    requires c.counter >= 0
    ensures EntryNumbers(ZipEntries(files, c, overrides, skips, strips)) == PlacedNumbers(PdfOutcomes(files, c, overrides, skips))
  {
    if files != [] {
      var zs := ZipStep(c, overrides, skips);
      var ps := PdfStep(c, files[0], overrides, skips);
      assert zs.1 == ps.1;
      var head: seq<Entry> := if Exports(zs.0) && files[0].decodes then [EntryFor(zs.0.number, strips)] else [];
      assert EntryNumbers(head) == PlacedOf(ps.0);
      ZipMatchesPdf(files[1..], zs.1, overrides, skips, strips);
      PlacedNumbersStep(files, c, overrides, skips);
      assert ZipEntries(files, c, overrides, skips, strips) == head + ZipEntries(files[1..], zs.1, overrides, skips, strips);
      EntryNumbersAppend(head, ZipEntries(files[1..], zs.1, overrides, skips, strips));
    }
  }

  /** An override to 0 is drawn as `0.` in the PDF but writes no archive
      file. */
  lemma ZeroOverrideDropped(f: Upload, strips: map<int, Ratio>)
    requires Placeable(f)
    ensures PdfOutcomes([f], Start, map[1 := 0], []) == [Placed(0, false)]
    ensures ZipEntries([f], Start, map[1 := 0], [], strips) == []
  {
    assert PdfStep(Start, f, map[1 := 0], []) == (Placed(0, false), Counters(2, 0));
    assert [f][1..] == [];
  }

  /** The `for file_info in st.session_state.uploaded_files` loop of the
      archive button, up to the list of saved files. */
  method ZipExport(files: seq<Upload>, overrides: map<int, int>, skips: seq<int>, strips: map<int, Ratio>)
    returns (entries: seq<Entry>)
    ensures entries == ZipEntries(files, Start, overrides, skips, strips)
  {
    entries := [];
    var index, counter := 1, 0;
    for i := 0 to |files|
      invariant entries + ZipEntries(files[i..], Counters(index, counter), overrides, skips, strips)
                == ZipEntries(files, Start, overrides, skips, strips)
    {
      ghost var c := Counters(index, counter);
      ghost var st := ZipStep(c, overrides, skips);
      ghost var before := entries;
      assert files[i..][0] == files[i] && files[i..][1..] == files[i + 1..];
      ZipEntriesStep(files[i..], c, overrides, skips, strips);
      var number: Option<int> := None;
      if index in overrides {
        number := Some(overrides[index]);
        assert st == (Show(overrides[index], false), Counters(index + 1, counter));
      } else if index !in skips {
        counter := counter + 1;
        number := Some(counter);
        assert st == (Show(counter, true), Counters(index + 1, counter));
      } else {
        assert st == (Skip, Counters(index + 1, counter));
      }
      if number.Some? && number.value != 0 && files[i].decodes {
        entries := entries + [EntryFor(number.value, strips)];
      }
      index := index + 1;
      assert entries == before + EntryOf(files[i], st.0, strips);
      Regroup(before, EntryOf(files[i], st.0, strips), ZipEntries(files[i + 1..], st.1, overrides, skips, strips));
    }
  }
}
