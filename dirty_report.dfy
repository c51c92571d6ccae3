/** The summary main prints after every task has been joined: the
    repositories left alone for uncommitted changes, one line each. */
module DirtyReport {
  import opened FsTree

  const Header: string := "these repos have uncommitted changes:"
  const LinePrefix: string := "dir "
  const LineSuffix: string := " has uncommited change, please check"

  /** The line printed for one dirty repository (the script's own wording). */
  function DirtyLine(dir: string): string {
    LinePrefix + dir + LineSuffix
  }

  /** One line per entry, in list order. */
  function EntryLines(dirty: seq<Path>): seq<string> {
    if dirty == [] then []
    else EntryLines(dirty[..|dirty| - 1]) + [DirtyLine(Render(dirty[|dirty| - 1]))]
  }

  /** Everything the report prints: nothing for an empty list, otherwise the
      header and then the entries' lines. */
  function ReportLines(dirty: seq<Path>): seq<string> {
    if |dirty| != 0 then [Header] + EntryLines(dirty) else []
  }

  lemma {:induction false} EntryLinesAt(dirty: seq<Path>)
    ensures |EntryLines(dirty)| == |dirty|
    ensures forall i :: 0 <= i < |dirty| ==> EntryLines(dirty)[i] == DirtyLine(Render(dirty[i]))
  {
    if dirty != [] {
      var init := dirty[..|dirty| - 1];
      EntryLinesAt(init);
      var lines := EntryLines(dirty);
      assert lines == EntryLines(init) + [DirtyLine(Render(dirty[|dirty| - 1]))];
      forall i | 0 <= i < |dirty|
        ensures lines[i] == DirtyLine(Render(dirty[i]))
      {
        if i < |init| {
          assert dirty[i] == init[i];
        }
      }
    }
  }

  /** The report is empty exactly when the list is; otherwise it is the
      header followed by the line for each entry, in list order. */
  lemma ReportShape(dirty: seq<Path>)
    ensures ReportLines(dirty) == [] <==> dirty == []
    ensures dirty != [] ==> |ReportLines(dirty)| == |dirty| + 1 && ReportLines(dirty)[0] == Header
    ensures forall i :: 0 <= i < |dirty| ==> ReportLines(dirty)[i + 1] == DirtyLine(Render(dirty[i]))
  {
    EntryLinesAt(dirty);
  }

  /** The printing loop of main, collecting the printed lines. */
  method PrintReport(dirty: seq<Path>) returns (lines: seq<string>)
    ensures lines == ReportLines(dirty)
  {
    lines := [];
    if |dirty| != 0 {
      lines := [Header];
      for i := 0 to |dirty|
        invariant lines == [Header] + EntryLines(dirty[..i])
      {
        lines := lines + [DirtyLine(Render(dirty[i]))];
        assert dirty[..i + 1][..i] == dirty[..i];
      }
      assert dirty[..|dirty|] == dirty;
    }
  }
}
