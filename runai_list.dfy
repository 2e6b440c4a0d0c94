/** `runai_list`: the captured output of `runai list` turned into a table. The first and the
    last line are thrown away, every remaining line is cut into cells at runs of two or more
    whitespace characters (dgx/rlist.py:37-39),
    the first line's cells name the columns and the following lines' cells fill the rows. */
module RunaiListing {
  import opened Results
  import opened Split
  import opened Frames

  /** The split lines: the header's cells and each data row's cells, in output order. */
  datatype Listing = Listing(header: seq<string>, data: seq<seq<string>>)

  /** The lines without the first and the last one (dgx/rlist.py:37). */
  function Inner(lines: seq<string>): (r: seq<string>)
    ensures |r| == if |lines| < 2 then 0 else |lines| - 2
    ensures forall k :: 0 <= k < |r| ==> r[k] == lines[k + 1]
  {
    if |lines| < 2 then [] else lines[1..|lines| - 1]
  }

  /** The output cut into lines, without the first and the last, and each of those cut into
      cells (dgx/rlist.py:37-39); the first becomes the header and the others the rows
      (dgx/rlist.py:40). With fewer than two newlines no line is left for the header and the
      program fails. */
  function DecodeListing(out: string): (r: Result<Listing>)
    ensures r.Err? <==> CountChar(out, '\n') < 2
    ensures r.Err? ==> r.error == NoHeader
    ensures r.Ok? ==> r.value.header == SplitCells(SplitLines(out)[1])
    ensures r.Ok? ==> |r.value.data| == CountChar(out, '\n') - 2
    ensures r.Ok? ==> forall k :: 0 <= k < |r.value.data| ==> r.value.data[k] == SplitCells(SplitLines(out)[k + 2])
  {
    var rows := Inner(SplitLines(out));
    var data := seq(|rows|, i requires 0 <= i < |rows| => SplitCells(rows[i]));
    if data == [] then Err(NoHeader) else Ok(Listing(data[0], data[1..]))
  }

  /** The first and last line are discarded, the second line becomes the header and the lines
      between it and the last one become the data rows, in their order. Together with
      `JoinSplitLines`, every output has this form. */
  lemma DecodeListingFraming(lines: seq<string>)
    requires |lines| >= 3
    requires forall k :: 0 <= k < |lines| ==> '\n' !in lines[k]
    ensures DecodeListing(Join(lines, "\n"))
      == Ok(Listing(SplitCells(lines[1]), seq(|lines| - 3, k requires 0 <= k < |lines| - 3 => SplitCells(lines[k + 2]))))
  {
    var text := Join(lines, "\n");
    SplitJoinLines(lines);
    assert SplitLines(text) == lines;
    assert CountChar(text, '\n') == |lines| - 1;
    var r := DecodeListing(text);
    assert r.Ok? && r.value.header == SplitCells(lines[1]);
    var rows := seq(|lines| - 3, k requires 0 <= k < |lines| - 3 => SplitCells(lines[k + 2]));
    assert |r.value.data| == |rows|;
    assert forall k :: 0 <= k < |rows| ==> r.value.data[k] == rows[k];
    assert r.value.data == rows;
  }

  /** The row of the cells `cells` under the column names `header`. */
  function RowOf(header: seq<string>, cells: seq<string>): (row: Row)
    requires |header| == |cells| && Distinct(header)
    ensures row.Keys == set c | c in header
    ensures forall k :: 0 <= k < |header| ==> row[header[k]] == cells[k]
  {
    map k | 0 <= k < |header| :: header[k] := cells[k]
  }

  /** The data frame built from the header and the rows (dgx/rlist.py:40), for headers without
      repeated names and rows exactly as wide as the header. */
  function ToTable(l: Listing): (r: Result<Table>)
    ensures r.Ok? <==> Distinct(l.header) && forall i :: 0 <= i < |l.data| ==> |l.data[i]| == |l.header|
    ensures r.Ok? ==> WellFormed(r.value) && r.value.columns == l.header && |r.value.rows| == |l.data|
    ensures r.Ok? ==> forall i, k :: 0 <= i < |l.data| && 0 <= k < |l.header| ==> r.value.rows[i][l.header[k]] == l.data[i][k]
  {
    if !Distinct(l.header) then Err(DuplicateColumn)
    else if exists i :: 0 <= i < |l.data| && |l.data[i]| != |l.header| then Err(RaggedRow)
    else Ok(Table(l.header, seq(|l.data|, i requires 0 <= i < |l.data| => RowOf(l.header, l.data[i]))))
  }

  /** The whole of `runai_list` on the captured output: with at least two newlines it succeeds
      exactly when the header line's cells are distinct and every line between it and the last
      has as many cells; row `i` then maps the `k`-th column to the `k`-th cell of line `i + 2`. */
  function RunaiList(out: string): (r: Result<Table>)
    ensures CountChar(out, '\n') < 2 ==> r == Err(NoHeader)
    ensures CountChar(out, '\n') >= 2 ==>
      (r.Ok? <==>
        (Distinct(SplitCells(SplitLines(out)[1])) &&
         forall i :: 2 <= i < |SplitLines(out)| - 1 ==> |SplitCells(SplitLines(out)[i])| == |SplitCells(SplitLines(out)[1])|))
    ensures CountChar(out, '\n') >= 2 && r.Err? ==> r.error == DuplicateColumn || r.error == RaggedRow
    ensures r.Ok? ==> WellFormed(r.value)
    ensures r.Ok? ==> r.value.columns == SplitCells(SplitLines(out)[1])
    ensures r.Ok? ==> |r.value.rows| == CountChar(out, '\n') - 2
    ensures r.Ok? ==> forall i, k :: 0 <= i < |r.value.rows| && 0 <= k < |r.value.columns| ==>
      |SplitCells(SplitLines(out)[i + 2])| == |r.value.columns| &&
      r.value.rows[i][r.value.columns[k]] == SplitCells(SplitLines(out)[i + 2])[k]
  {
    var l :- DecodeListing(out);
    assert forall i :: 2 <= i < |SplitLines(out)| - 1 ==> SplitCells(SplitLines(out)[i]) == l.data[i - 2];
    ToTable(l)
  }
}
