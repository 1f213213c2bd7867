/** The file query of each collection in getOneDicom (main.go): of the rows that `iquest` prints
    for one collection, which are passed on for download. Rows saying that nothing was found are
    skipped, zip files are all passed on, and the first other file is passed on and ends the scan. */
module FileSelection {
  import opened Text
  import opened Download

  /** The row `iquest` prints when a query has no result. */
  const NoRowsFound := "CAT_NO_ROWS_FOUND"

  predicate IsSentinel(row: string) {
    Contains(row, NoRowsFound)
  }

  /** The rows that are not "no rows found" markers, in order. */
  function DataRows(rows: seq<string>): (ds: seq<string>)
    ensures forall k :: 0 <= k < |ds| ==> !IsSentinel(ds[k])
    ensures |ds| <= |rows|
    decreases |rows|
  {
    if rows == [] then []
    else (if IsSentinel(rows[0]) then [] else [rows[0]]) + DataRows(rows[1..])
  }

  /** The rows passed on: every zip file up to the first file that is not one, and that file. */
  function Selection(rows: seq<string>): (files: seq<string>)
    ensures forall k :: 0 <= k < |files| ==> !IsSentinel(files[k])
    ensures forall k :: 0 <= k < |files| - 1 ==> IsZipFile(files[k])
    decreases |rows|
  {
    if rows == [] then []
    else if IsSentinel(rows[0]) then Selection(rows[1..])
    else if IsZipFile(rows[0]) then [rows[0]] + Selection(rows[1..])
    else [rows[0]]
  }

  /** The `for ... range` loop over the rows of one collection. */
  method SelectFiles(rows: seq<string>) returns (files: seq<string>)
    ensures files == Selection(rows)
  {
    files := [];
    var i := 0;
    while i < |rows|
      invariant i <= |rows|
      invariant files + Selection(rows[i..]) == Selection(rows)
    {
      var row := rows[i];
      assert rows[i..][0] == row && rows[i..][1..] == rows[i + 1..];
      if IsSentinel(row) {
        i := i + 1;
        continue;
      }
      if IsZipFile(row) {
        assert files + [row] + Selection(rows[i + 1..]) == files + ([row] + Selection(rows[i + 1..]));
        files := files + [row];
        i := i + 1;
        continue;
      }
      files := files + [row];
      break;
    }
  }

  // ---- Properties of the selection ----

  /** The rows passed on are the input rows with some left out, in order. */
  lemma {:induction false} SelectionIsSubsequence(rows: seq<string>)
    ensures IsSubsequence(Selection(rows), rows)
    decreases |rows|
  {
    if rows != [] {
      var rest := rows[1..];
      assert [rows[0]] + rest == rows;
      if IsSentinel(rows[0]) {
        SelectionIsSubsequence(rest);
        SubsequenceSkipFirst(Selection(rest), rows[0], rest);
      } else if IsZipFile(rows[0]) {
        SelectionIsSubsequence(rest);
        assert ([rows[0]] + Selection(rest))[1..] == Selection(rest);
      } else {
        assert [rows[0]][1..] == [];
      }
    }
  }

  /** When a row that is neither a marker nor a zip file occurs, the first such row is the last
      one passed on, after every zip file before it, and nothing after it is passed on. */
  lemma {:induction false} StopsAtFirstOther(rows: seq<string>, s: nat)
    requires s < |rows| && !IsSentinel(rows[s]) && !IsZipFile(rows[s])
    requires forall j :: 0 <= j < s ==> IsSentinel(rows[j]) || IsZipFile(rows[j])
    ensures Selection(rows) == DataRows(rows[..s]) + [rows[s]]
    decreases s
  {
    if s == 0 {
      assert rows[..0] == [];
    } else {
      var rest := rows[1..];
      StopsAtFirstOther(rest, s - 1);
      assert rest[..s - 1] == rows[1..s];
      assert rows[..s][0] == rows[0] && rows[..s][1..] == rows[1..s];
      if !IsSentinel(rows[0]) {
        assert [rows[0]] + (DataRows(rows[1..s]) + [rows[s]]) == [rows[0]] + DataRows(rows[1..s]) + [rows[s]];
      }
    }
  }

  /** When every row is a marker or a zip file, every row that is not a marker is passed on. */
  lemma {:induction false} AllZipFilesPassed(rows: seq<string>)
    requires forall j :: 0 <= j < |rows| ==> IsSentinel(rows[j]) || IsZipFile(rows[j])
    ensures Selection(rows) == DataRows(rows)
    decreases |rows|
  {
    if rows != [] {
      var rest := rows[1..];
      forall j | 0 <= j < |rest| ensures IsSentinel(rest[j]) || IsZipFile(rest[j]) {
        assert rest[j] == rows[j + 1];
      }
      AllZipFilesPassed(rest);
    }
  }
}
