/**
 The text file splitter: the first line of a text file is its header; the
 remaining lines (the data rows) are written, in order, into chunk files of
 at most `chunksize` rows each, every chunk file starting with a copy of the
 header. A chunk file is named `<workspace>/<filepattern>-<index>.<fileext>`
 with the index counting from 0.

 Files are modelled as sequences of lines: the input file system is a map
 from path to lines, and the chunk files the splitter writes are returned as
 a sequence of (path, lines) values in the order they are written.
 */
module Splitter {
  import opened Common

  /** Fallback for an absent `workspace` input. */
  const DefaultWorkspace: string := "./workspace"
  /** Fallback for an absent `chunksize` input. */
  const DefaultChunkSize: nat := 10000

  /** The inputs dictionary: `inputpath` is required, the others may be absent. */
  datatype SplitterInputs = SplitterInputs(inputpath: string, workspace: Option<string>, chunksize: Option<int>)

  /** What `split_path` returns for a path: directory, extension and base-name pattern. */
  datatype PathParts = PathParts(path: string, fileext: string, filepattern: string)

  /** One written chunk file: its path and its lines, header first. */
  datatype ChunkFile = ChunkFile(path: string, lines: seq<string>)

  /** The response dictionary and the chunk files written while producing it. */
  datatype SplitOutcome = SplitOutcome(response: map<string, JsonValue>, written: seq<ChunkFile>)

  function Min(a: int, b: int): int { if a <= b then a else b }

  // ---------------------------------------------------------------------
  // Chunk file names
  // ---------------------------------------------------------------------

  function DigitChar(d: nat): char
    requires d < 10
  {
    "0123456789"[d]
  }

  /** Python's `str` on a non-negative integer: its decimal digits. */
  function NatToString(n: nat): (s: string)
    ensures |s| >= 1
    ensures n >= 10 ==> |s| >= 2
  {
    if n < 10 then [DigitChar(n)] else NatToString(n / 10) + [DigitChar(n % 10)]
  }

  /** Different numbers are written differently. */
  lemma {:induction false} NatToStringInjective(m: nat, n: nat)
    requires NatToString(m) == NatToString(n)
    ensures m == n
  {
    if m < 10 && n < 10 {
      assert NatToString(m)[0] == DigitChar(m);
    } else if m >= 10 && n >= 10 {
      var sm, sn := NatToString(m), NatToString(n);
      assert sm[..|sm| - 1] == NatToString(m / 10);
      assert sn[..|sn| - 1] == NatToString(n / 10);
      NatToStringInjective(m / 10, n / 10);
      assert sm[|sm| - 1] == DigitChar(m % 10);
      assert sn[|sn| - 1] == DigitChar(n % 10);
    }
  }

  /** The path of chunk file `index`: `<workspace>/<filepattern>-<index>.<fileext>`. */
  function ChunkPath(workspace: string, filepattern: string, index: nat, fileext: string): string
  {
    workspace + "/" + filepattern + "-" + NatToString(index) + "." + fileext
  }

  /** Two different chunk indices give two different chunk file paths. */
  lemma ChunkPathInjective(workspace: string, filepattern: string, i: nat, j: nat, fileext: string)
    requires ChunkPath(workspace, filepattern, i, fileext) == ChunkPath(workspace, filepattern, j, fileext)
    ensures i == j
  {
    var prefix := workspace + "/" + filepattern + "-";
    var suffix := "." + fileext;
    var si, sj := NatToString(i), NatToString(j);
    var pi, pj := ChunkPath(workspace, filepattern, i, fileext), ChunkPath(workspace, filepattern, j, fileext);
    assert pi == prefix + si + suffix;
    assert pj == prefix + sj + suffix;
    assert |si| == |sj|;
    assert pi[|prefix|..|prefix| + |si|] == si;
    assert pj[|prefix|..|prefix| + |sj|] == sj;
    NatToStringInjective(i, j);
  }

  // ---------------------------------------------------------------------
  // How many chunks, and which rows each one holds
  // ---------------------------------------------------------------------

  /** The number of chunks `n` rows fill at `size` rows per chunk. */
  function NumChunks(n: nat, size: nat): nat
    requires size > 0
  {
    if n % size == 0 then n / size else n / size + 1
  }

  lemma MulMonotone(a: nat, b: nat, size: nat)
    requires a <= b
    ensures a * size <= b * size
  {
  }

  lemma DivModUnique(a: nat, size: nat, q: nat, r: nat)
    requires size > 0 && r < size && a == q * size + r
    ensures a / size == q && a % size == r
  {
    var q', r' := a / size, a % size;
    assert q' * size + r' == q * size + r;
    if q' < q {
      MulMonotone(q' + 1, q, size);
    } else if q < q' {
      MulMonotone(q + 1, q', size);
    }
  }

  /** `NumChunks` is the ceiling of `n / size`: the chunks hold all rows, and the
      last one is not empty, so an exact multiple has no trailing empty chunk. */
  lemma NumChunksIsCeiling(n: nat, size: nat)
    requires size > 0
    ensures n == 0 <==> NumChunks(n, size) == 0
    ensures n <= NumChunks(n, size) * size
    ensures n > 0 ==> (NumChunks(n, size) - 1) * size < n
    ensures n % size == 0 ==> NumChunks(n, size) * size == n
  {
    var q, r := n / size, n % size;
    assert n == q * size + r;
    if n == 0 {
      DivModUnique(0, size, 0, 0);
    }
    if r != 0 {
      assert (q + 1) * size == q * size + size;
    }
  }

  /** The first row of chunk `i` lies inside the rows. */
  lemma ChunkStartInRange(n: nat, size: nat, i: nat)
    requires size > 0 && i < NumChunks(n, size)
    ensures i * size < n
  {
    NumChunksIsCeiling(n, size);
    MulMonotone(i, NumChunks(n, size) - 1, size);
  }

  /** The data rows chunk `i` holds: `size` rows from row `i * size` on, or fewer at the end. */
  function ChunkRows(rows: seq<string>, size: nat, i: nat): seq<string>
    requires size > 0 && i < NumChunks(|rows|, size)
  {
    ChunkStartInRange(|rows|, size, i);
    rows[i * size .. Min((i + 1) * size, |rows|)]
  }

  /** The chunk files the splitter should write for `rows` under `header`. */
  function ChunkFiles(header: string, rows: seq<string>, size: nat,
                      workspace: string, filepattern: string, fileext: string): seq<ChunkFile>
    requires size > 0
  {
    seq(NumChunks(|rows|, size), i requires 0 <= i < NumChunks(|rows|, size) =>
      ChunkFile(ChunkPath(workspace, filepattern, i, fileext), [header] + ChunkRows(rows, size, i)))
  }

  /** The data rows of a chunk file: everything after its header line. */
  function Body(f: ChunkFile): seq<string>
  {
    if f.lines == [] then [] else f.lines[1..]
  }

  /** The data rows of all chunk files, concatenated in chunk-index order. */
  function DataLines(files: seq<ChunkFile>): seq<string>
  {
    if files == [] then [] else DataLines(files[..|files| - 1]) + Body(files[|files| - 1])
  }

  // ---------------------------------------------------------------------
  // One more row: the step the splitting loop takes
  // ---------------------------------------------------------------------

  lemma NumChunksSucc(n: nat, size: nat)
    requires size > 0
    ensures n % size == 0 ==> NumChunks(n + 1, size) == NumChunks(n, size) + 1 && NumChunks(n, size) == n / size
    ensures n % size != 0 ==> NumChunks(n + 1, size) == NumChunks(n, size) && NumChunks(n, size) == n / size + 1
    ensures n % size != 0 ==> n + 1 <= NumChunks(n, size) * size
  {
    var q, r := n / size, n % size;
    if r + 1 < size {
      DivModUnique(n + 1, size, q, r + 1);
    } else {
      DivModUnique(n + 1, size, q + 1, 0);
    }
    if r != 0 {
      assert (q + 1) * size == q * size + size;
    }
  }

  /** A chunk that is full before a new row is not changed by it. */
  lemma ChunkRowsUnchanged(rows: seq<string>, x: string, size: nat, i: nat)
    requires size > 0 && i < NumChunks(|rows|, size) && (i + 1) * size <= |rows|
    ensures i < NumChunks(|rows| + 1, size)
    ensures ChunkRows(rows + [x], size, i) == ChunkRows(rows, size, i)
  {
    NumChunksSucc(|rows|, size);
    ChunkStartInRange(|rows|, size, i);
  }

  /** After a multiple of `size` rows, the next row starts a chunk of its own. */
  lemma ChunkRowsOpen(rows: seq<string>, x: string, size: nat)
    requires size > 0 && |rows| % size == 0
    ensures |rows| / size < NumChunks(|rows| + 1, size)
    ensures ChunkRows(rows + [x], size, |rows| / size) == [x]
  {
    var n, q := |rows|, |rows| / size;
    NumChunksSucc(n, size);
    DivModUnique(n, size, q, 0);
    assert q * size == n;
    assert (q + 1) * size == n + size;
  }

  /** Otherwise the next row joins the last chunk. */
  lemma ChunkRowsExtend(rows: seq<string>, x: string, size: nat)
    requires size > 0 && |rows| % size != 0
    ensures 0 < NumChunks(|rows|, size) == NumChunks(|rows| + 1, size)
    ensures ChunkRows(rows + [x], size, NumChunks(|rows|, size) - 1)
         == ChunkRows(rows, size, NumChunks(|rows|, size) - 1) + [x]
  {
    var n, m := |rows|, NumChunks(|rows|, size);
    NumChunksSucc(n, size);
    ChunkStartInRange(n, size, m - 1);
    assert (m - 1 + 1) * size == m * size;
  }

  /** When the rows so far are a multiple of `size`, one more row opens a new
      chunk file holding just the header and that row. */
  lemma ChunkFilesOpen(header: string, rows: seq<string>, x: string, size: nat,
                       workspace: string, filepattern: string, fileext: string)
    requires size > 0 && |rows| % size == 0
    ensures ChunkFiles(header, rows + [x], size, workspace, filepattern, fileext)
         == ChunkFiles(header, rows, size, workspace, filepattern, fileext)
            + [ChunkFile(ChunkPath(workspace, filepattern, |rows| / size, fileext), [header, x])]
  {
    var before := ChunkFiles(header, rows, size, workspace, filepattern, fileext);
    var after := ChunkFiles(header, rows + [x], size, workspace, filepattern, fileext);
    var m := NumChunks(|rows|, size);
    NumChunksSucc(|rows|, size);
    forall i | 0 <= i < m
      ensures after[i] == before[i]
    {
      MulMonotone(i + 1, m, size);
      NumChunksIsCeiling(|rows|, size);
      ChunkRowsUnchanged(rows, x, size, i);
    }
    ChunkRowsOpen(rows, x, size);
    assert m == |rows| / size && |after| == m + 1;
    assert after[m].lines == [header] + [x] == [header, x];
    assert after[m] == ChunkFile(ChunkPath(workspace, filepattern, |rows| / size, fileext), [header, x]);
    assert after == before + [after[m]];
  }

  /** Otherwise one more row is appended to the last chunk file. */
  lemma ChunkFilesExtend(header: string, rows: seq<string>, x: string, size: nat,
                         workspace: string, filepattern: string, fileext: string)
    requires size > 0 && |rows| % size != 0
    ensures var before := ChunkFiles(header, rows, size, workspace, filepattern, fileext);
            before != [] &&
            ChunkFiles(header, rows + [x], size, workspace, filepattern, fileext)
            == before[..|before| - 1] + [before[|before| - 1].(lines := before[|before| - 1].lines + [x])]
  {
    var before := ChunkFiles(header, rows, size, workspace, filepattern, fileext);
    var after := ChunkFiles(header, rows + [x], size, workspace, filepattern, fileext);
    var m := NumChunks(|rows|, size);
    NumChunksSucc(|rows|, size);
    forall i | 0 <= i < m - 1
      ensures after[i] == before[i]
    {
      MulMonotone(i + 1, m - 1, size);
      ChunkStartInRange(|rows|, size, m - 1);
      ChunkRowsUnchanged(rows, x, size, i);
    }
    ChunkRowsExtend(rows, x, size);
    var last := before[m - 1];
    assert |after| == |before| == m;
    assert after[m - 1] == last.(lines := last.lines + [x]);
    assert after == before[..m - 1] + [after[m - 1]];
  }

  // ---------------------------------------------------------------------
  // Properties of the chunk files
  // ---------------------------------------------------------------------

  /** Every chunk file begins with exactly the source header line. */
  lemma ChunksStartWithHeader(header: string, rows: seq<string>, size: nat,
                              workspace: string, filepattern: string, fileext: string, i: nat)
    requires size > 0
    requires i < |ChunkFiles(header, rows, size, workspace, filepattern, fileext)|
    ensures ChunkFiles(header, rows, size, workspace, filepattern, fileext)[i].lines[0] == header
  {
  }

  /** Chunk file `i` is named with index `i`, so no two chunk files share a path. */
  lemma ChunkPathsDistinct(header: string, rows: seq<string>, size: nat,
                           workspace: string, filepattern: string, fileext: string, i: nat, j: nat)
    requires size > 0
    requires i < j < |ChunkFiles(header, rows, size, workspace, filepattern, fileext)|
    ensures var files := ChunkFiles(header, rows, size, workspace, filepattern, fileext);
            files[i].path == ChunkPath(workspace, filepattern, i, fileext) &&
            files[i].path != files[j].path
  {
    var files := ChunkFiles(header, rows, size, workspace, filepattern, fileext);
    if files[i].path == files[j].path {
      ChunkPathInjective(workspace, filepattern, i, j, fileext);
    }
  }

  /** Every chunk holds between 1 and `size` data rows, and every chunk but the last exactly `size`. */
  lemma ChunkSizes(header: string, rows: seq<string>, size: nat,
                   workspace: string, filepattern: string, fileext: string, i: nat)
    requires size > 0
    requires i < |ChunkFiles(header, rows, size, workspace, filepattern, fileext)|
    ensures var files := ChunkFiles(header, rows, size, workspace, filepattern, fileext);
            1 <= |Body(files[i])| <= size &&
            (i < |files| - 1 ==> |Body(files[i])| == size)
  {
    var n := |rows|;
    var files := ChunkFiles(header, rows, size, workspace, filepattern, fileext);
    ChunkStartInRange(n, size, i);
    assert Body(files[i]) == ChunkRows(rows, size, i);
    if i < |files| - 1 {
      NumChunksIsCeiling(n, size);
      MulMonotone(i + 1, NumChunks(n, size) - 1, size);
    }
  }

  /** Concatenating the data rows of the chunk files in index order gives back the rows. */
  lemma {:induction false} ChunksReassemble(header: string, rows: seq<string>, size: nat,
                                            workspace: string, filepattern: string, fileext: string)
    requires size > 0
    ensures DataLines(ChunkFiles(header, rows, size, workspace, filepattern, fileext)) == rows
    decreases |rows|
  {
    if rows == [] {
      NumChunksIsCeiling(0, size);
    } else {
      var init, x := rows[..|rows| - 1], rows[|rows| - 1];
      assert rows == init + [x];
      ChunksReassemble(header, init, size, workspace, filepattern, fileext);
      var before := ChunkFiles(header, init, size, workspace, filepattern, fileext);
      var after := ChunkFiles(header, rows, size, workspace, filepattern, fileext);
      if |init| % size == 0 {
        ChunkFilesOpen(header, init, x, size, workspace, filepattern, fileext);
        assert after[..|after| - 1] == before;
      } else {
        ChunkFilesExtend(header, init, x, size, workspace, filepattern, fileext);
        var last := before[|before| - 1];
        assert after[..|after| - 1] == before[..|before| - 1];
        assert DataLines(before) == DataLines(before[..|before| - 1]) + Body(last);
        assert last.lines != [];
        assert Body(after[|after| - 1]) == Body(last) + [x];
      }
    }
  }

  // ---------------------------------------------------------------------
  // The splitter
  // ---------------------------------------------------------------------

  /** The chunk files written so far: the closed ones and the open one, if any. */
  function Emitted(closed: seq<ChunkFile>, dest: Option<ChunkFile>): seq<ChunkFile>
  {
    if dest.Some? then closed + [dest.value] else closed
  }

  /**
   The splitting loop. Before each row it checks `rowcount % chunksize == 0`,
   with `rowcount` the number of rows already written; if so it closes the
   open chunk file, opens the next one under index `chunks` and writes the
   header into it. Then it writes the row and counts it.
   */
  method SplitIntoChunks(header: string, rows: seq<string>, chunksize: nat,
                         workspace: string, filepattern: string, fileext: string)
    returns (written: seq<ChunkFile>, rowcount: nat, chunks: nat)
    requires chunksize > 0
    ensures written == ChunkFiles(header, rows, chunksize, workspace, filepattern, fileext)
    ensures rowcount == |rows|
    ensures chunks == |written| == NumChunks(|rows|, chunksize)
  {
    var dest: Option<ChunkFile> := None;
    written := [];
    rowcount := 0;
    chunks := 0;
    for k := 0 to |rows|
      invariant rowcount == k
      invariant chunks == NumChunks(k, chunksize)
      invariant dest.None? <==> k == 0
      invariant Emitted(written, dest) == ChunkFiles(header, rows[..k], chunksize, workspace, filepattern, fileext)
    {
      var line := rows[k];
      ghost var before := ChunkFiles(header, rows[..k], chunksize, workspace, filepattern, fileext);
      NumChunksSucc(k, chunksize);
      assert rows[..k + 1] == rows[..k] + [line];
      if rowcount % chunksize == 0 {
        ChunkFilesOpen(header, rows[..k], line, chunksize, workspace, filepattern, fileext);
        if dest.Some? {
          written := written + [dest.value];
        }
        assert written == before;
        var destfile := ChunkPath(workspace, filepattern, chunks, fileext);
        dest := Some(ChunkFile(destfile, [header]));
        chunks := chunks + 1;
        assert [header] + [line] == [header, line];
      } else {
        ChunkFilesExtend(header, rows[..k], line, chunksize, workspace, filepattern, fileext);
        assert written == before[..|before| - 1] && dest.value == before[|before| - 1];
      }
      dest := Some(dest.value.(lines := dest.value.lines + [line]));
      rowcount := rowcount + 1;
    }
    assert rows[..|rows|] == rows;
    if dest.Some? {
      written := written + [dest.value];
    }
  }

  /** The workspace in effect: the input's, or the default when it is absent. */
  function EffectiveWorkspace(inputs: SplitterInputs): string
  {
    if inputs.workspace.Some? then inputs.workspace.value else DefaultWorkspace
  }

  /** The chunk size in effect: the input's, or the default when it is absent. */
  function EffectiveChunkSize(inputs: SplitterInputs): (size: nat)
    requires inputs.chunksize.Some? ==> inputs.chunksize.value > 0
    ensures size > 0
  {
    if inputs.chunksize.Some? then inputs.chunksize.value else DefaultChunkSize
  }

  /** The response of a completed split: every field present, `success` true. */
  method SplitterResponse(filepattern: string, fileext: string, chunks: nat, rowcount: nat)
    returns (response: map<string, JsonValue>)
    ensures response.Keys == {"splitfilepattern", "splitfileext", "chunks", "splitrowcount", "success"}
    ensures response["splitfilepattern"] == JStr(filepattern)
    ensures response["splitfileext"] == JStr(fileext)
    ensures response["chunks"] == JInt(chunks)
    ensures response["splitrowcount"] == JInt(rowcount)
    ensures response["success"] == JBool(true)
  {
    var returnvars := ["splitfilepattern", "splitfileext", "chunks", "splitrowcount", "success"];
    var returnvals := [JStr(filepattern), JStr(fileext), JInt(chunks), JInt(rowcount), JBool(true)];
    response := BuildResponse(returnvars, returnvals);
    assert LastOccurrence(returnvars, 0) && LastOccurrence(returnvars, 1) && LastOccurrence(returnvars, 2)
        && LastOccurrence(returnvars, 3) && LastOccurrence(returnvars, 4);
  }

  /**
   The splitter. A missing input file gives no response and no chunk files.
   Otherwise the first line is the header, the rest are the data rows, the
   chunk files are those of `ChunkFiles`, and the response reports the
   pattern, the extension, the number of chunk files, the number of data rows
   and success.
   */
  method TextFileSplitter(inputs: SplitterInputs, files: map<string, seq<string>>,
                          splitPath: string -> PathParts)
    returns (result: Option<SplitOutcome>)
    requires inputs.chunksize.Some? ==> inputs.chunksize.value > 0
    requires inputs.inputpath in files ==> files[inputs.inputpath] != []
    ensures inputs.inputpath !in files <==> result.None?
    ensures result.Some? ==>
              var source := files[inputs.inputpath];
              var parts := splitPath(inputs.inputpath);
              var written := result.value.written;
              var response := result.value.response;
              && written == ChunkFiles(source[0], source[1..], EffectiveChunkSize(inputs),
                                       EffectiveWorkspace(inputs), parts.filepattern, parts.fileext)
              && response.Keys == {"splitfilepattern", "splitfileext", "chunks", "splitrowcount", "success"}
              && response["splitfilepattern"] == JStr(parts.filepattern)
              && response["splitfileext"] == JStr(parts.fileext)
              && response["chunks"] == JInt(|written|)
              && response["chunks"] == JInt(NumChunks(|source| - 1, EffectiveChunkSize(inputs)))
              && response["splitrowcount"] == JInt(|source| - 1)
              && response["success"] == JBool(true)
              && (|source| == 1 ==> written == [] && response["chunks"] == JInt(0))
  {
    var inputpath := inputs.inputpath;
    if inputpath !in files {
      return None;
    }
    var workspace := EffectiveWorkspace(inputs);
    var chunksize := EffectiveChunkSize(inputs);
    var input := files[inputpath];
    var parts := splitPath(inputpath);
    var header := input[0];
    var written, rowcount, chunks := SplitIntoChunks(header, input[1..], chunksize,
                                                     workspace, parts.filepattern, parts.fileext);
    NumChunksIsCeiling(|input| - 1, chunksize);
    var response := SplitterResponse(parts.filepattern, parts.fileext, chunks, rowcount);
    result := Some(SplitOutcome(response, written));
  }
}
