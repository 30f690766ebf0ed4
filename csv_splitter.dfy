/** The fixed-size CSV splitter: reads the header row of a CSV file, then
    cuts the data rows into consecutive files of rowsPerFile rows each (the
    last one possibly shorter), every file starting with the header. Files
    are modelled as chunks appended to an output sequence. */
module CsvSplitter {
  import opened Wrappers

  /** One parsed CSV row: its cells. */
  type CsvRow = seq<string>

  /** One output file: its number (the file_count suffix), the header row
      written first, then its data rows. */
  datatype Chunk = Chunk(index: nat, header: CsvRow, rows: seq<CsvRow>)

  /** Reading the header of a file with no rows at all fails. */
  datatype SplitError = MissingHeader

  /** The data rows of the chunks, in chunk order, headers left out. */
  function Flatten(chunks: seq<Chunk>): seq<CsvRow>
  {
    if chunks == [] then []
    else Flatten(chunks[..|chunks| - 1]) + chunks[|chunks| - 1].rows
  }

  /** The lines written to the file of chunk c: the header, then its rows. */
  function FileLines(c: Chunk): seq<CsvRow>
  {
    [c.header] + c.rows
  }

  /** c chunks of at most n rows are the fewest that hold m rows: c is the
      ceiling of m / n. */
  predicate IsCeilDiv(c: nat, m: nat, n: nat)
  {
    (c - 1) * n < m <= c * n
  }

  /** Chunks numbered 1, 2, 3, ..., each carrying the header, none empty,
      every one but the last holding exactly n rows and the last at most n. */
  predicate WellFormed(chunks: seq<Chunk>, header: CsvRow, n: nat)
  {
    forall k :: 0 <= k < |chunks| ==>
      chunks[k].index == k + 1 && chunks[k].header == header &&
      1 <= |chunks[k].rows| <= n &&
      (k < |chunks| - 1 ==> |chunks[k].rows| == n)
  }

  /** The splitting loop. A file with no rows at all has no header and fails;
      otherwise the data rows are buffered and a chunk is flushed each time
      the buffer reaches rowsPerFile rows, and once more at the end if rows
      are left over. The chunks are well formed, their data rows are exactly
      the input's rows after the header, and there are ceil(n / rowsPerFile)
      of them for n data rows. */
  method SplitFile(lines: seq<CsvRow>, rowsPerFile: nat) returns (r: Result<seq<Chunk>, SplitError>)
    requires rowsPerFile > 0
    ensures lines == [] ==> r == Failure(MissingHeader)
    ensures lines != [] ==>
      r.Success? &&
      WellFormed(r.value, lines[0], rowsPerFile) &&
      Flatten(r.value) == lines[1..] &&
      IsCeilDiv(|r.value|, |lines| - 1, rowsPerFile)
  {
    if lines == [] {
      return Failure(MissingHeader);
    }
    var header := lines[0];
    var data := lines[1..];
    var fileCount := 1;
    var buffer: seq<CsvRow> := [];
    var chunks: seq<Chunk> := [];
    var i := 0;
    while i < |data|
      invariant 0 <= i <= |data|
      invariant |buffer| < rowsPerFile
      invariant |chunks| * rowsPerFile + |buffer| == i
      invariant Flatten(chunks) + buffer == data[..i]
      invariant fileCount == |chunks| + 1
      invariant forall k :: 0 <= k < |chunks| ==>
        chunks[k] == Chunk(k + 1, header, chunks[k].rows) && |chunks[k].rows| == rowsPerFile
    {
      assert data[..i + 1] == data[..i] + [data[i]];
      buffer := buffer + [data[i]];
      if |buffer| == rowsPerFile {
        var chunk := Chunk(fileCount, header, buffer);
        assert Flatten(chunks + [chunk]) == Flatten(chunks) + buffer by {
          assert (chunks + [chunk])[..|chunks|] == chunks;
        }
        assert (|chunks| + 1) * rowsPerFile == |chunks| * rowsPerFile + rowsPerFile;
        chunks := chunks + [chunk];
        fileCount := fileCount + 1;
        buffer := [];
      }
      i := i + 1;
    }
    assert data[..i] == data;
    if |buffer| > 0 {
      var chunk := Chunk(fileCount, header, buffer);
      assert Flatten(chunks + [chunk]) == Flatten(chunks) + buffer by {
        assert (chunks + [chunk])[..|chunks|] == chunks;
      }
      assert (|chunks| + 1 - 1) * rowsPerFile == |chunks| * rowsPerFile;
      assert (|chunks| + 1) * rowsPerFile == |chunks| * rowsPerFile + rowsPerFile;
      chunks := chunks + [chunk];
    } else {
      assert (|chunks| - 1) * rowsPerFile == |chunks| * rowsPerFile - rowsPerFile;
      assert Flatten(chunks) + buffer == Flatten(chunks);
    }
    r := Success(chunks);
  }

  /** The row count of well-formed chunks: all but the last are full. */
  lemma {:induction false} FlattenLength(chunks: seq<Chunk>, header: CsvRow, n: nat)
    requires WellFormed(chunks, header, n)
    requires chunks != []
    ensures |Flatten(chunks)| == (|chunks| - 1) * n + |chunks[|chunks| - 1].rows|
  {
    var init := chunks[..|chunks| - 1];
    if init != [] {
      assert WellFormed(init, header, n) by {
        forall k | 0 <= k < |init|
          ensures init[k].index == k + 1 && init[k].header == header
          ensures 1 <= |init[k].rows| <= n && (k < |init| - 1 ==> |init[k].rows| == n)
        {
          assert init[k] == chunks[k];
        }
      }
      FlattenLength(init, header, n);
      var a := |init| - 1;
      assert |init[a].rows| == n by {
        assert init[a] == chunks[a];
      }
      assert a * n + n == (a + 1) * n;
    }
  }

  /** Well-formed chunks holding m rows are ceil(m / n) in number: the count
      is determined by the number of data rows. */
  lemma ChunkCount(chunks: seq<Chunk>, header: CsvRow, n: nat)
    requires n > 0
    requires WellFormed(chunks, header, n)
    ensures IsCeilDiv(|chunks|, |Flatten(chunks)|, n)
  {
    if chunks != [] {
      var c := |chunks|;
      FlattenLength(chunks, header, n);
      assert c * n == (c - 1) * n + n;
    }
  }

  /** Flattening distributes over concatenation of chunk sequences. */
  lemma {:induction false} FlattenAppend(a: seq<Chunk>, b: seq<Chunk>)
    ensures Flatten(a + b) == Flatten(a) + Flatten(b)
  {
    if b == [] {
      assert a + b == a;
    } else {
      var ab := a + b;
      assert ab[..|ab| - 1] == a + b[..|b| - 1];
      assert ab[|ab| - 1] == b[|b| - 1];
      FlattenAppend(a, b[..|b| - 1]);
    }
  }

  /** The first k chunks of a well-formed sequence, k short of the last,
      are all full. */
  lemma {:induction false} FullPrefixLength(chunks: seq<Chunk>, header: CsvRow, n: nat, k: nat)
    requires WellFormed(chunks, header, n)
    requires k < |chunks|
    ensures |Flatten(chunks[..k])| == k * n
  {
    if k > 0 {
      FullPrefixLength(chunks, header, n, k - 1);
      assert chunks[..k][..k - 1] == chunks[..k - 1];
      assert chunks[..k][k - 1] == chunks[k - 1];
      assert |chunks[k - 1].rows| == n;
      assert (k - 1) * n + n == k * n;
    }
  }

  /** The rows of chunk k sit between those of the chunks before and after it. */
  lemma FlattenAround(chunks: seq<Chunk>, k: nat)
    requires k < |chunks|
    ensures Flatten(chunks) == Flatten(chunks[..k]) + chunks[k].rows + Flatten(chunks[k + 1..])
  {
    var a, b := chunks[..k], chunks[k..];
    assert chunks == a + b;
    FlattenAppend(a, b);
    FlattenSingleThen(b);
  }

  /** Flattening a non-empty sequence starts with its first chunk's rows. */
  lemma FlattenSingleThen(b: seq<Chunk>)
    requires b != []
    ensures Flatten(b) == b[0].rows + Flatten(b[1..])
  {
    var c := b[0];
    assert b == [c] + b[1..];
    FlattenAppend([c], b[1..]);
    assert [c][..0] == [];
  }

  /** The closed form of chunk k: the file written for it is the header
      followed by the data rows from k * n up to (k + 1) * n, or up to the
      end of the data for the last chunk. With SplitFile's guarantee that
      the chunks flatten to the rows after the header, chunk k of a file
      `lines` is lines[1 + k * n ..] cut at that bound. */
  lemma ChunkContents(chunks: seq<Chunk>, header: CsvRow, n: nat, k: nat)
    requires WellFormed(chunks, header, n)
    requires k < |chunks|
    ensures var lo, hi := k * n, if k + 1 < |chunks| then (k + 1) * n else |Flatten(chunks)|;
      lo <= hi <= |Flatten(chunks)| &&
      chunks[k].rows == Flatten(chunks)[lo..hi] &&
      FileLines(chunks[k]) == [header] + Flatten(chunks)[lo..hi]
  {
    var F, c, lo := Flatten(chunks), chunks[k], k * n;
    FlattenAround(chunks, k);
    FullPrefixLength(chunks, header, n, k);
    assert F[lo..lo + |c.rows|] == c.rows;
    if k + 1 < |chunks| {
      assert |c.rows| == n;
      assert lo + n == (k + 1) * n;
    } else {
      assert chunks[k + 1..] == [];
    }
  }
}
