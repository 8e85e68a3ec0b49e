/** `public/scripts/pdf_cutter.py`: splitting a PDF into files of a fixed number
    of pages. Reading and writing PDFs is left to the caller; what is modelled is
    which pages go into which numbered file. */
module PdfCutter {
  import opened Wrappers

  const DefaultPagesPerFile := 5

  function Min(a: int, b: int): int {
    if a <= b then a else b
  }

  // ---------------------------------------------------------------------------
  // Decimal numerals, for the file names

  function DigitChar(d: nat): char
    requires d < 10
  {
    ('0' as int + d) as char
  }

  /** `str(n)` for a natural number. */
  function Decimal(n: nat): (s: string)
    ensures |s| > 0
    ensures forall i :: 0 <= i < |s| ==> '0' <= s[i] <= '9'
    decreases n
  {
    if n < 10 then [DigitChar(n)] else Decimal(n / 10) + [DigitChar(n % 10)]
  }

  /** The number a string of decimal digits denotes. */
  function DecimalValue(s: string): nat
    requires forall i :: 0 <= i < |s| ==> '0' <= s[i] <= '9'
  {
    if |s| == 0 then 0 else DecimalValue(s[..|s| - 1]) * 10 + (s[|s| - 1] as int - '0' as int)
  }

  lemma {:induction false} DecimalRoundTrip(n: nat)
    ensures DecimalValue(Decimal(n)) == n
    decreases n
  {
    if n >= 10 {
      DecimalRoundTrip(n / 10);
      var s := Decimal(n);
      assert s[..|s| - 1] == Decimal(n / 10);
    }
  }

  /** The name of the `k`-th output file, counting from 1. */
  function FileName(k: nat): string {
    Decimal(k) + ".pdf"
  }

  /** Different numbers give different file names, so no output overwrites another. */
  lemma FileNamesDistinct(k: nat, j: nat)
    requires k != j
    ensures FileName(k) != FileName(j)
  {
    if FileName(k) == FileName(j) {
      var a := Decimal(k);
      var b := Decimal(j);
      assert |a| == |b|;
      assert a == FileName(k)[..|a|] == FileName(j)[..|b|] == b;
      DecimalRoundTrip(k);
      DecimalRoundTrip(j);
    }
  }

  // ---------------------------------------------------------------------------
  // Chunking

  /** Pages `a` .. `b - 1`, numbered from 0. */
  function Range(a: nat, b: nat): (r: seq<nat>)
    ensures |r| == if a <= b then b - a else 0
    ensures forall i :: 0 <= i < |r| ==> r[i] == a + i
    decreases if a < b then b - a else 0
  {
    if a < b then [a] + Range(a + 1, b) else []
  }

  /** One output file: its name and the half-open page range it holds. */
  datatype Chunk = Chunk(fileName: string, start: nat, end: nat)

  /** The pages of all chunks, in order. */
  function Pages(chunks: seq<Chunk>): seq<nat> {
    if |chunks| == 0 then []
    else Pages(chunks[..|chunks| - 1]) + Range(chunks[|chunks| - 1].start, chunks[|chunks| - 1].end)
  }

  lemma RangeAppend(a: nat, b: nat, c: nat)
    requires a <= b <= c
    ensures Range(a, b) + Range(b, c) == Range(a, c)
  {
    assert forall i :: 0 <= i < c - a ==> (Range(a, b) + Range(b, c))[i] == a + i;
  }

  /** The line printed for each file: its name and its 1-based, inclusive page range. */
  function SavedMessage(c: Chunk): string {
    "Saved: " + c.fileName + " (Pages " + Decimal(c.start + 1) + "-" + Decimal(c.end) + ")"
  }

  /** `k * n`, counted up one step of `n` at a time as the loop does. */
  function Offset(k: nat, n: nat): nat {
    if k == 0 then 0 else Offset(k - 1, n) + n
  }

  lemma {:induction false} OffsetIsProduct(k: nat, n: nat)
    ensures Offset(k, n) == k * n
  {
    if k > 0 {
      OffsetIsProduct(k - 1, n);
      assert (k - 1) * n + n == k * n;
    }
  }

  lemma {:induction false} OffsetMonotone(a: nat, b: nat, n: nat)
    requires a <= b
    ensures Offset(a, n) <= Offset(b, n)
    decreases b
  {
    if a < b {
      OffsetMonotone(a, b - 1, n);
    }
  }

  /** Offsets less than one step apart belong to counts in the same order. */
  lemma OffsetOrder(a: nat, b: nat, n: nat)
    ensures Offset(a, n) < Offset(b, n) + n ==> a <= b
  {
    if b < a {
      OffsetMonotone(b + 1, a, n);
    }
  }

  /** At most one count has offsets that bracket `total`. */
  lemma OffsetBracketUnique(c: nat, d: nat, total: nat, n: nat)
    requires Offset(c, n) - n < total <= Offset(c, n)
    requires Offset(d, n) - n < total <= Offset(d, n)
    ensures c == d
  {
    OffsetOrder(c, d, n);
    OffsetOrder(d, c, n);
  }

  /** The number of files for `total` pages, `n` per file: ceil(total / n). */
  function FileCount(total: nat, n: nat): nat
    requires n >= 1
  {
    (total + n - 1) / n
  }

  /** The file count is the fewest whose pages reach `total`, and the only count
      whose offsets bracket `total` that way. */
  lemma FileCountBrackets(total: nat, n: nat, c: nat)
    requires n >= 1
    ensures Offset(FileCount(total, n), n) - n < total <= Offset(FileCount(total, n), n)
    ensures Offset(c, n) - n < total <= Offset(c, n) ==> c == FileCount(total, n)
  {
    var m := total + n - 1;
    var q := m / n;
    var t := q * n;
    assert m == t + m % n;
    OffsetIsProduct(q, n);
    if Offset(c, n) - n < total <= Offset(c, n) {
      OffsetBracketUnique(c, q, total, n);
    }
  }

  /** The `k`-th chunk (from 0) of a `total`-page document cut every `n` pages. */
  function ChunkAt(k: nat, total: nat, n: nat): Chunk {
    Chunk(FileName(k + 1), Offset(k, n), Min(Offset(k, n) + n, total))
  }

  /** File `k + 1` holds pages `k*n` up to but excluding `min((k+1)*n, total)`. */
  lemma ChunkAtSpec(k: nat, total: nat, n: nat)
    ensures ChunkAt(k, total, n).fileName == FileName(k + 1)
    ensures ChunkAt(k, total, n).start == k * n
    ensures ChunkAt(k, total, n).end == Min(k * n + n, total)
  {
    OffsetIsProduct(k, n);
  }

  /** The first `c` chunks, in order. */
  function FirstChunks(c: nat, total: nat, n: nat): seq<Chunk> {
    if c == 0 then [] else FirstChunks(c - 1, total, n) + [ChunkAt(c - 1, total, n)]
  }

  /** There are `c` of them, and chunk `k` is the one `ChunkAt` describes. */
  lemma {:induction false} FirstChunksSpec(c: nat, total: nat, n: nat)
    ensures |FirstChunks(c, total, n)| == c
    ensures forall k :: 0 <= k < c ==> FirstChunks(c, total, n)[k] == ChunkAt(k, total, n)
  {
    if c > 0 {
      FirstChunksSpec(c - 1, total, n);
    }
  }

  /** The chunks `split_pdf` writes, as one definition: file `k + 1` for every
      `k` below the file count. */
  function Cuts(total: nat, n: nat): seq<Chunk>
    requires n >= 1
  {
    FirstChunks(FileCount(total, n), total, n)
  }

  /** Every chunk holds between 1 and `n` pages, and all but the last exactly `n`. */
  lemma ChunkSizes(total: nat, n: nat, count: nat, k: nat)
    requires n >= 1
    requires Offset(count, n) - n < total
    requires k < count
    ensures 0 < ChunkAt(k, total, n).end - ChunkAt(k, total, n).start <= n
    ensures k < count - 1 ==> ChunkAt(k, total, n).end - ChunkAt(k, total, n).start == n
  {
    OffsetMonotone(k + 1, count, n);
    if k < count - 1 {
      OffsetMonotone(k + 2, count, n);
    }
  }

  lemma CutsSizes(total: nat, n: nat)
    requires n >= 1
    ensures forall k :: 0 <= k < |Cuts(total, n)| ==> 0 < Cuts(total, n)[k].end - Cuts(total, n)[k].start <= n
    ensures forall k :: 0 <= k < |Cuts(total, n)| - 1 ==> Cuts(total, n)[k].end - Cuts(total, n)[k].start == n
  {
    var c := FileCount(total, n);
    FileCountBrackets(total, n, c);
    FirstChunksSpec(c, total, n);
    forall k | 0 <= k < c
      ensures 0 < ChunkAt(k, total, n).end - ChunkAt(k, total, n).start <= n
      ensures k < c - 1 ==> ChunkAt(k, total, n).end - ChunkAt(k, total, n).start == n
    {
      ChunkSizes(total, n, c, k);
    }
  }

  /** Appending the next chunk extends the covered pages up to its end. */
  lemma PageStep(chunks: seq<Chunk>, total: nat, n: nat)
    requires n >= 1
    requires Offset(|chunks|, n) < total
    requires Pages(chunks) == Range(0, Offset(|chunks|, n))
    ensures var next := chunks + [ChunkAt(|chunks|, total, n)];
      Pages(next) == Range(0, Min(Offset(|next|, n), total))
  {
    var c := ChunkAt(|chunks|, total, n);
    var next := chunks + [c];
    assert next[..|chunks|] == chunks;
    assert Pages(next) == Pages(chunks) + Range(c.start, c.end);
    assert Offset(|next|, n) == c.start + n;
    RangeAppend(0, c.start, c.end);
  }

  /** The first `c` chunks hold pages 0 up to the end of chunk `c`. */
  lemma {:induction false} PrefixPages(c: nat, total: nat, n: nat)
    requires n >= 1
    requires Offset(c, n) - n < total
    ensures Pages(FirstChunks(c, total, n)) == Range(0, Min(Offset(c, n), total))
    decreases c
  {
    if c > 0 {
      var init := FirstChunks(c - 1, total, n);
      FirstChunksSpec(c - 1, total, n);
      PrefixPages(c - 1, total, n);
      assert Min(Offset(c - 1, n), total) == Offset(c - 1, n);
      PageStep(init, total, n);
    }
  }

  /** Together the files hold every page once, in order: page `i` is the `i`-th
      page written. */
  lemma CutsCoverPages(total: nat, n: nat)
    requires n >= 1
    ensures var pages := Pages(Cuts(total, n));
      |pages| == total && forall i :: 0 <= i < |pages| ==> pages[i] == i
  {
    FileCountBrackets(total, n, 0);
    PrefixPages(FileCount(total, n), total, n);
  }

  /** An empty document gives no files, and any other at least one. */
  lemma CutsEmpty(total: nat, n: nat)
    requires n >= 1
    ensures Cuts(total, n) == [] <==> total == 0
  {
    FileCountBrackets(total, n, 0);
    OffsetOrder(FileCount(total, n), 0, n);
  }

  /** The progress line of an existing chunk names its file and the 1-based numbers
      of its first and last page. */
  lemma SavedMessageRange(k: nat, total: nat, n: nat)
    requires n >= 1 && k * n < total
    ensures var c := ChunkAt(k, total, n);
      var pages := Range(c.start, c.end);
      && |pages| > 0
      && SavedMessage(c) ==
           "Saved: " + FileName(k + 1) + " (Pages " + Decimal(pages[0] + 1) + "-" + Decimal(pages[|pages| - 1] + 1) + ")"
  {
    OffsetIsProduct(k, n);
  }

  /** `split_pdf(input_path, pages_per_file)` for a document of `total` pages: the
      loop writes exactly the chunks of `Cuts`, in order. */
  method SplitPdf(total: nat, n: nat) returns (chunks: seq<Chunk>)
    requires n >= 1
    ensures chunks == Cuts(total, n)
  {
    chunks := [];
    var start := 0;
    var fileCount := 1;
    while start < total
      invariant start == Offset(|chunks|, n)
      invariant fileCount == |chunks| + 1
      invariant Offset(|chunks|, n) - n < total
      invariant chunks == FirstChunks(|chunks|, total, n)
      decreases total - start
    {
      var end := Min(start + n, total);
      var chunk := Chunk(FileName(fileCount), start, end);
      assert chunk == ChunkAt(|chunks|, total, n);
      chunks := chunks + [chunk];
      start := start + n;
      fileCount := fileCount + 1;
    }
    FileCountBrackets(total, n, |chunks|);
  }

  /** The pages-per-file answer: the dialog only returns numbers of at least 1,
      and a cancelled dialog means 5. */
  function PagesPerFile(answer: Option<int>): (n: int)
    requires answer.Some? ==> answer.value >= 1
    ensures n >= 1
    ensures answer.None? ==> n == DefaultPagesPerFile
    ensures answer.Some? ==> n == answer.value
  {
    if answer.None? then DefaultPagesPerFile else answer.value
  }

  /** `main()`: no selected file means no output; otherwise split with the chosen
      (or default) number of pages per file. */
  method RunCutter(inputPath: string, answer: Option<int>, total: nat) returns (chunks: seq<Chunk>)
    requires answer.Some? ==> answer.value >= 1
    ensures inputPath == "" ==> chunks == []
    ensures inputPath != "" ==> chunks == Cuts(total, PagesPerFile(answer))
  {
    if inputPath == "" {
      return [];
    }
    chunks := SplitPdf(total, PagesPerFile(answer));
  }
}
