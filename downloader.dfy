/** Chunked downloads (package util/downloader): planning the byte ranges of
    a resource whose length a HEAD request reported, and reassembling the
    downloaded chunk files into the destination file.

    The HEAD request is replaced by its outcome (a Probe), the temporary
    directory and the working directory by one map from file name to bytes,
    and each io.Copy by its outcome. Go's int is modelled as an unbounded
    integer; Go's truncating `/` and `%` are written out. */
module Downloader {
  import opened Wrappers
  import Filex

  /** The content length of one chunk in automatic mode (1 MiB). */
  const ChunkBytes: int := 1048576

  /** math.MaxInt on a 64-bit platform. */
  const MaxInt: int := 0x7fff_ffff_ffff_ffff

  /** The inclusive byte range [start, end] of one chunk. */
  datatype Chunk = Chunk(start: int, end: int)

  /** The outcome of the HEAD request: it failed, or it reported a content
      length (-1 when the server did not say). */
  datatype Probe = ProbeFailed | ContentLength(length: int)

  /* ---------------------------------------------------------------------- */
  /* Go integer arithmetic                                                  */
  /* ---------------------------------------------------------------------- */

  /** Go's a / b for b > 0: the quotient truncated toward zero. */
  function GoDiv(a: int, b: int): (q: int)
    requires b > 0
    ensures a >= 0 ==> q >= 0
    ensures a < 0 ==> q <= 0
  {
    if a >= 0 then a / b else -((-a) / b)
  }

  /** Go's quotient rounds toward zero: it never overshoots a in magnitude,
      and falls short of it by less than b. */
  lemma GoDivTruncates(a: int, b: int)
    requires b > 0
    ensures a >= 0 ==> GoDiv(a, b) * b <= a < GoDiv(a, b) * b + b
    ensures a < 0 ==> GoDiv(a, b) * b - b < a <= GoDiv(a, b) * b
  {
    var m := GoMod(a, b);
  }

  /** Go's a % b for b > 0: the remainder of the truncated division, which
      takes the sign of a. */
  function GoMod(a: int, b: int): (m: int)
    requires b > 0
    ensures a == GoDiv(a, b) * b + m
    ensures a >= 0 ==> 0 <= m < b
    ensures a < 0 ==> -b < m <= 0
  {
    if a >= 0 then a % b else -((-a) % b)
  }

  /** math.Ceil(a / b) for positive a and b, on integers. */
  function CeilDiv(a: int, b: int): (q: int)
    requires a > 0 && b > 0
    ensures q >= 1 && (q - 1) * b < a <= q * b
  {
    (a + b - 1) / b
  }

  /* ---------------------------------------------------------------------- */
  /* Range planning (chunked and mustChunked)                               */
  /* ---------------------------------------------------------------------- */

  /** The caller passed a positive chunk count as the first variadic argument. */
  predicate Explicit(chunkNumber: seq<int>) {
    |chunkNumber| > 0 && chunkNumber[0] > 0
  }

  /** The number of chunks: the explicit count, else one chunk for at most
      ChunkBytes bytes, else as many 1 MiB chunks as the length needs. */
  function ChunkCount(totalBytes: int, chunkNumber: seq<int>): (n: int)
    ensures n >= 1
    ensures Explicit(chunkNumber) ==> n == chunkNumber[0]
    ensures !Explicit(chunkNumber) && totalBytes <= ChunkBytes ==> n == 1
    ensures !Explicit(chunkNumber) && totalBytes > ChunkBytes ==>
      n >= 2 && (n - 1) * ChunkBytes < totalBytes <= n * ChunkBytes
  {
    if Explicit(chunkNumber) then chunkNumber[0]
    else if totalBytes <= ChunkBytes then 1
    else CeilDiv(totalBytes, ChunkBytes)
  }

  /** Closed form of the k-th of n ranges over totalBytes: with
      c = totalBytes / n, range k > 0 starts at k * (c + 1); every range but
      the last spans c + 1 offsets, and the last ends at totalBytes. */
  function PlanAt(totalBytes: int, n: int, k: int): Chunk
    requires 0 <= k < n
  {
    var c := GoDiv(totalBytes, n);
    if k == 0 then Chunk(0, c)
    else if k == n - 1 then Chunk(k * (c + 1), totalBytes)
    else Chunk(k * (c + 1), k * (c + 1) + c)
  }

  /** The n ranges, in order. */
  function Plan(totalBytes: int, n: int): (r: seq<Chunk>)
    requires n >= 1
    ensures |r| == n
  {
    seq(n, k requires 0 <= k < n => PlanAt(totalBytes, n, k))
  }

  /** What chunked returns for a reported length: a single range {0, length}
      when no count is given and the length fits in one chunk, otherwise the
      planned ranges. */
  function ChunkPlan(totalBytes: int, chunkNumber: seq<int>): seq<Chunk> {
    if !Explicit(chunkNumber) && totalBytes <= ChunkBytes then [Chunk(0, totalBytes)]
    else Plan(totalBytes, ChunkCount(totalBytes, chunkNumber))
  }

  /** chunked: the array of ranges is allocated and filled in one pass, each
      range after the first starting one past the end of the previous one.
      A failed probe gives (nil, 0, err). */
  method Chunked(probe: Probe, chunkNumber: seq<int>) returns (chunks: seq<Chunk>, totalBytes: int, ok: bool)
    ensures ok <==> probe.ContentLength?
    ensures !ok ==> chunks == [] && totalBytes == 0
    ensures ok ==> totalBytes == probe.length && chunks == ChunkPlan(totalBytes, chunkNumber)
  {
    if probe.ProbeFailed? {
      return [], 0, false;
    }
    totalBytes, ok := probe.length, true;
    var chunkNum: int;
    if |chunkNumber| > 0 && chunkNumber[0] > 0 {
      chunkNum := chunkNumber[0];
    } else {
      if totalBytes <= ChunkBytes {
        return [Chunk(0, totalBytes)], totalBytes, true;
      }
      chunkNum := CeilDiv(totalBytes, ChunkBytes);
    }
    var chunkBytes := GoDiv(totalBytes, chunkNum);
    var a := new Chunk[chunkNum];
    for i := 0 to chunkNum
      invariant forall k :: 0 <= k < i ==> a[k] == PlanAt(totalBytes, chunkNum, k)
    {
      if i == 0 {
        a[i] := a[i].(start := 0);
        a[i] := a[i].(end := chunkBytes);
      } else if i == chunkNum - 1 {
        assert (i - 1) * (chunkBytes + 1) + chunkBytes + 1 == i * (chunkBytes + 1);
        a[i] := a[i].(start := a[i - 1].end + 1);
        a[i] := a[i].(end := totalBytes);
      } else {
        assert (i - 1) * (chunkBytes + 1) + chunkBytes + 1 == i * (chunkBytes + 1);
        a[i] := a[i].(start := a[i - 1].end + 1);
        a[i] := a[i].(end := a[i].start + chunkBytes);
      }
    }
    chunks := a[..];
  }

  /** mustChunked: a failed probe is replaced by one range over everything,
      {0, MaxInt}, with MaxInt as the length. */
  method MustChunked(probe: Probe, chunkNumber: seq<int>) returns (chunks: seq<Chunk>, totalBytes: int)
    ensures probe.ProbeFailed? ==> chunks == [Chunk(0, MaxInt)] && totalBytes == MaxInt
    ensures probe.ContentLength? ==>
      totalBytes == probe.length && chunks == ChunkPlan(totalBytes, chunkNumber)
  {
    var ok;
    chunks, totalBytes, ok := Chunked(probe, chunkNumber);
    if !ok {
      return [Chunk(0, MaxInt)], MaxInt;
    }
  }

  /* Properties of the plan. */

  /** The plan has as many ranges as ChunkCount says; the first starts at 0
      and the last ends at totalBytes (inclusive), whatever the count. */
  lemma {:induction false} ChunkPlanEnds(totalBytes: int, chunkNumber: seq<int>)
    ensures var p := ChunkPlan(totalBytes, chunkNumber);
      && |p| == ChunkCount(totalBytes, chunkNumber)
      && p[0].start == 0
      && p[|p| - 1].end == totalBytes
  {
    var p := ChunkPlan(totalBytes, chunkNumber);
    if |p| == 1 {
      assert GoDiv(totalBytes, 1) == totalBytes;
    }
  }

  /** Each range after the first starts one past the end of the previous one. */
  lemma {:induction false} PlanContiguous(totalBytes: int, n: int)
    requires n >= 1
    ensures var p := Plan(totalBytes, n);
      forall i :: 1 <= i < n ==> p[i].start == p[i - 1].end + 1
  {
    var p, c := Plan(totalBytes, n), GoDiv(totalBytes, n);
    forall i | 1 <= i < n ensures p[i].start == p[i - 1].end + 1 {
      assert (i - 1) * (c + 1) + c + 1 == i * (c + 1);
    }
  }

  /** Every range but the last spans totalBytes / n + 1 offsets. */
  lemma {:induction false} PlanInteriorWidth(totalBytes: int, n: int)
    requires n >= 1
    ensures var p := Plan(totalBytes, n);
      forall i :: 0 <= i < n - 1 ==> p[i].end - p[i].start == GoDiv(totalBytes, n)
  {
    var p := Plan(totalBytes, n);
    forall i | 0 <= i < n - 1 ensures p[i].end - p[i].start == GoDiv(totalBytes, n) {
      assert p[i] == PlanAt(totalBytes, n, i);
    }
  }

  /** The last range is well formed (start <= end) exactly when
      n - 1 <= totalBytes / n + totalBytes % n; it is inverted otherwise. */
  lemma {:induction false} PlanLastWellFormedIff(totalBytes: int, n: int)
    requires n >= 1
    ensures var p := Plan(totalBytes, n);
      p[n - 1].start <= p[n - 1].end <==> n - 1 <= GoDiv(totalBytes, n) + GoMod(totalBytes, n)
  {
    var p, c, m := Plan(totalBytes, n), GoDiv(totalBytes, n), GoMod(totalBytes, n);
    assert totalBytes == n * c + m;
    if n > 1 {
      assert p[n - 1].start == (n - 1) * (c + 1) == n * c + n - c - 1;
    }
  }

  /** Enough bytes for n chunks keep the last range well formed: at least
      n * (n - 1) bytes suffice. */
  lemma {:induction false} FewChunksWellFormed(totalBytes: int, n: int)
    requires n >= 1 && totalBytes >= n * (n - 1)
    ensures n - 1 <= GoDiv(totalBytes, n) + GoMod(totalBytes, n)
  {
    var c, m := GoDiv(totalBytes, n), GoMod(totalBytes, n);
    if n - 1 > c + m {
      assert false by {
        MulMonotone(c, n - 2, n);
      }
    }
  }

  /** The ranges tile [0, totalBytes]: the first starts at 0, each is well
      formed, each starts one past the end of the previous, the last ends at
      totalBytes. */
  predicate Tiles(chunks: seq<Chunk>, totalBytes: int) {
    && |chunks| > 0
    && chunks[0].start == 0
    && chunks[|chunks| - 1].end == totalBytes
    && (forall i :: 0 <= i < |chunks| ==> chunks[i].start <= chunks[i].end)
    && (forall i :: 1 <= i < |chunks| ==> chunks[i].start == chunks[i - 1].end + 1)
  }

  /** Offset x lies in one of the ranges. */
  predicate Covered(chunks: seq<Chunk>, x: int) {
    exists i :: 0 <= i < |chunks| && chunks[i].start <= x <= chunks[i].end
  }

  /** Tiling ranges are ordered and pairwise disjoint, every offset of
      [0, totalBytes] lies in one of them, and none reaches outside. */
  lemma {:induction false} TilesCover(chunks: seq<Chunk>, totalBytes: int)
    requires Tiles(chunks, totalBytes)
    ensures forall i, j :: 0 <= i < j < |chunks| ==> chunks[i].end < chunks[j].start
    ensures forall x :: 0 <= x <= totalBytes ==> Covered(chunks, x)
    ensures forall i :: 0 <= i < |chunks| ==> 0 <= chunks[i].start && chunks[i].end <= totalBytes
  {
    forall i, j | 0 <= i < j < |chunks| ensures chunks[i].end < chunks[j].start {
      TilesOrdered(chunks, totalBytes, i, j);
    }
    forall x | 0 <= x <= totalBytes ensures Covered(chunks, x) {
      var i := Locate(chunks, totalBytes, 0, x);
    }
    forall i | 0 <= i < |chunks| ensures 0 <= chunks[i].start && chunks[i].end <= totalBytes {
      if i > 0 {
        TilesOrdered(chunks, totalBytes, 0, i);
      }
      if i < |chunks| - 1 {
        TilesOrdered(chunks, totalBytes, i, |chunks| - 1);
      }
    }
  }

  lemma {:induction false} TilesOrdered(chunks: seq<Chunk>, totalBytes: int, i: int, j: int)
    requires Tiles(chunks, totalBytes) && 0 <= i < j < |chunks|
    ensures chunks[i].end < chunks[j].start
    decreases j - i
  {
    if i < j - 1 {
      TilesOrdered(chunks, totalBytes, i, j - 1);
    }
  }

  /** The range holding offset x, searched from range k on. */
  lemma {:induction false} Locate(chunks: seq<Chunk>, totalBytes: int, k: int, x: int) returns (i: int)
    requires Tiles(chunks, totalBytes) && 0 <= k < |chunks| && chunks[k].start <= x <= totalBytes
    ensures k <= i < |chunks| && chunks[i].start <= x <= chunks[i].end
    decreases |chunks| - k
  {
    if x <= chunks[k].end {
      i := k;
    } else {
      i := Locate(chunks, totalBytes, k + 1, x);
    }
  }

  /** For a known length, the plan tiles [0, totalBytes] whenever its last
      range is well formed. */
  lemma {:induction false} PlanTiles(totalBytes: int, n: int)
    requires n >= 1 && totalBytes >= 0
    requires n - 1 <= GoDiv(totalBytes, n) + GoMod(totalBytes, n)
    ensures Tiles(Plan(totalBytes, n), totalBytes)
  {
    var p := Plan(totalBytes, n);
    PlanContiguous(totalBytes, n);
    PlanInteriorWidth(totalBytes, n);
    PlanLastWellFormedIff(totalBytes, n);
    assert GoDiv(totalBytes, 1) == totalBytes;
  }

  lemma MulMonotone(a: int, b: int, k: int)
    requires a <= b && k >= 0
    ensures a * k <= b * k
  {
    assert b * k - a * k == (b - a) * k;
  }

  /** Just below n * (n - 1) bytes the last of n ranges is still well
      formed: every length above (n - 1) * (n - 2) keeps it so, except
      n * (n - 2), where n - 2 full ranges of n - 1 offsets leave nothing. */
  lemma {:induction false} NearlySquareWellFormed(totalBytes: int, n: int)
    requires n >= 2 && totalBytes > (n - 1) * (n - 2) && totalBytes != n * (n - 2)
    ensures n - 1 <= GoDiv(totalBytes, n) + GoMod(totalBytes, n)
  {
    var q, r := GoDiv(totalBytes, n), GoMod(totalBytes, n);
    assert totalBytes == q * n + r && 0 <= r < n;
    if q + r < n - 1 {
      if r >= 1 {
        ShortQuotientBound(q, r, n);
      } else {
        assert q != n - 2;
        ShortQuotientBound(q, 1, n);
      }
      assert false;
    }
  }

  /** A quotient q <= n - 2 - r with r >= 1 leaves at most
      (n - 1) * (n - 2) - 1 bytes, remainder r included. */
  lemma ShortQuotientBound(q: int, r: int, n: int)
    requires n >= 2 && 1 <= r && 0 <= q <= n - 2 - r
    ensures q * n + r <= (n - 1) * (n - 2) - 1
  {
    MulMonotone(q, n - 2 - r, n);
    MulMonotone(0, r - 1, n - 1);
    assert (n - 2 - r) * n + r == (n - 1) * (n - 2) - 1 - (r - 1) * (n - 1);
  }

  /** Without an explicit count, every known length below
      (ChunkBytes + 2) * ChunkBytes (1 TiB plus 2 MiB) is tiled: below that
      bound the automatic count never inverts the last range. */
  lemma {:induction false} AutoPlanTiles(totalBytes: int)
    requires 0 <= totalBytes < (ChunkBytes + 2) * ChunkBytes
    ensures Tiles(ChunkPlan(totalBytes, []), totalBytes)
  {
    if totalBytes > ChunkBytes {
      var n := ChunkCount(totalBytes, []);
      assert n <= ChunkBytes + 2 by {
        if n > ChunkBytes + 2 {
          MulMonotone(ChunkBytes + 2, n - 1, ChunkBytes);
          assert false;
        }
      }
      if n <= ChunkBytes {
        MulMonotone(n, ChunkBytes, n - 1);
        FewChunksWellFormed(totalBytes, n);
      } else {
        MulMonotone(n - 2, ChunkBytes, n - 1);
        assert n * (n - 2) != totalBytes by {
          if n == ChunkBytes + 1 {
            assert n * (n - 2) == ChunkBytes * ChunkBytes - 1;
          }
        }
        NearlySquareWellFormed(totalBytes, n);
      }
      PlanTiles(totalBytes, n);
    }
  }

  /** The bound of AutoPlanTiles is tight: at
      (ChunkBytes + 2) * ChunkBytes bytes it picks ChunkBytes + 2 chunks of
      ChunkBytes + 1 offsets each, and the last one starts past the length. */
  lemma AutoPlanInvertsAboveBound()
    ensures var t := (ChunkBytes + 2) * ChunkBytes;
      var p := ChunkPlan(t, []);
      && t > ChunkBytes * ChunkBytes
      && |p| == ChunkBytes + 2
      && p[|p| - 1].start == t + 1 && p[|p| - 1].end == t
  {
    var t := (ChunkBytes + 2) * ChunkBytes;
    var n := ChunkBytes + 2;
    assert ChunkCount(t, []) == n;
    assert GoDiv(t, n) == ChunkBytes;
  }

  /* ---------------------------------------------------------------------- */
  /* The destination name (DownloadWithChunks, before the download)         */
  /* ---------------------------------------------------------------------- */

  /** The file name: the first variadic argument when it is a non-empty
      string, otherwise the name taken from the URL (parsedPath is the path of
      the parsed URL, None when the URL does not parse); a failure there ends
      the download before anything is fetched. */
  function ResolveName(filename: seq<string>, parsedPath: Option<string>): (r: Result<string, Filex.NameError>)
    ensures |filename| > 0 && |filename[0]| > 0 ==> r == Success(filename[0])
    ensures !(|filename| > 0 && |filename[0]| > 0) ==> r == Filex.GetNameFromURL(parsedPath)
    ensures r.Success? ==> r.value != []
    ensures r.Failure? ==> (|filename| == 0 || filename[0] == []) && Filex.GetNameFromURL(parsedPath).Failure?
  {
    if |filename| > 0 && |filename[0]| > 0 then Success(filename[0])
    else Filex.GetNameFromURL(parsedPath)
  }

  /* ---------------------------------------------------------------------- */
  /* Chunk file name prefix (makeFilename)                                  */
  /* ---------------------------------------------------------------------- */

  predicate IsDigit(c: char) {
    '0' <= c <= '9'
  }

  /** The decimal digits of n, as fmt's %d prints a non-negative integer. */
  function Decimal(n: nat): (r: string)
    ensures r != []
    ensures r[0] == '0' ==> n == 0
    ensures forall k :: 0 <= k < |r| ==> IsDigit(r[k])
  {
    if n < 10 then [(n + '0' as int) as char]
    else Decimal(n / 10) + [(n % 10 + '0' as int) as char]
  }

  /** The number a string of decimal digits denotes. */
  function ParseDecimal(s: string): nat
    requires forall k :: 0 <= k < |s| ==> IsDigit(s[k])
  {
    if s == [] then 0
    else
      assert IsDigit(s[|s| - 1]);
      10 * ParseDecimal(s[..|s| - 1]) + (s[|s| - 1] as int - '0' as int)
  }

  /** Reading back the digits gives the number. */
  lemma {:induction false} DecimalRoundTrip(n: nat)
    ensures ParseDecimal(Decimal(n)) == n
  {
    if n >= 10 {
      DecimalRoundTrip(n / 10);
      var r := Decimal(n);
      assert r[..|r| - 1] == Decimal(n / 10);
    }
  }

  /** makeFilename: fmt.Sprintf("%d-%d", hash, i), the hash of the URL (a
      parameter here) and the chunk's position, used as the pattern of the
      temporary file. */
  function MakeFilename(hash: nat, i: nat): (r: string)
    ensures var d := |Decimal(hash)|;
      && d < |r| && r[d] == '-'
      && forall k :: 0 <= k < |r| && k != d ==> IsDigit(r[k])
  {
    Decimal(hash) + "-" + Decimal(i)
  }

  /** Distinct (hash, position) pairs give distinct names: the dash, which no
      digit equals, separates the two numbers. */
  lemma {:induction false} MakeFilenameInjective(h1: nat, i1: nat, h2: nat, i2: nat)
    requires MakeFilename(h1, i1) == MakeFilename(h2, i2)
    ensures h1 == h2 && i1 == i2
  {
    var a, b, c, d := Decimal(h1), Decimal(i1), Decimal(h2), Decimal(i2);
    var name := MakeFilename(h1, i1);
    assert name == c + "-" + d;
    assert name[|a|] == '-' && name[|c|] == '-';
    assert a == name[..|a|] == c;
    assert b == name[|a| + 1..] == d;
    DecimalRoundTrip(h1);
    DecimalRoundTrip(h2);
    DecimalRoundTrip(i1);
    DecimalRoundTrip(i2);
  }

  /* ---------------------------------------------------------------------- */
  /* Sort and merge (the tail of DownloadWithChunks)                        */
  /* ---------------------------------------------------------------------- */

  newtype Byte = b: int | 0 <= b < 256

  /** A downloaded chunk: its position in the plan and its temporary file. */
  datatype ChunkedFile = ChunkedFile(index: int, name: string)

  /** How one io.Copy of a chunk file into the destination ended: it copied
      everything, or it failed after writing some bytes. */
  datatype CopyOutcome = Copied | CopyFailed(written: nat)

  /** Why the merge stopped: os.Create failed, or copying the named chunk
      file failed. */
  datatype MergeError = CreateFailed | MergeFailed(name: string)

  predicate SortedByIndex(s: seq<ChunkedFile>) {
    forall i, j :: 0 <= i < j < |s| ==> s[i].index <= s[j].index
  }

  /** sort.Slice by Index, in place. The Go library's algorithm is not part
      of this model; an insertion sort stands in for it, with the same
      contract: the handles end up ordered by index, and they are the same
      handles. */
  method SortByIndex(a: array<ChunkedFile>)
    modifies a
    ensures SortedByIndex(a[..])
    ensures multiset(a[..]) == old(multiset(a[..]))
  {
    for i := 0 to a.Length
      invariant SortedByIndex(a[..i])
      invariant multiset(a[..]) == old(multiset(a[..]))
    {
      Insert(a, i);
    }
    assert a[..a.Length] == a[..];
  }

  /** One pass of the insertion sort: a[i] moves down past the larger
      indices before it, extending the sorted prefix by one. */
  method Insert(a: array<ChunkedFile>, i: int)
    requires 0 <= i < a.Length && SortedByIndex(a[..i])
    modifies a
    ensures SortedByIndex(a[..i + 1])
    ensures multiset(a[..]) == old(multiset(a[..]))
    ensures a[i + 1..] == old(a[i + 1..])
  {
    var j := i;
    while j > 0 && a[j - 1].index > a[j].index
      invariant 0 <= j <= i
      invariant forall p, q :: 0 <= p < q <= i && p != j && q != j ==> a[p].index <= a[q].index
      invariant forall q :: j < q <= i ==> a[j].index < a[q].index
      invariant multiset(a[..]) == old(multiset(a[..]))
      invariant a[i + 1..] == old(a[i + 1..])
    {
      Swap(a, j - 1, j);
      j := j - 1;
    }
  }

  method Swap(a: array<ChunkedFile>, i: int, j: int)
    requires 0 <= i < j < a.Length
    modifies a
    ensures a[..] == old(a[..])[i := old(a[j])][j := old(a[i])]
    ensures multiset(a[..]) == old(multiset(a[..]))
  {
    a[i], a[j] := a[j], a[i];
  }

  /** Every handle's index occurs once. */
  predicate UniqueIndices(m: multiset<ChunkedFile>) {
    forall x, y :: x in m && y in m && x.index == y.index ==> x == y && m[x] == 1
  }

  /** An element at two positions occurs twice. */
  lemma {:induction false} TwoPositionsTwice<T>(s: seq<T>, i: int, j: int)
    requires 0 <= i < j < |s| && s[i] == s[j]
    ensures multiset(s)[s[i]] >= 2
  {
    assert s == s[..j] + s[j..];
    assert s[i] in s[..j] && s[j] in s[j..];
  }

  /** With unique indices, the ascending order is strict. */
  lemma StrictlySortedByIndex(s: seq<ChunkedFile>)
    requires SortedByIndex(s) && UniqueIndices(multiset(s))
    ensures StrictlyAscending(s)
  {
    forall i, j | 0 <= i < j < |s| ensures s[i].index < s[j].index {
      if s[i].index == s[j].index {
        assert s[i] in multiset(s) && s[j] in multiset(s);
        TwoPositionsTwice(s, i, j);
        assert false;
      }
    }
  }

  predicate StrictlyAscending(s: seq<ChunkedFile>) {
    forall i, j :: 0 <= i < j < |s| ==> s[i].index < s[j].index
  }

  /** The tail of a strictly ascending sequence is the rest of its elements. */
  lemma {:induction false} AscendingTail(s: seq<ChunkedFile>)
    requires StrictlyAscending(s) && s != []
    ensures forall x :: x in s[1..] <==> x in s && x != s[0]
  {
    forall x ensures x in s[1..] <==> x in s && x != s[0] {
      if x in s && x != s[0] {
        var l :| 0 <= l < |s| && s[l] == x;
        assert s[1..][l - 1] == x;
      }
      if x in s[1..] {
        var k :| 0 <= k < |s| - 1 && s[1..][k] == x;
        assert s[0].index < s[k + 1].index;
      }
    }
  }

  /** Two strictly ascending arrangements of the same handles are equal. */
  lemma {:induction false} StrictArrangementUnique(s: seq<ChunkedFile>, t: seq<ChunkedFile>)
    requires StrictlyAscending(s) && StrictlyAscending(t)
    requires |s| == |t| && forall x :: x in s <==> x in t
    ensures s == t
  {
    if s != [] {
      AscendingHeadsAgree(s, t);
      AscendingTail(s);
      AscendingTail(t);
      StrictArrangementUnique(s[1..], t[1..]);
      assert s == [s[0]] + s[1..] && t == [t[0]] + t[1..];
    }
  }

  /** Two strictly ascending arrangements of the same handles start alike:
      each head is the other's least element. */
  lemma AscendingHeadsAgree(s: seq<ChunkedFile>, t: seq<ChunkedFile>)
    requires StrictlyAscending(s) && StrictlyAscending(t)
    requires |s| == |t| > 0 && forall x :: x in s <==> x in t
    ensures s[0] == t[0]
  {
    assert s[0] in t && t[0] in s;
    var i :| 0 <= i < |s| && s[i] == t[0];
    var j :| 0 <= j < |t| && t[j] == s[0];
    assert i == 0;
  }

  /** The sorted order does not depend on the order in which the chunks
      arrived: two sorted arrangements of the same handles, with unique
      indices, are the same sequence. */
  lemma SortedArrangementUnique(s: seq<ChunkedFile>, t: seq<ChunkedFile>)
    requires SortedByIndex(s) && SortedByIndex(t)
    requires multiset(s) == multiset(t) && UniqueIndices(multiset(s))
    ensures s == t
  {
    StrictlySortedByIndex(s);
    StrictlySortedByIndex(t);
    assert |s| == |multiset(s)| == |multiset(t)| == |t|;
    assert forall x :: x in s <==> x in multiset(s);
    assert forall x :: x in t <==> x in multiset(t);
    StrictArrangementUnique(s, t);
  }

  /** The names of the handles. */
  function Names(cfs: seq<ChunkedFile>): set<string> {
    set j | 0 <= j < |cfs| :: cfs[j].name
  }

  /** No two handles share a file name (counted as a multiset, so that
      the property survives reordering). */
  predicate DistinctNames(m: multiset<ChunkedFile>) {
    forall x, y :: x in m && y in m && x.name == y.name ==> x == y && m[x] == 1
  }

  /** What the merge needs of the file system: the destination and every
      chunk file exist, the chunk files have distinct names, and none of them
      is the destination. */
  predicate MergeFrame(fs: map<string, seq<Byte>>, cfs: seq<ChunkedFile>, dst: string) {
    && dst in fs
    && (forall x :: x in multiset(cfs) ==> x.name in fs && x.name != dst)
    && DistinctNames(multiset(cfs))
  }

  /** MergeFrame, position by position. */
  predicate FrameByPosition(fs: map<string, seq<Byte>>, cfs: seq<ChunkedFile>, dst: string) {
    && dst in fs
    && (forall j :: 0 <= j < |cfs| ==> cfs[j].name in fs && cfs[j].name != dst)
    && (forall i, j :: 0 <= i < j < |cfs| ==> cfs[i].name != cfs[j].name)
  }

  /** The bytes one io.Copy appends to the destination. */
  function Written(data: seq<Byte>, outcome: CopyOutcome): (r: seq<Byte>)
    ensures r <= data
    ensures outcome == Copied ==> r == data
  {
    match outcome
    case Copied => data
    case CopyFailed(w) => if w < |data| then data[..w] else data
  }

  /** The bytes the first k copies append, in order. */
  function Gathered(fs: map<string, seq<Byte>>, cfs: seq<ChunkedFile>, copies: seq<CopyOutcome>, k: nat): seq<Byte>
    requires k <= |cfs| == |copies|
    requires forall j :: 0 <= j < |cfs| ==> cfs[j].name in fs
  {
    if k == 0 then []
    else Gathered(fs, cfs, copies, k - 1) + Written(fs[cfs[k - 1].name], copies[k - 1])
  }

  /** The contents of the chunk files, concatenated in the given order. */
  function Contents(fs: map<string, seq<Byte>>, cfs: seq<ChunkedFile>): seq<Byte>
    requires forall j :: 0 <= j < |cfs| ==> cfs[j].name in fs
  {
    if cfs == [] then []
    else Contents(fs, cfs[..|cfs| - 1]) + fs[cfs[|cfs| - 1].name]
  }

  /** The file system after the first k steps of the merge loop, each of
      which appends what io.Copy wrote and then removes the chunk file. */
  function MergeSteps(fs: map<string, seq<Byte>>, cfs: seq<ChunkedFile>, dst: string,
                      copies: seq<CopyOutcome>, k: nat): (r: map<string, seq<Byte>>)
    requires k <= |cfs| == |copies| && FrameByPosition(fs, cfs, dst)
    ensures dst in r
    ensures forall j :: k <= j < |cfs| ==> cfs[j].name in r
  {
    if k == 0 then fs
    else
      var prev := MergeSteps(fs, cfs, dst, copies, k - 1);
      var cf := cfs[k - 1];
      prev[dst := prev[dst] + Written(prev[cf.name], copies[k - 1])] - {cf.name}
  }

  /** After k steps the chunk files taken so far are gone and the
      destination has grown by what was copied. */
  lemma MergeStepsState(fs: map<string, seq<Byte>>, cfs: seq<ChunkedFile>, dst: string,
                         copies: seq<CopyOutcome>, k: nat)
    requires k <= |cfs| == |copies| && FrameByPosition(fs, cfs, dst)
    ensures var r := MergeSteps(fs, cfs, dst, copies, k);
      && r.Keys == fs.Keys - Names(cfs[..k])
      && r[dst] == fs[dst] + Gathered(fs, cfs, copies, k)
  {
    MergeStepsKeys(fs, cfs, dst, copies, k);
    MergeStepsDestination(fs, cfs, dst, copies, k);
  }

  /** The destination after k steps: its old contents, then what the first k copies wrote. */
  lemma {:induction false} MergeStepsDestination(fs: map<string, seq<Byte>>, cfs: seq<ChunkedFile>, dst: string,
                                                 copies: seq<CopyOutcome>, k: nat)
    requires k <= |cfs| == |copies| && FrameByPosition(fs, cfs, dst)
    ensures MergeSteps(fs, cfs, dst, copies, k)[dst] == fs[dst] + Gathered(fs, cfs, copies, k)
  {
    if k > 0 {
      MergeStepsDestination(fs, cfs, dst, copies, k - 1);
      MergeStepsKeepChunk(fs, cfs, dst, copies, k - 1, k - 1);
      var g, w := Gathered(fs, cfs, copies, k - 1), Written(fs[cfs[k - 1].name], copies[k - 1]);
      assert fs[dst] + (g + w) == (fs[dst] + g) + w;
    }
  }

  /** A chunk file not yet taken still holds its original contents. */
  lemma MergeStepsKeepChunk(fs: map<string, seq<Byte>>, cfs: seq<ChunkedFile>, dst: string,
                            copies: seq<CopyOutcome>, k: nat, j: nat)
    requires k <= j < |cfs| == |copies| && FrameByPosition(fs, cfs, dst)
    ensures var r := MergeSteps(fs, cfs, dst, copies, k);
      cfs[j].name in r && r[cfs[j].name] == fs[cfs[j].name]
  {
    MergeStepsKeepOthers(fs, cfs, dst, copies, k);
  }

  lemma {:induction false} MergeStepsKeys(fs: map<string, seq<Byte>>, cfs: seq<ChunkedFile>, dst: string,
                                          copies: seq<CopyOutcome>, k: nat)
    requires k <= |cfs| == |copies| && FrameByPosition(fs, cfs, dst)
    ensures MergeSteps(fs, cfs, dst, copies, k).Keys == fs.Keys - Names(cfs[..k])
  {
    if k == 0 {
      assert Names(cfs[..0]) == {};
    } else {
      MergeStepsKeys(fs, cfs, dst, copies, k - 1);
      var prev, cf := MergeSteps(fs, cfs, dst, copies, k - 1), cfs[k - 1];
      NamesStep(cfs, k);
      calc {
        MergeSteps(fs, cfs, dst, copies, k).Keys;
        prev.Keys - {cf.name};
        (fs.Keys - Names(cfs[..k - 1])) - {cf.name};
        fs.Keys - (Names(cfs[..k - 1]) + {cf.name});
        fs.Keys - Names(cfs[..k]);
      }
    }
  }

  lemma NamesStep(cfs: seq<ChunkedFile>, k: nat)
    requires 0 < k <= |cfs|
    ensures Names(cfs[..k]) == Names(cfs[..k - 1]) + {cfs[k - 1].name}
  {
    assert cfs[..k][k - 1] == cfs[k - 1];
    forall x | x in Names(cfs[..k]) ensures x in Names(cfs[..k - 1]) + {cfs[k - 1].name} {
      var j :| 0 <= j < k && cfs[..k][j].name == x;
      if j < k - 1 {
        assert cfs[..k - 1][j] == cfs[j];
      }
    }
    forall x | x in Names(cfs[..k - 1]) ensures x in Names(cfs[..k]) {
      var j :| 0 <= j < k - 1 && cfs[..k - 1][j].name == x;
      assert cfs[..k][j] == cfs[j];
    }
  }

  /** The steps change no file but the destination: every other file left
      (the later chunk files among them) keeps its contents. */
  lemma {:induction false} MergeStepsKeepOthers(fs: map<string, seq<Byte>>, cfs: seq<ChunkedFile>, dst: string,
                                                copies: seq<CopyOutcome>, k: nat)
    requires k <= |cfs| == |copies| && FrameByPosition(fs, cfs, dst)
    ensures var r := MergeSteps(fs, cfs, dst, copies, k);
      forall x :: x in r && x != dst ==> x in fs && r[x] == fs[x]
  {
    if k > 0 {
      MergeStepsKeepOthers(fs, cfs, dst, copies, k - 1);
      var prev, r := MergeSteps(fs, cfs, dst, copies, k - 1), MergeSteps(fs, cfs, dst, copies, k);
      forall x | x in r && x != dst ensures x in prev && r[x] == prev[x] {
        assert x != cfs[k - 1].name;
      }
    }
  }

  /** The position of the first failed copy, |copies| when none failed. */
  function FirstFailure(copies: seq<CopyOutcome>): (k: nat)
    ensures k <= |copies|
    ensures forall j :: 0 <= j < k ==> copies[j] == Copied
    ensures k < |copies| ==> copies[k].CopyFailed?
  {
    if copies == [] then 0
    else if copies[0].CopyFailed? then 0
    else 1 + FirstFailure(copies[1..])
  }

  /** The file system after the merge loop: it stops after the first failed
      copy, or after the last file. */
  function MergeResult(fs: map<string, seq<Byte>>, cfs: seq<ChunkedFile>, dst: string,
                       copies: seq<CopyOutcome>): map<string, seq<Byte>>
    requires |cfs| == |copies| && MergeFrame(fs, cfs, dst)
  {
    FrameAtPositions(fs, cfs, dst);
    var k := FirstFailure(copies);
    MergeSteps(fs, cfs, dst, copies, if k < |copies| then k + 1 else k)
  }

  /** When every copy succeeds, the bytes gathered are the chunk files'
      contents in order. */
  lemma {:induction false} GatheredAllCopied(fs: map<string, seq<Byte>>, cfs: seq<ChunkedFile>,
                                             copies: seq<CopyOutcome>, k: nat)
    requires k <= |cfs| == |copies|
    requires forall j :: 0 <= j < |cfs| ==> cfs[j].name in fs
    requires forall j :: 0 <= j < k ==> copies[j] == Copied
    ensures Gathered(fs, cfs, copies, k) == Contents(fs, cfs[..k])
  {
    if k > 0 {
      GatheredAllCopied(fs, cfs, copies, k - 1);
      assert cfs[..k][..k - 1] == cfs[..k - 1];
    }
  }

  /** The merge outcome when every copy succeeds: the destination holds the
      chunk files' contents in order, every chunk file is removed, and every
      other file keeps its contents. */
  lemma {:induction false} MergeCompletes(fs: map<string, seq<Byte>>, cfs: seq<ChunkedFile>, dst: string,
                                          copies: seq<CopyOutcome>)
    requires |cfs| == |copies| && MergeFrame(fs, cfs, dst)
    requires FirstFailure(copies) == |cfs|
    ensures var r := MergeResult(fs, cfs, dst, copies);
      && r[dst] == fs[dst] + Contents(fs, cfs)
      && r.Keys == fs.Keys - Names(cfs)
      && forall x :: x in r && x != dst ==> x in fs && r[x] == fs[x]
  {
    FrameAtPositions(fs, cfs, dst);
    StepsComplete(fs, cfs, dst, copies);
  }

  lemma {:induction false} StepsComplete(fs: map<string, seq<Byte>>, cfs: seq<ChunkedFile>, dst: string,
                                         copies: seq<CopyOutcome>)
    requires |cfs| == |copies| && FrameByPosition(fs, cfs, dst)
    requires forall j :: 0 <= j < |cfs| ==> copies[j] == Copied
    ensures var r := MergeSteps(fs, cfs, dst, copies, |cfs|);
      && r[dst] == fs[dst] + Contents(fs, cfs)
      && r.Keys == fs.Keys - Names(cfs)
      && forall x :: x in r && x != dst ==> x in fs && r[x] == fs[x]
  {
    MergeStepsState(fs, cfs, dst, copies, |cfs|);
    MergeStepsKeepOthers(fs, cfs, dst, copies, |cfs|);
    GatheredAllCopied(fs, cfs, copies, |cfs|);
    assert cfs[..|cfs|] == cfs;
  }

  /** The merge outcome when the copy at position k fails: the chunk files at
      positions up to k are removed (the removal precedes the error check),
      those after k are left as they were, the destination holds the first k
      files and the part of file k that was written, and every other file
      keeps its contents. */
  lemma {:induction false} MergeStopsAt(fs: map<string, seq<Byte>>, cfs: seq<ChunkedFile>, dst: string,
                                        copies: seq<CopyOutcome>, k: nat)
    requires |cfs| == |copies| && MergeFrame(fs, cfs, dst)
    requires k == FirstFailure(copies) && k < |cfs|
    ensures var r := MergeResult(fs, cfs, dst, copies);
      && r.Keys == fs.Keys - Names(cfs[..k + 1])
      && r[dst] == fs[dst] + (Contents(fs, cfs[..k]) + Written(fs[cfs[k].name], copies[k]))
      && (forall j :: 0 <= j <= k ==> cfs[j].name !in r)
      && (forall j :: k < j < |cfs| ==> cfs[j].name in r && r[cfs[j].name] == fs[cfs[j].name])
      && (forall x :: x in r && x != dst ==> x in fs && r[x] == fs[x])
  {
    FrameAtPositions(fs, cfs, dst);
    StepsStopAt(fs, cfs, dst, copies, k);
  }

  lemma {:induction false} StepsStopAt(fs: map<string, seq<Byte>>, cfs: seq<ChunkedFile>, dst: string,
                                       copies: seq<CopyOutcome>, k: nat)
    requires |cfs| == |copies| && FrameByPosition(fs, cfs, dst)
    requires k < |cfs| && forall j :: 0 <= j < k ==> copies[j] == Copied
    ensures var r := MergeSteps(fs, cfs, dst, copies, k + 1);
      && r.Keys == fs.Keys - Names(cfs[..k + 1])
      && r[dst] == fs[dst] + (Contents(fs, cfs[..k]) + Written(fs[cfs[k].name], copies[k]))
      && (forall j :: 0 <= j <= k ==> cfs[j].name !in r)
      && (forall j :: k < j < |cfs| ==> cfs[j].name in r && r[cfs[j].name] == fs[cfs[j].name])
      && (forall x :: x in r && x != dst ==> x in fs && r[x] == fs[x])
  {
    MergeStepsState(fs, cfs, dst, copies, k + 1);
    MergeStepsKeepOthers(fs, cfs, dst, copies, k + 1);
    GatheredUpToFailure(fs, cfs, copies, k);
    NamesOfPrefix(cfs, k + 1);
  }

  /** The bytes gathered up to and including the failed copy at position k. */
  lemma GatheredUpToFailure(fs: map<string, seq<Byte>>, cfs: seq<ChunkedFile>, copies: seq<CopyOutcome>, k: nat)
    requires k < |cfs| == |copies|
    requires forall j :: 0 <= j < |cfs| ==> cfs[j].name in fs
    requires forall j :: 0 <= j < k ==> copies[j] == Copied
    ensures Gathered(fs, cfs, copies, k + 1) == Contents(fs, cfs[..k]) + Written(fs[cfs[k].name], copies[k])
  {
    GatheredAllCopied(fs, cfs, copies, k);
  }

  /** The names of the first k handles include the name of each of them. */
  lemma NamesOfPrefix(cfs: seq<ChunkedFile>, k: nat)
    requires k <= |cfs|
    ensures forall j :: 0 <= j < k ==> cfs[j].name in Names(cfs[..k])
  {
    forall j | 0 <= j < k ensures cfs[j].name in Names(cfs[..k]) {
      assert cfs[..k][j] == cfs[j];
    }
  }

  /** The merge does not depend on the order in which the chunks arrived:
      two arrivals of the same handles, with unique indices, sort to the
      same sequence and so leave the same file system. */
  lemma MergeIgnoresArrivalOrder(fs: map<string, seq<Byte>>, s: seq<ChunkedFile>, t: seq<ChunkedFile>,
                                 dst: string, copies: seq<CopyOutcome>)
    requires SortedByIndex(s) && SortedByIndex(t)
    requires multiset(s) == multiset(t) && UniqueIndices(multiset(s))
    requires |copies| == |s| && MergeFrame(fs, s, dst)
    ensures |copies| == |t| && MergeFrame(fs, t, dst)
    ensures MergeResult(fs, s, dst, copies) == MergeResult(fs, t, dst, copies)
  {
    SortedArrangementUnique(s, t);
  }

  /** Chunk files numbered 0 to n - 1 (as the download numbers them), once
      sorted, sit at the positions their indices give: the k-th file merged
      holds chunk k. */
  lemma {:induction false} SortedIndicesArePositions(s: seq<ChunkedFile>)
    requires StrictlyAscending(s)
    requires forall j :: 0 <= j < |s| ==> 0 <= s[j].index < |s|
    ensures forall k :: 0 <= k < |s| ==> s[k].index == k
  {
    forall k | 0 <= k < |s| ensures s[k].index == k {
      IndexAtLeastPosition(s, k);
      IndexAtMostPosition(s, k);
    }
  }

  lemma {:induction false} IndexAtLeastPosition(s: seq<ChunkedFile>, k: int)
    requires StrictlyAscending(s) && 0 <= k < |s|
    requires forall j :: 0 <= j < |s| ==> 0 <= s[j].index
    ensures s[k].index >= k
  {
    if k > 0 {
      IndexAtLeastPosition(s, k - 1);
    }
  }

  lemma {:induction false} IndexAtMostPosition(s: seq<ChunkedFile>, k: int)
    requires StrictlyAscending(s) && 0 <= k < |s|
    requires forall j :: 0 <= j < |s| ==> s[j].index < |s|
    ensures s[k].index <= k
    decreases |s| - k
  {
    if k < |s| - 1 {
      IndexAtMostPosition(s, k + 1);
      assert s[k].index < s[k + 1].index;
    }
  }

  /** The local file system: temporary chunk files and the destination, by name. */
  class FileSystem {
    var files: map<string, seq<Byte>>

    constructor(files0: map<string, seq<Byte>>)
      ensures files == files0
    {
      files := files0;
    }

    /** The tail of DownloadWithChunks: sort the handles by index, create
        (or truncate) the destination, then for each handle copy its file
        into the destination, remove the file, and stop at the first failed
        copy. createOk is the outcome of os.Create, copies[k] that of the
        k-th io.Copy. */
    method Merge(chunkFiles: array<ChunkedFile>, name: string, createOk: bool, copies: seq<CopyOutcome>)
      returns (err: Option<MergeError>)
      requires |copies| == chunkFiles.Length && MergeFrame(files[name := []], chunkFiles[..], name)
      modifies this, chunkFiles
      ensures SortedByIndex(chunkFiles[..]) && multiset(chunkFiles[..]) == old(multiset(chunkFiles[..]))
      ensures !createOk ==> err == Some(CreateFailed) && files == old(files)
      ensures createOk ==> files == MergeResult(old(files)[name := []], chunkFiles[..], name, copies)
      ensures createOk ==> var k := FirstFailure(copies);
        err == (if k < |copies| then Some(MergeFailed(chunkFiles[k].name)) else None)
    {
      SortByIndex(chunkFiles);
      if !createOk {
        return Some(CreateFailed);
      }
      files := files[name := []];
      FrameAtPositions(files, chunkFiles[..], name);
      err := CopyAll(chunkFiles, name, copies);
    }

    /** The copy loop of the merge: append each chunk file to the
        destination, remove it, and stop at the first failed copy. */
    method CopyAll(chunkFiles: array<ChunkedFile>, name: string, copies: seq<CopyOutcome>)
      returns (err: Option<MergeError>)
      requires |copies| == chunkFiles.Length && FrameByPosition(files, chunkFiles[..], name)
      modifies this
      ensures var k := FirstFailure(copies);
        && files == MergeSteps(old(files), chunkFiles[..], name, copies, if k < |copies| then k + 1 else k)
        && err == (if k < |copies| then Some(MergeFailed(chunkFiles[k].name)) else None)
    {
      ghost var fs0, cfs := files, chunkFiles[..];
      for i := 0 to chunkFiles.Length
        invariant files == MergeSteps(fs0, cfs, name, copies, i)
        invariant forall j :: 0 <= j < i ==> copies[j] == Copied
      {
        var cf := chunkFiles[i];
        assert cf == cfs[i];
        ghost var next := MergeSteps(fs0, cfs, name, copies, i + 1);
        var data := files[cf.name];
        files := files[name := files[name] + Written(data, copies[i])];
        files := files - {cf.name};
        assert files == next;
        if copies[i].CopyFailed? {
          assert FirstFailure(copies) == i;
          return Some(MergeFailed(cf.name));
        }
        assert copies[i] == Copied;
      }
      assert FirstFailure(copies) == |copies|;
      return None;
    }
  }

  /** The frame, position by position: every chunk file exists and is not
      the destination, and handles at distinct positions name distinct files. */
  lemma {:induction false} FrameAtPositions(fs: map<string, seq<Byte>>, s: seq<ChunkedFile>, dst: string)
    requires MergeFrame(fs, s, dst)
    ensures FrameByPosition(fs, s, dst)
  {
    forall j | 0 <= j < |s| ensures s[j].name in fs && s[j].name != dst {
      assert s[j] in multiset(s);
    }
    forall i, j | 0 <= i < j < |s| ensures s[i].name != s[j].name {
      if s[i].name == s[j].name {
        assert s[i] in multiset(s) && s[j] in multiset(s);
        TwoPositionsTwice(s, i, j);
        assert false;
      }
    }
  }
}
