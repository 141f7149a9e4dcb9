/** The cases of downloader_test.go, stated about the plan that
    Downloader.Chunked is proved to return. The lengths are the ones the
    test's servers reported. */
module DownloaderTest {
  import opened Downloader

  /** TestDownloader_Chunked: without a count, 224971 bytes make one range,
      1691754 bytes two and 2334896 bytes three; the last ends at the length. */
  lemma AutoChunkCounts()
    ensures ChunkPlan(224971, []) == [Chunk(0, 224971)]
    ensures |ChunkPlan(1691754, [])| == 2 && ChunkPlan(1691754, [])[1].end == 1691754
    ensures |ChunkPlan(2334896, [])| == 3 && ChunkPlan(2334896, [])[2].end == 2334896
  {
    ChunkPlanEnds(1691754, []);
    ChunkPlanEnds(2334896, []);
  }

  /** TestChunkedWithNumber: explicit counts 2, 3 and 5 over 2334896 bytes. */
  lemma ExplicitChunkCounts()
    ensures |ChunkPlan(2334896, [2])| == 2 && ChunkPlan(2334896, [2])[1].end == 2334896
    ensures |ChunkPlan(2334896, [3])| == 3 && ChunkPlan(2334896, [3])[2].end == 2334896
    ensures |ChunkPlan(2334896, [5])| == 5 && ChunkPlan(2334896, [5])[4].end == 2334896
  {
    ChunkPlanEnds(2334896, [2]);
    ChunkPlanEnds(2334896, [3]);
    ChunkPlanEnds(2334896, [5]);
  }

  /** Four explicit chunks over 5 bytes: the ranges are {0,1}, {2,3}, {4,5}
      and the inverted {6,5}. */
  lemma InvertedLastRange()
    ensures Plan(5, 4) == [Chunk(0, 1), Chunk(2, 3), Chunk(4, 5), Chunk(6, 5)]
  {
    assert GoDiv(5, 4) == 1;
  }
}
