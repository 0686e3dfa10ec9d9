/** The statistics record a successful compression produces. */
module Stats {

  /** `CompressionStats`; `duration` is the wall-clock time the caller measured. */
  datatype CompressionStats = CompressionStats(
    originalSize: nat,
    compressedSize: nat,
    duration: real,
    filesProcessed: nat,
    compressionRatio: real)

  /** `original / compressed if compressed > 0 else 0`. */
  function Ratio(original: nat, compressed: nat): (r: real)
    ensures compressed > 0 ==> r * compressed as real == original as real
    ensures compressed == 0 ==> r == 0.0
    ensures r >= 0.0
  {
    if compressed > 0 then original as real / compressed as real else 0.0
  }

  /** The ratio exceeds 1 exactly when the output is smaller than the input. */
  lemma RatioAboveOne(original: nat, compressed: nat)
    requires compressed > 0
    ensures Ratio(original, compressed) > 1.0 <==> original > compressed
  {
    var r, c := Ratio(original, compressed), compressed as real;
    assert r * c == original as real;
    if r > 1.0 {
      assert (r - 1.0) * c > 0.0;
    } else {
      assert (1.0 - r) * c >= 0.0;
    }
  }

  /** A record whose ratio agrees with its sizes. */
  predicate WellFormed(s: CompressionStats)
  {
    s.compressionRatio == Ratio(s.originalSize, s.compressedSize)
  }

  /** Builds the record the way both compression operations do. */
  function MakeStats(original: nat, compressed: nat, duration: real, files: nat): (s: CompressionStats)
    ensures WellFormed(s)
    ensures s.originalSize == original && s.compressedSize == compressed
    ensures s.filesProcessed == files && s.duration == duration
  {
    CompressionStats(original, compressed, duration, files, Ratio(original, compressed))
  }
}
