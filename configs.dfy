/** The per-log configuration the storage engine consumes. */
module Configs {
  import opened Bytes

  /** `Config.Segment` of the source: the two rotation thresholds and the base
      offset of the first segment of a brand-new log. */
  datatype Config = Config(maxStoreBytes: u64, maxIndexBytes: u64, initialOffset: u64)

  /** The size a log uses for a threshold left at zero. */
  const DefaultMaxBytes: u64 := 1024

  /** `NewLog`'s fill-in of uninitialised thresholds: both thresholds end
      up set, a threshold already set is kept, and the initial offset is
      passed through. */
  function WithDefaults(c: Config): (d: Config)
    ensures d.maxStoreBytes == (if c.maxStoreBytes == 0 then DefaultMaxBytes else c.maxStoreBytes)
    ensures d.maxIndexBytes == (if c.maxIndexBytes == 0 then DefaultMaxBytes else c.maxIndexBytes)
    ensures d.initialOffset == c.initialOffset
    ensures d.maxStoreBytes > 0 && d.maxIndexBytes > 0
  {
    c.(maxStoreBytes := if c.maxStoreBytes == 0 then DefaultMaxBytes else c.maxStoreBytes,
       maxIndexBytes := if c.maxIndexBytes == 0 then DefaultMaxBytes else c.maxIndexBytes)
  }

  /** Defaulting a defaulted configuration changes nothing, so a log
      reopened with its own configuration keeps its thresholds. */
  lemma WithDefaultsIdempotent(c: Config)
    ensures WithDefaults(WithDefaults(c)) == WithDefaults(c)
  {
  }
}
