/** The `Doc` record (src/docs.rs): one file of one snapshot. */
module Docs {

  /** Largest value of a Rust `u64`. */
  const U64_MAX: nat := 0xFFFF_FFFF_FFFF_FFFF

  /**
   * A file record. `modMillis` is the snapshot time as milliseconds since
   * the Unix epoch (the `SystemTime` field, serialised with `serde_millis`).
   * The hash is an opaque hex string.
   */
  datatype Doc = Doc(hash: string, name: string, path: string, modMillis: nat)
}
