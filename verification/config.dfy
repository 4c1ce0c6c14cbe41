/**
 * The two configuration records: the core validation options, which hold
 * for any input source, and the options of the filesystem source.
 */
module Config {
  import opened Wrappers
  import opened Paths

  /** Rust's `u64`. */
  type u64 = x: int | 0 <= x < 0x1_0000_0000_0000_0000

  /** `ValidationConfig`: expected vendor, key scanning, relaxed discovery, Markdown skip tokens. */
  datatype ValidationConfig = ValidationConfig(
    vendor: Option<string>,
    scanKeys: bool,
    strict: bool,
    skipTokens: seq<string>)

  /** `FsSourceConfig`: scan roots, exclude globs, size ceiling in bytes, symlink following. */
  datatype FsSourceConfig = FsSourceConfig(
    paths: seq<FsPath>,
    exclude: seq<string>,
    maxFileSize: u64,
    followLinks: bool)

  /** Ten mebibytes. */
  const DEFAULT_MAX_FILE_SIZE: u64 := 10_485_760

  /** The derived `Default`: every field at its type's default. */
  function DefaultValidationConfig(): ValidationConfig {
    ValidationConfig(None, false, false, [])
  }

  /** The hand-written `Default`: no roots, no excludes, 10 MiB, links followed. */
  function DefaultFsSourceConfig(): FsSourceConfig {
    FsSourceConfig([], [], DEFAULT_MAX_FILE_SIZE, true)
  }
}
