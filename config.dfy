/** The fixed configuration values the core reads (config.py). */
module Config {

  /** File extensions the scanner accepts, compared exactly (case-sensitive). */
  const SUPPORTED_FORMATS: seq<string> := [".mp3", ".flac", ".ogg", ".m4a", ".wav"]

  /** Capacity of the anti-repeat window of recently served track ids. */
  const MAX_RECENT_TRACKS: nat := 10
}
