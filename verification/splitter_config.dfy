/** The splitter's configuration, stored unchanged by the constructor
    (`chunk_size`, `chunk_overlap`, `separators`). */
module SplitterConfig {

  /** `chunkOverlap` is a `nat`: a negative overlap is not modelled (see the
      README). `separators` is ordered from coarsest to finest. */
  datatype Config = Config(chunkSize: int, chunkOverlap: nat, separators: seq<string>)

  /** The constructor's default separator list: paragraph, line, word, character. */
  const DefaultSeparators: seq<string> := ["\n\n", "\n", " ", ""]

}
