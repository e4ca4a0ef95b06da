/** The program's fixed configuration. */
module Config {

  /** Largest chunk, in characters, handed to the text splitter. */
  const CHUNK_SIZE: nat := 1950

  /** Characters shared by consecutive chunks, as requested of the splitter. */
  const CHUNK_OVERLAP: nat := 10

  /** The instruction line, "translate following text from chinese to
      english", written as two halves. */
  const PREFIX_LINE: string := "translate following " + "text from chinese to english"

  /** The instruction placed in front of every chunk: its one line, ended by
      a line feed. */
  const PREFIX: string := PREFIX_LINE + "\n"

  /** The splitter is configured with a positive chunk size and an overlap
      smaller than it. */
  lemma ChunkSettingsValid()
    ensures 0 < CHUNK_OVERLAP < CHUNK_SIZE
  {
  }

  /** The prefix is a single line: its only line feed is its last character. */
  lemma PrefixIsOneLine()
    ensures |PREFIX| > 0 && PREFIX[|PREFIX| - 1] == '\n'
    ensures PREFIX[..|PREFIX| - 1] == PREFIX_LINE && '\n' !in PREFIX_LINE
  {
    NoNewlineInJoin("translate following ", "text from chinese to english");
    assert PREFIX[..|PREFIX| - 1] == PREFIX_LINE;
  }

  lemma NoNewlineInJoin(a: string, b: string)
    requires '\n' !in a && '\n' !in b
    ensures '\n' !in a + b
  {
  }
}
