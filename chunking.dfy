/** The processing loop: every chapter is split by the configured text
    splitter and every resulting piece gets the instruction prefix. The
    splitter is an external library, so it is a parameter here: `split`
    stands for the splitter built with `CHUNK_SIZE`, `CHUNK_OVERLAP`, a line
    feed separator and the character-count length function. */
module Chunking {
  import opened Config
  import opened Wrappers

  /** The list comprehension `[PREFIX + s for s in splits]`: one prefixed
      chunk per split piece, the piece itself left unchanged after the
      prefix. */
  function AddPrefix(splits: seq<string>): (r: seq<string>)
    ensures |r| == |splits|
    ensures forall k :: 0 <= k < |r| ==>
              && |r[k]| == |PREFIX| + |splits[k]|
              && r[k][..|PREFIX|] == PREFIX
              && r[k][|PREFIX|..] == splits[k]
  {
    seq(|splits|, k requires 0 <= k < |splits| => PREFIX + splits[k])
  }

  /** Removes the instruction prefix again, if the text starts with it. */
  function StripPrefix(chunk: string): Option<string> {
    if PREFIX <= chunk then Some(chunk[|PREFIX|..]) else None
  }

  /** Stripping undoes prefixing, piece by piece. */
  lemma StripAddPrefix(splits: seq<string>, k: nat)
    requires k < |splits|
    ensures StripPrefix(AddPrefix(splits)[k]) == Some(splits[k])
  {
    var c := AddPrefix(splits)[k];
    assert PREFIX <= c by { assert c[..|PREFIX|] == PREFIX; }
  }

  /** The loop of the processing step: chapter order and the number of
      chapters are kept, and chapter `i` becomes the prefixed pieces of
      `split(chapters[i])`, one per piece. */
  method ProcessChapters(chapters: seq<string>, split: string -> seq<string>)
    returns (processed: seq<seq<string>>)
    ensures |processed| == |chapters|
    ensures forall i :: 0 <= i < |chapters| ==>
              && |processed[i]| == |split(chapters[i])|
              && forall k :: 0 <= k < |processed[i]| ==> processed[i][k] == PREFIX + split(chapters[i])[k]
  {
    processed := [];
    var n := 0;
    while n < |chapters|
      invariant n <= |chapters|
      invariant |processed| == n
      invariant forall i :: 0 <= i < n ==> processed[i] == AddPrefix(split(chapters[i]))
    {
      var splits := split(chapters[n]);
      processed := processed + [AddPrefix(splits)];
      n := n + 1;
    }
  }
}
