/**
 * The chunk loop of `search_for_errors`, shared by src/log_code.py,
 * src/LogCode.py and LogCode.py, on the three lists it fills.
 */
module LogChunks {
  import opened PyStr
  import opened LogWarnings

  /**
   * Each chunk is parsed and its genre checked, up to the first chunk that
   * raises; the lists gathered before it are returned with the error.
   */
  method GatherChunks(gen: Generation, l0: Lists, chunks: seq<string>) returns (l: Lists, err: Option<PyError>)
    ensures err.None? <==> NoneRaise(gen, chunks)
    ensures err.Some? ==> err == Some(IndexError)
    ensures l == Collect(l0, chunks[..FirstRaise(gen, chunks)], [])
    ensures err.None? ==> l == Collect(l0, chunks, [])
    ensures Distinct(l0) ==> Distinct(l)
  {
    FirstRaiseSpec(gen, chunks);
    if Distinct(l0) {
      CollectDistinct(l0, chunks[..FirstRaise(gen, chunks)], []);
    }
    if FirstRaise(gen, chunks) == |chunks| {
      assert chunks[..|chunks|] == chunks;
    }
    l := l0;
    var i := 0;
    while i < |chunks|
      invariant i <= FirstRaise(gen, chunks)
      invariant l == Collect(l0, chunks[..i], [])
    {
      FirstRaiseAt(gen, chunks, i);
      CollectStep(l0, chunks, i, []);
      var outcome := ParseChunk(chunks[i]);
      match outcome {
        case NoSecondWord =>
          return l, Some(IndexError);
        case PageLast =>
          if gen == Early {
            return l, Some(IndexError);
          }
        case Parsed(genre, e) =>
          l := Absorb(l, genre, e, []);
      }
      i := i + 1;
    }
    err := None;
  }
}
