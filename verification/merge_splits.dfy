/** The imperative `merge_splits` loop of the source, kept as close to it as
    Dafny allows: a running `total`, a list of the fragments of the chunk
    being built, and an eviction loop that shifts fragments off its front.
    It is proved to compute exactly the functional `Merger.Merge`. */
module MergeLoop {
  import opened RubyString
  import opened SplitterConfig
  import opened Merger

  /** Rendering one more window adds its text, unless that text is empty. */
  lemma ChunksSnoc(splits: seq<string>, ws: seq<Span>, w: Span, sep: string, recon: bool)
    requires Bounded(ws, |splits|) && w.lo <= w.hi <= |splits|
    ensures Bounded(ws + [w], |splits|)
    ensures var c := Render(splits, w, sep, recon);
      Chunks(splits, ws + [w], sep, recon) == Chunks(splits, ws, sep, recon) + (if c == "" then [] else [c])
  {
    assert (ws + [w])[..|ws|] == ws;
  }

  lemma SliceSnoc(splits: seq<string>, lo: nat, i: nat)
    requires lo <= i < |splits|
    ensures splits[lo..i + 1] == splits[lo..i] + [splits[i]]
  {
  }

  /** The eviction loop of `merge_splits`: shift fragments off the front of
      the chunk being built until it is within the overlap and leaves room
      for the fragment of length `next`. */
  method Shed(cfg: Config, splits: seq<string>, lo: nat, i: nat, current: seq<string>, total: nat, next: nat)
    returns (lo': nat, current': seq<string>, total': nat)
    requires lo <= i <= |splits|
    requires current == splits[lo..i] && total == SumLen(current)
    ensures lo' == Evict(cfg, splits, lo, i, next)
    ensures current' == splits[lo'..i] && total' == SumLen(current')
  {
    lo', current', total' := lo, current, total;
    while total' > cfg.chunkOverlap || (total' > 0 && total' + next > cfg.chunkSize)
      invariant lo <= lo' <= i
      invariant current' == splits[lo'..i]
      invariant total' == SumLen(current')
      invariant Evict(cfg, splits, lo', i, next) == Evict(cfg, splits, lo, i, next)
      decreases |current'|
    {
      total' := total' - |current'[0]|;
      current' := current'[1..];
      lo' := lo' + 1;
    }
  }

  /** What the loop of `merge_splits` knows after `i` fragments: `lo` is
      the index of the first fragment of the chunk being built, `closed` the
      windows already closed and `chunks` their rendered texts. */
  ghost predicate Progress(cfg: Config, splits: seq<string>, sep: string, recon: bool, i: nat,
                           lo: nat, current: seq<string>, total: nat, chunks: seq<string>, closed: seq<Span>)
  {
    && lo <= i <= |splits|
    && Run(cfg, splits, i) == Pack(closed, lo)
    && current == splits[lo..i]
    && total == SumLen(current)
    && Bounded(closed, |splits|)
    && chunks == Chunks(splits, closed, sep, recon)
  }

  /** Renders the chunk being built, as both the loop and the final flush of
      `merge_splits` do. */
  method RenderCurrent(current: seq<string>, separator: string, reconstructable: bool) returns (chunk: string)
    ensures chunk == (if reconstructable then Join(current, separator) else Strip(Join(current, separator)))
  {
    chunk := Join(current, separator);
    if !reconstructable {
      chunk := Strip(chunk);
    }
  }

  /** One iteration of the outer loop of `merge_splits`: the window stays a
      slice ending at the fragment just appended, chunks are only added,
      and a fragment shorter than `chunk_size` leaves `total` within it. */
  method Step(cfg: Config, splits: seq<string>, separator: string, reconstructable: bool, i: nat,
              lo: nat, current: seq<string>, total: nat, chunks: seq<string>, ghost closed: seq<Span>)
    returns (lo': nat, current': seq<string>, total': nat, chunks': seq<string>, ghost closed': seq<Span>)
    requires i < |splits|
    requires Progress(cfg, splits, separator, reconstructable, i, lo, current, total, chunks, closed)
    ensures Progress(cfg, splits, separator, reconstructable, i + 1, lo', current', total', chunks', closed')
    ensures lo <= lo' <= i && current' == splits[lo'..i + 1] && total' == SumLen(current')
    ensures chunks <= chunks'
    ensures |splits[i]| < cfg.chunkSize ==> total' <= cfg.chunkSize
  {
    var split := splits[i];
    lo', current', total', chunks', closed' := lo, current, total, chunks, closed;
    assert Total(splits, lo, i) == total;
    if total + |split| >= cfg.chunkSize && |current| > 0 {
      assert Closes(cfg, splits, lo, i);
      var chunk := RenderCurrent(current, separator, reconstructable);
      ChunksSnoc(splits, closed, Span(lo, i), separator, reconstructable);
      if chunk != "" {
        chunks' := chunks + [chunk];
      }
      closed' := closed + [Span(lo, i)];
      lo', current', total' := Shed(cfg, splits, lo, i, current, total, |split|);
      assert Run(cfg, splits, i + 1) == Pack(closed', lo');
      assert total' == Total(splits, lo', i);
    } else {
      assert !Closes(cfg, splits, lo, i);
      assert Run(cfg, splits, i + 1) == Pack(closed, lo);
    }
    assert total' == 0 || total' + |split| <= cfg.chunkSize;
    SumLenAppend(current', split);
    SliceSnoc(splits, lo', i);
    current' := current' + [split];
    total' := total' + |split|;
  }

  method MergeSplits(cfg: Config, splits: seq<string>, separator: string, reconstructable: bool)
    returns (output: seq<string>)
    requires AllShort(cfg, splits)
    ensures output == Merge(cfg, splits, separator, reconstructable)
  {
    var chunks: seq<string> := [];
    var current: seq<string> := [];
    var total: nat := 0;
    var lo: nat := 0;
    ghost var closed: seq<Span> := [];
    for i := 0 to |splits|
      invariant Progress(cfg, splits, separator, reconstructable, i, lo, current, total, chunks, closed)
    {
      lo, current, total, chunks, closed := Step(cfg, splits, separator, reconstructable, i, lo, current, total, chunks, closed);
    }
    var chunk := RenderCurrent(current, separator, reconstructable);
    ChunksSnoc(splits, closed, Span(lo, |splits|), separator, reconstructable);
    if chunk != "" {
      chunks := chunks + [chunk];
    }
    if reconstructable {
      output := AppendEach(chunks, separator);
    } else {
      output := chunks;
    }
  }
}
