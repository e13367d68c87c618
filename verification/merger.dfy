/** `merge_splits`: greedy sliding-window packing of fragments into chunks.

    The window of fragments is always a contiguous slice `splits[lo..i]` of
    the input, where `i` is the index of the fragment about to be appended;
    evicting from the front of the window advances `lo`. A run of the packer
    is therefore described by the sequence of windows it closed, each a
    `Span(lo, hi)` of indices, followed by the window it flushes at the end.
    The imperative transcription with the running `total` is in MergeLoop. */
module Merger {
  import opened RubyString
  import opened SplitterConfig

  // ---------------------------------------------------------------------
  // Fragment lengths
  // ---------------------------------------------------------------------

  /** Sum of the fragment lengths; separators are not counted. */
  function SumLen(parts: seq<string>): nat
  {
    if parts == [] then 0 else |parts[0]| + SumLen(parts[1..])
  }

  lemma {:induction false} SumLenAppend(parts: seq<string>, x: string)
    ensures SumLen(parts + [x]) == SumLen(parts) + |x|
  {
    if parts == [] {
      assert parts + [x] == [x];
    } else {
      assert (parts + [x])[1..] == parts[1..] + [x];
      SumLenAppend(parts[1..], x);
    }
  }

  /** Length of the window `splits[lo..hi]`. */
  function Total(splits: seq<string>, lo: nat, hi: nat): nat
    requires lo <= hi <= |splits|
  {
    SumLen(splits[lo..hi])
  }

  lemma TotalDropFront(splits: seq<string>, lo: nat, hi: nat)
    requires lo < hi <= |splits|
    ensures Total(splits, lo, hi) == |splits[lo]| + Total(splits, lo + 1, hi)
  {
    assert splits[lo..hi][1..] == splits[lo + 1..hi];
  }

  lemma TotalExtend(splits: seq<string>, lo: nat, hi: nat)
    requires lo <= hi < |splits|
    ensures Total(splits, lo, hi + 1) == Total(splits, lo, hi) + |splits[hi]|
  {
    assert splits[lo..hi + 1] == splits[lo..hi] + [splits[hi]];
    SumLenAppend(splits[lo..hi], splits[hi]);
  }

  /** A window of non-empty fragments has length zero only when it is empty. */
  lemma TotalZero(splits: seq<string>, lo: nat, hi: nat)
    requires lo <= hi <= |splits|
    requires forall k :: lo <= k < hi ==> splits[k] != ""
    requires Total(splits, lo, hi) == 0
    ensures lo == hi
  {
    if lo < hi {
      TotalDropFront(splits, lo, hi);
    }
  }

  /** `merge_splits`' documented precondition: every fragment is strictly
      shorter than `chunk_size`. */
  predicate AllShort(cfg: Config, parts: seq<string>) {
    forall k :: 0 <= k < |parts| ==> |parts[k]| < cfg.chunkSize
  }

  // ---------------------------------------------------------------------
  // Eviction
  // ---------------------------------------------------------------------

  /** The guard of the eviction loop, for a window of length `total` and a
      pending fragment of length `next`. */
  predicate MustEvict(cfg: Config, total: int, next: nat) {
    total > cfg.chunkOverlap || (total > 0 && total + next > cfg.chunkSize)
  }

  /** The eviction loop: drops fragments from the front of `splits[lo..hi]`.
      It stops at the first window whose length is within the overlap and
      leaves room for the pending fragment (or is zero), and it never drops
      a fragment once that holds. */
  function Evict(cfg: Config, splits: seq<string>, lo: nat, hi: nat, next: nat): (lo': nat)
    requires lo <= hi <= |splits|
    ensures lo <= lo' <= hi
    ensures Total(splits, lo', hi) <= cfg.chunkOverlap
    ensures Total(splits, lo', hi) == 0 || Total(splits, lo', hi) + next <= cfg.chunkSize
    ensures forall m :: lo <= m < lo' ==> MustEvict(cfg, Total(splits, m, hi), next)
    decreases hi - lo
  {
    if MustEvict(cfg, Total(splits, lo, hi), next) then
      Evict(cfg, splits, lo + 1, hi, next)
    else
      lo
  }

  // ---------------------------------------------------------------------
  // The packing loop
  // ---------------------------------------------------------------------

  /** A window `splits[lo..hi]`. */
  datatype Span = Span(lo: nat, hi: nat)

  /** The packer's state before fragment `i`: the windows closed so far
      and the start of the current window `splits[lo..i]`. */
  datatype Pack = Pack(closed: seq<Span>, lo: nat)

  /** The closing test of the loop: appending `splits[i]` to the non-empty
      window `splits[lo..i]` would make it reach `chunk_size`. */
  predicate Closes(cfg: Config, splits: seq<string>, lo: nat, i: nat)
    requires lo <= i < |splits|
  {
    Total(splits, lo, i) + |splits[i]| >= cfg.chunkSize && lo < i
  }

  /** The packer's state after the first `n` fragments. */
  function Run(cfg: Config, splits: seq<string>, n: nat): (p: Pack)
    requires n <= |splits|
    ensures p.lo <= n && (n > 0 ==> p.lo < n)
    ensures forall k :: 0 <= k < |p.closed| ==> p.closed[k].lo <= p.closed[k].hi < n
    decreases n
  {
    if n == 0 then Pack([], 0)
    else
      var p := Run(cfg, splits, n - 1);
      var i := n - 1;
      if Closes(cfg, splits, p.lo, i) then
        Pack(p.closed + [Span(p.lo, i)], Evict(cfg, splits, p.lo, i, |splits[i]|))
      else
        p
  }

  /** Every window the packer renders: those it closed, then the final one. */
  function Windows(cfg: Config, splits: seq<string>): (ws: seq<Span>)
    ensures |ws| > 0
    ensures Bounded(ws, |splits|)
    ensures |splits| > 0 ==> ws[|ws| - 1].lo < |splits|
  {
    var p := Run(cfg, splits, |splits|);
    p.closed + [Span(p.lo, |splits|)]
  }

  // ---------------------------------------------------------------------
  // Rendering
  // ---------------------------------------------------------------------

  /** A window as one chunk: its fragments joined with the separator, and
      stripped unless the mode is reconstructable. */
  function Render(splits: seq<string>, w: Span, sep: string, recon: bool): string
    requires w.lo <= w.hi <= |splits|
  {
    var joined := Join(splits[w.lo..w.hi], sep);
    if recon then joined else Strip(joined)
  }

  /** The rendered windows, skipping the ones that render empty. */
  function Chunks(splits: seq<string>, ws: seq<Span>, sep: string, recon: bool): (r: seq<string>)
    requires Bounded(ws, |splits|)
    ensures |r| <= |ws|
    ensures forall k :: 0 <= k < |r| ==> r[k] != ""
    ensures !recon ==> forall k :: 0 <= k < |r| ==> NoEdgeSpace(r[k])
  {
    if ws == [] then []
    else
      var w := ws[|ws| - 1];
      var rest := Chunks(splits, ws[..|ws| - 1], sep, recon);
      var c := Render(splits, w, sep, recon);
      if c == "" then rest
      else
        rest + [c]
  }

  /** `output.map { |c| "#{c}#{separator}" }`. */
  function AppendEach(chunks: seq<string>, sep: string): (r: seq<string>)
    ensures |r| == |chunks|
    ensures forall k :: 0 <= k < |r| ==> r[k] == chunks[k] + sep
  {
    seq(|chunks|, k requires 0 <= k < |chunks| => chunks[k] + sep)
  }

  /** Appending the separator to every chunk and concatenating is joining
      the chunks with the separator and appending one more. */
  lemma {:induction false} AppendEachConcat(chunks: seq<string>, sep: string)
    requires |chunks| > 0
    ensures Concat(AppendEach(chunks, sep)) == Join(chunks, sep) + sep
    decreases |chunks|
  {
    var n := |chunks| - 1;
    var front := chunks[..n];
    assert AppendEach(chunks, sep) == AppendEach(front, sep) + [chunks[n] + sep];
    ConcatAppend(AppendEach(front, sep), chunks[n] + sep);
    if n == 0 {
      assert AppendEach(front, sep) == [];
    } else {
      AppendEachConcat(front, sep);
      assert chunks == front + [chunks[n]];
      JoinAppend(front, chunks[n], sep);
    }
  }

  /** `merge_splits(splits, separator, reconstructable:)`. Outside the
      reconstructable mode every chunk is non-empty and already stripped;
      in it, every chunk is a non-empty text followed by the separator. */
  function Merge(cfg: Config, splits: seq<string>, sep: string, recon: bool): (r: seq<string>)
    requires AllShort(cfg, splits)
    ensures !recon ==> forall k :: 0 <= k < |r| ==> r[k] != "" && NoEdgeSpace(r[k])
    ensures recon ==> forall k :: 0 <= k < |r| ==> |r[k]| > |sep| && EndsWith(r[k], sep)
  {
    var chunks := Chunks(splits, Windows(cfg, splits), sep, recon);
    if recon then
      var r := AppendEach(chunks, sep);
      assert forall k :: 0 <= k < |r| ==> r[k][|r[k]| - |sep|..] == sep;
      r
    else
      chunks
  }

  // ---------------------------------------------------------------------
  // What the windows satisfy
  // ---------------------------------------------------------------------

  /** Where window `k` was opened: the end of the previous window. */
  function Opened(ws: seq<Span>, k: nat): nat
    requires k < |ws|
  {
    if k == 0 then 0 else ws[k - 1].hi
  }

  predicate Bounded(ws: seq<Span>, n: nat) {
    forall k :: 0 <= k < |ws| ==> ws[k].lo <= ws[k].hi <= n
  }

  /** The windows tile the fragments in order: the first starts at 0, the
      last ends at `n`, each closed window is non-empty, and the next one
      starts no later than the previous one ended (so no fragment is
      skipped) but ends strictly later. */
  ghost predicate Tiled(ws: seq<Span>, n: nat)
  {
    && |ws| > 0
    && ws[0].lo == 0
    && ws[|ws| - 1].hi == n
    && Bounded(ws, n)
    && (forall k :: 0 <= k < |ws| - 1 ==>
          ws[k].lo < ws[k].hi && ws[k].lo <= ws[k + 1].lo <= ws[k].hi < ws[k + 1].hi)
  }

  /** Each closed window was closed because its next fragment would have
      made it reach `chunk_size`. */
  ghost predicate ClosedWhenFull(cfg: Config, splits: seq<string>, ws: seq<Span>)
    requires Bounded(ws, |splits|)
  {
    forall k :: 0 <= k < |ws| - 1 ==>
      ws[k].hi < |splits| && Total(splits, ws[k].lo, ws[k].hi) + |splits[ws[k].hi]| >= cfg.chunkSize
  }

  /** No fragment appended to a window after it was opened would have made
      it reach `chunk_size`: windows are closed no earlier than necessary. */
  ghost predicate OpenWhileRoom(cfg: Config, splits: seq<string>, ws: seq<Span>)
    requires Bounded(ws, |splits|)
  {
    forall k, i :: 0 <= k < |ws| && ws[k].lo <= Opened(ws, k) < i < ws[k].hi ==>
      Total(splits, ws[k].lo, i) + |splits[i]| < cfg.chunkSize
  }

  /** Window `k + 1` starts where eviction stopped on window `k`, so the
      part of window `k` carried into it fits in the overlap. */
  ghost predicate Overlapping(cfg: Config, splits: seq<string>, ws: seq<Span>)
    requires Bounded(ws, |splits|)
  {
    forall k :: 0 <= k < |ws| - 1 ==>
      && ws[k].lo <= ws[k].hi < |splits|
      && ws[k + 1].lo == Evict(cfg, splits, ws[k].lo, ws[k].hi, |splits[ws[k].hi]|)
  }

  /** No window is longer than `chunk_size`. */
  ghost predicate Fits(cfg: Config, splits: seq<string>, ws: seq<Span>)
    requires Bounded(ws, |splits|)
  {
    forall k :: 0 <= k < |ws| ==> Total(splits, ws[k].lo, ws[k].hi) <= cfg.chunkSize
  }

  /** The windows the packer would render after the first `n` fragments. */
  function WindowsAt(cfg: Config, splits: seq<string>, n: nat): (ws: seq<Span>)
    requires n <= |splits|
    ensures |ws| > 0 && ws[|ws| - 1].hi == n
    ensures Bounded(ws, n)
  {
    var p := Run(cfg, splits, n);
    p.closed + [Span(p.lo, n)]
  }

  /** How the windows change when fragment `i` is processed. */
  lemma WindowsAtStep(cfg: Config, splits: seq<string>, i: nat)
    requires i < |splits|
    ensures var before := WindowsAt(cfg, splits, i);
      var last := before[|before| - 1];
      && last.lo <= i
      && WindowsAt(cfg, splits, i + 1) ==
           if Closes(cfg, splits, last.lo, i)
           then before + [Span(Evict(cfg, splits, last.lo, i, |splits[i]|), i + 1)]
           else before[..|before| - 1] + [Span(last.lo, i + 1)]
  {
    var p := Run(cfg, splits, i);
    assert WindowsAt(cfg, splits, i)[..|p.closed|] == p.closed;
  }

  lemma {:induction false} RunTiled(cfg: Config, splits: seq<string>, n: nat)
    requires n <= |splits|
    ensures Tiled(WindowsAt(cfg, splits, n), n)
    decreases n
  {
    if n > 0 {
      var i := n - 1;
      RunTiled(cfg, splits, i);
      WindowsAtStep(cfg, splits, i);
      var before := WindowsAt(cfg, splits, i);
      var m := |before| - 1;
      if Closes(cfg, splits, before[m].lo, i) {
        var lo' := Evict(cfg, splits, before[m].lo, i, |splits[i]|);
        TiledClose(before, i, lo');
      } else {
        TiledExtend(before, i);
      }
    }
  }

  lemma TiledClose(before: seq<Span>, i: nat, lo': nat)
    requires Tiled(before, i)
    requires before[|before| - 1].lo < i && before[|before| - 1].lo <= lo' <= i
    ensures Tiled(before + [Span(lo', i + 1)], i + 1)
  {
    var ws := before + [Span(lo', i + 1)];
    var m := |before| - 1;
    forall k | 0 <= k < |ws| - 1
      ensures ws[k].lo < ws[k].hi && ws[k].lo <= ws[k + 1].lo <= ws[k].hi < ws[k + 1].hi
    {
      if k < m {
        assert ws[k] == before[k] && ws[k + 1] == before[k + 1];
      } else {
        assert ws[k] == before[m] && ws[k + 1] == Span(lo', i + 1);
      }
    }
    forall k | 0 <= k < |ws| ensures ws[k].lo <= ws[k].hi <= i + 1 {
      if k <= m {
        assert ws[k] == before[k];
      }
    }
  }

  lemma TiledExtend(before: seq<Span>, i: nat)
    requires Tiled(before, i)
    ensures Tiled(before[..|before| - 1] + [Span(before[|before| - 1].lo, i + 1)], i + 1)
  {
    var m := |before| - 1;
    var ws := before[..m] + [Span(before[m].lo, i + 1)];
    forall k | 0 <= k < |ws| - 1
      ensures ws[k].lo < ws[k].hi && ws[k].lo <= ws[k + 1].lo <= ws[k].hi < ws[k + 1].hi
    {
      assert ws[k] == before[k];
      if k + 1 < m {
        assert ws[k + 1] == before[k + 1];
      }
    }
    forall k | 0 <= k < |ws| ensures ws[k].lo <= ws[k].hi <= i + 1 {
      if k < m {
        assert ws[k] == before[k];
      }
    }
  }

  lemma {:induction false} RunClosedWhenFull(cfg: Config, splits: seq<string>, n: nat)
    requires n <= |splits|
    ensures ClosedWhenFull(cfg, splits, WindowsAt(cfg, splits, n))
    decreases n
  {
    if n > 0 {
      var i := n - 1;
      RunClosedWhenFull(cfg, splits, i);
      WindowsAtStep(cfg, splits, i);
      var before := WindowsAt(cfg, splits, i);
      var ws := WindowsAt(cfg, splits, n);
      var m := |before| - 1;
      if Closes(cfg, splits, before[m].lo, i) {
        assert forall k :: 0 <= k < |before| ==> ws[k] == before[k];
      } else {
        assert forall k :: 0 <= k < m ==> ws[k] == before[k];
      }
    }
  }

  lemma {:induction false} RunOpenWhileRoom(cfg: Config, splits: seq<string>, n: nat)
    requires n <= |splits|
    ensures OpenWhileRoom(cfg, splits, WindowsAt(cfg, splits, n))
    decreases n
  {
    if n > 0 {
      var i := n - 1;
      RunOpenWhileRoom(cfg, splits, i);
      WindowsAtStep(cfg, splits, i);
      var before := WindowsAt(cfg, splits, i);
      var lo := before[|before| - 1].lo;
      if Closes(cfg, splits, lo, i) {
        OpenAfterClose(cfg, splits, before, Evict(cfg, splits, lo, i, |splits[i]|), i);
      } else {
        OpenAfterExtend(cfg, splits, before, i);
      }
    }
  }

  /** Closing a window opens one whose only fragment after the previous
      window's end is the new one, so it owes nothing yet. */
  lemma OpenAfterClose(cfg: Config, splits: seq<string>, before: seq<Span>, lo': nat, i: nat)
    requires |before| > 0 && Bounded(before, |splits|) && before[|before| - 1].hi == i
    requires lo' <= i < |splits|
    requires OpenWhileRoom(cfg, splits, before)
    ensures Bounded(before + [Span(lo', i + 1)], |splits|)
    ensures OpenWhileRoom(cfg, splits, before + [Span(lo', i + 1)])
  {
    var ws := before + [Span(lo', i + 1)];
    var m := |before| - 1;
    assert Bounded(ws, |splits|) by {
      forall k | 0 <= k < |ws| ensures ws[k].lo <= ws[k].hi <= |splits| {
        if k <= m {
          assert ws[k] == before[k];
        }
      }
    }
    assert Opened(ws, m + 1) == i;
    forall k, j | 0 <= k < |ws| && ws[k].lo <= Opened(ws, k) < j < ws[k].hi
      ensures Total(splits, ws[k].lo, j) + |splits[j]| < cfg.chunkSize
    {
      if k <= m {
        assert ws[k] == before[k] && Opened(ws, k) == Opened(before, k);
      }
    }
  }

  /** Extending the last window by fragment `i` is allowed only when the
      fragment fitted. */
  lemma OpenAfterExtend(cfg: Config, splits: seq<string>, before: seq<Span>, i: nat)
    requires |before| > 0 && Bounded(before, |splits|) && before[|before| - 1].hi == i < |splits|
    requires OpenWhileRoom(cfg, splits, before)
    requires !Closes(cfg, splits, before[|before| - 1].lo, i)
    ensures Bounded(before[..|before| - 1] + [Span(before[|before| - 1].lo, i + 1)], |splits|)
    ensures OpenWhileRoom(cfg, splits, before[..|before| - 1] + [Span(before[|before| - 1].lo, i + 1)])
  {
    var m := |before| - 1;
    var lo := before[m].lo;
    var ws := before[..m] + [Span(lo, i + 1)];
    assert Bounded(ws, |splits|) by {
      forall k | 0 <= k < |ws| ensures ws[k].lo <= ws[k].hi <= |splits| {
        if k < m {
          assert ws[k] == before[k];
        }
      }
    }
    forall k, j | 0 <= k < |ws| && ws[k].lo <= Opened(ws, k) < j < ws[k].hi
      ensures Total(splits, ws[k].lo, j) + |splits[j]| < cfg.chunkSize
    {
      assert Opened(ws, k) == Opened(before, k);
      if k < m {
        assert ws[k] == before[k];
      } else if j < i {
        assert ws[k].lo == before[k].lo;
      }
    }
  }

  lemma {:induction false} RunOverlapping(cfg: Config, splits: seq<string>, n: nat)
    requires n <= |splits|
    ensures Overlapping(cfg, splits, WindowsAt(cfg, splits, n))
    decreases n
  {
    if n > 0 {
      var i := n - 1;
      RunOverlapping(cfg, splits, i);
      WindowsAtStep(cfg, splits, i);
      var before := WindowsAt(cfg, splits, i);
      if Closes(cfg, splits, before[|before| - 1].lo, i) {
        OverlapAfterClose(cfg, splits, before, i);
      } else {
        OverlapAfterExtend(cfg, splits, before, i);
      }
    }
  }

  /** Closing window `m` opens one that starts where eviction stopped. */
  lemma OverlapAfterClose(cfg: Config, splits: seq<string>, before: seq<Span>, i: nat)
    requires |before| > 0 && Bounded(before, |splits|) && before[|before| - 1].hi == i < |splits|
    requires Overlapping(cfg, splits, before)
    ensures var ws := before + [Span(Evict(cfg, splits, before[|before| - 1].lo, i, |splits[i]|), i + 1)];
      Bounded(ws, |splits|) && Overlapping(cfg, splits, ws)
  {
    var m := |before| - 1;
    var ws := before + [Span(Evict(cfg, splits, before[m].lo, i, |splits[i]|), i + 1)];
    assert forall k :: 0 <= k <= m ==> ws[k] == before[k];
    assert ws[m + 1].lo == Evict(cfg, splits, ws[m].lo, ws[m].hi, |splits[ws[m].hi]|);
  }

  /** Extending the last window keeps where it started. */
  lemma OverlapAfterExtend(cfg: Config, splits: seq<string>, before: seq<Span>, i: nat)
    requires |before| > 0 && Bounded(before, |splits|) && before[|before| - 1].hi == i < |splits|
    requires Overlapping(cfg, splits, before)
    ensures var ws := before[..|before| - 1] + [Span(before[|before| - 1].lo, i + 1)];
      Bounded(ws, |splits|) && Overlapping(cfg, splits, ws)
  {
    var m := |before| - 1;
    var ws := before[..m] + [Span(before[m].lo, i + 1)];
    assert forall k :: 0 <= k < m ==> ws[k] == before[k];
    assert ws[m].lo == before[m].lo;
  }

  lemma {:induction false} RunFits(cfg: Config, splits: seq<string>, n: nat)
    requires n <= |splits| && cfg.chunkSize > 0
    requires forall k :: 0 <= k < n ==> |splits[k]| < cfg.chunkSize
    ensures Fits(cfg, splits, WindowsAt(cfg, splits, n))
    decreases n
  {
    if n > 0 {
      var i := n - 1;
      RunFits(cfg, splits, i);
      WindowsAtStep(cfg, splits, i);
      var before := WindowsAt(cfg, splits, i);
      var lo := before[|before| - 1].lo;
      assert |splits[i]| < cfg.chunkSize;
      if Closes(cfg, splits, lo, i) {
        var lo' := Evict(cfg, splits, lo, i, |splits[i]|);
        TotalExtend(splits, lo', i);
        FitsAfter(cfg, splits, before, Span(lo', n));
      } else {
        TotalExtend(splits, lo, i);
        assert Total(splits, i, i) == 0 by {
          assert splits[i..i] == [];
        }
        FitsAfter(cfg, splits, before[..|before| - 1], Span(lo, n));
      }
    }
  }

  /** Adding a window that fits keeps every window fitting. */
  lemma FitsAfter(cfg: Config, splits: seq<string>, before: seq<Span>, w: Span)
    requires Bounded(before, |splits|) && w.lo <= w.hi <= |splits|
    requires forall k :: 0 <= k < |before| ==> Total(splits, before[k].lo, before[k].hi) <= cfg.chunkSize
    requires Total(splits, w.lo, w.hi) <= cfg.chunkSize
    ensures Bounded(before + [w], |splits|)
    ensures Fits(cfg, splits, before + [w])
  {
    var ws := before + [w];
    forall k | 0 <= k < |ws| ensures ws[k].lo <= ws[k].hi <= |splits| && Total(splits, ws[k].lo, ws[k].hi) <= cfg.chunkSize {
      if k < |before| {
        assert ws[k] == before[k];
      }
    }
  }

  // ---------------------------------------------------------------------
  // Properties of a whole merge
  // ---------------------------------------------------------------------

  /** The windows rendered by `merge_splits` start at the first fragment,
      end at the last, skip none and move strictly forward. */
  lemma MergeWindowsTile(cfg: Config, splits: seq<string>)
    ensures Tiled(Windows(cfg, splits), |splits|)
  {
    RunTiled(cfg, splits, |splits|);
  }

  /** A window is closed exactly when the next fragment would make it reach
      `chunk_size`: every closed window was full in that sense, and no
      window was closed while the next fragment still fitted. */
  lemma MergeClosesWhenFull(cfg: Config, splits: seq<string>)
    ensures ClosedWhenFull(cfg, splits, Windows(cfg, splits))
    ensures OpenWhileRoom(cfg, splits, Windows(cfg, splits))
  {
    RunClosedWhenFull(cfg, splits, |splits|);
    RunOpenWhileRoom(cfg, splits, |splits|);
  }

  /** Each window after the first begins with what eviction kept of the
      previous window, which is at most `chunk_overlap` long and leaves
      room for the fragment that closed it; every fragment dropped before
      it was dropped because the eviction guard still held. */
  lemma MergeOverlap(cfg: Config, splits: seq<string>)
    ensures var ws := Windows(cfg, splits);
      forall k :: 0 <= k < |ws| - 1 ==>
        && ws[k].lo <= ws[k + 1].lo <= ws[k].hi < |splits|
        && Total(splits, ws[k + 1].lo, ws[k].hi) <= cfg.chunkOverlap
        && (Total(splits, ws[k + 1].lo, ws[k].hi) == 0
            || Total(splits, ws[k + 1].lo, ws[k].hi) + |splits[ws[k].hi]| <= cfg.chunkSize)
        && forall m :: ws[k].lo <= m < ws[k + 1].lo ==> MustEvict(cfg, Total(splits, m, ws[k].hi), |splits[ws[k].hi]|)
  {
    RunOverlapping(cfg, splits, |splits|);
  }

  /** Given fragments shorter than `chunk_size`, no window is longer than
      `chunk_size` (separators not counted). */
  lemma MergeWindowsFit(cfg: Config, splits: seq<string>)
    requires AllShort(cfg, splits) && cfg.chunkSize > 0
    ensures Fits(cfg, splits, Windows(cfg, splits))
  {
    RunFits(cfg, splits, |splits|);
  }

  /** Consecutive windows that share no fragment and cover `splits[..n]`. */
  ghost predicate Partition(ws: seq<Span>, n: nat)
  {
    && |ws| > 0
    && ws[0].lo == 0
    && ws[|ws| - 1].hi == n
    && (forall k :: 0 <= k < |ws| ==> ws[k].lo < ws[k].hi)
    && (forall k :: 0 <= k < |ws| - 1 ==> ws[k + 1].lo == ws[k].hi)
  }

  lemma JoinNonEmpty(parts: seq<string>, sep: string)
    requires |parts| > 0 && parts[0] != ""
    ensures Join(parts, sep) != ""
  {
    if |parts| > 1 {
      assert |Join(parts, sep)| >= |parts[0]|;
    }
  }

  /** Rendering a partition of non-empty fragments in reconstructable mode
      and appending the separator to each chunk gives the fragments joined
      by the separator, plus one trailing separator. */
  lemma {:induction false} PartitionConcat(splits: seq<string>, ws: seq<Span>, sep: string)
    requires |ws| > 0 && Bounded(ws, |splits|) && Partition(ws, ws[|ws| - 1].hi)
    requires forall k :: 0 <= k < |splits| ==> splits[k] != ""
    ensures Concat(AppendEach(Chunks(splits, ws, sep, true), sep)) == Join(splits[..ws[|ws| - 1].hi], sep) + sep
    decreases |ws|
  {
    var m := |ws| - 1;
    var w := ws[m];
    var c := Render(splits, w, sep, true);
    JoinNonEmpty(splits[w.lo..w.hi], sep);
    var front := ws[..m];
    var rest := Chunks(splits, front, sep, true);
    assert Chunks(splits, ws, sep, true) == rest + [c];
    assert AppendEach(rest + [c], sep) == AppendEach(rest, sep) + [c + sep];
    ConcatAppend(AppendEach(rest, sep), c + sep);
    if m == 0 {
      assert AppendEach(rest, sep) == [];
      assert splits[..w.hi] == splits[w.lo..w.hi];
    } else {
      assert forall k :: 0 <= k < m ==> front[k] == ws[k];
      PartitionConcat(splits, front, sep);
      assert front[m - 1].hi == w.lo;
      assert splits[..w.hi] == splits[..w.lo] + splits[w.lo..w.hi];
      JoinConcat(splits[..w.lo], splits[w.lo..w.hi], sep);
    }
  }

  /** In reconstructable mode with no overlap, `merge_splits` loses nothing:
      concatenating its chunks gives the fragments joined by the separator,
      followed by one separator (which `split` later removes). */
  lemma MergeLossless(cfg: Config, splits: seq<string>, sep: string)
    requires cfg.chunkOverlap == 0 && AllShort(cfg, splits)
    requires |splits| > 0 && forall k :: 0 <= k < |splits| ==> splits[k] != ""
    ensures Concat(Merge(cfg, splits, sep, true)) == Join(splits, sep) + sep
  {
    var ws := Windows(cfg, splits);
    MergeWindowsTile(cfg, splits);
    MergeOverlap(cfg, splits);
    forall k | 0 <= k < |ws| - 1 ensures ws[k + 1].lo == ws[k].hi {
      TotalZero(splits, ws[k + 1].lo, ws[k].hi);
    }
    assert Partition(ws, |splits|);
    PartitionConcat(splits, ws, sep);
    assert splits[..|splits|] == splits;
  }
}
