/** The recursive `split` of `RecursiveCharacterTextSplitter`: choose the
    coarsest separator that occurs in the text, split on it, buffer the
    fragments shorter than `chunk_size`, hand each run of them to the
    merger, re-split every longer fragment, and finally drop one trailing
    separator from the last chunk.

    The source recurses on an oversized fragment with the whole separator
    list. When such a fragment is the text itself, the recursive call is
    the same call again and Ruby overflows its stack; the model returns
    `Failure(Diverges)` at that point. Every other recursive call is on a
    strictly smaller problem (see the `decreases` clauses). */
module Splitter {
  import opened Wrappers
  import opened RubyString
  import opened SplitterConfig
  import opened Merger

  datatype SplitError =
    | OverlapInReconstructableMode  // the `raise` of `split`
    | Diverges                      // the infinite recursion of `split`

  // ---------------------------------------------------------------------
  // Separator choice
  // ---------------------------------------------------------------------

  /** The position of the first separator that occurs in `text`, or
      `|seps|` when none does. */
  function Rank(seps: seq<string>, text: string): (k: nat)
    ensures k <= |seps|
    ensures forall j :: 0 <= j < k ==> !Includes(text, seps[j])
    ensures k < |seps| ==> Includes(text, seps[k])
    decreases |seps|
  {
    if seps == [] then 0
    else if Includes(text, seps[0]) then 0
    else
      var k := Rank(seps[1..], text);
      assert forall j :: 1 <= j < k + 1 ==> seps[j] == seps[1..][j - 1];
      1 + k
  }

  /** The index of the separator `split` uses for `text`: the first one the
      text contains, or else the last one. */
  function SeparatorIndex(seps: seq<string>, text: string): (k: nat)
    requires |seps| > 0
    ensures k < |seps|
    ensures forall j :: 0 <= j < k ==> !Includes(text, seps[j])
    ensures Includes(text, seps[k])
         || (k == |seps| - 1 && forall j :: 0 <= j < |seps| ==> !Includes(text, seps[j]))
  {
    var r := Rank(seps, text);
    if r < |seps| then r else |seps| - 1
  }

  function Separator(seps: seq<string>, text: string): string
    requires |seps| > 0
  {
    seps[SeparatorIndex(seps, text)]
  }

  /** The separator loop of `split`: start from the last separator and stop
      at the first one the text includes. */
  method ChooseSeparator(seps: seq<string>, text: string) returns (separator: string)
    requires |seps| > 0
    ensures separator == Separator(seps, text)
  {
    separator := seps[|seps| - 1];
    var i := 0;
    while i < |seps|
      invariant 0 <= i <= |seps|
      invariant forall j :: 0 <= j < i ==> !Includes(text, seps[j])
      invariant separator == seps[|seps| - 1]
    {
      if Includes(text, seps[i]) {
        separator := seps[i];
        return;
      }
      i := i + 1;
    }
  }

  /** A fragment of a text contains no separator the text lacks, so its
      rank is at least the text's. */
  lemma RankMonotone(seps: seq<string>, text: string, f: string)
    requires Includes(text, f)
    ensures Rank(seps, f) >= Rank(seps, text)
  {
    var k := Rank(seps, f);
    if k < Rank(seps, text) {
      IncludesTransitive(text, f, seps[k]);
    }
  }

  /** When the chosen separator occurs in the text and is not empty, every
      fragment lacks it and every coarser separator, so the recursive call
      on a fragment chooses a strictly finer separator. */
  lemma RecursionAdvancesSeparator(seps: seq<string>, text: string)
    requires |seps| > 0
    requires Includes(text, Separator(seps, text)) && Separator(seps, text) != ""
    ensures var fragments := RubySplit(text, Separator(seps, text));
      forall k :: 0 <= k < |fragments| ==> Rank(seps, fragments[k]) > SeparatorIndex(seps, text)
  {
    var sep := Separator(seps, text);
    var fragments := RubySplit(text, sep);
    forall k | 0 <= k < |fragments| ensures Rank(seps, fragments[k]) > SeparatorIndex(seps, text) {
      RankMonotone(seps, text, fragments[k]);
    }
  }

  // ---------------------------------------------------------------------
  // split
  // ---------------------------------------------------------------------

  /** What `split` needs to get past its guard: a separator list to choose
      from, and no overlap in reconstructable mode. */
  predicate Proper(cfg: Config, recon: bool) {
    |cfg.separators| > 0 && !(recon && cfg.chunkOverlap != 0)
  }

  function Flush(cfg: Config, good: seq<string>, sep: string, recon: bool, output: seq<string>): (r: seq<string>)
    requires AllShort(cfg, good)
    ensures output <= r
    ensures good == [] ==> r == output
  {
    if good == [] then output else output + Merge(cfg, good, sep, recon)
  }

  /** The trailing-separator correction: when the last chunk ends with the
      separator, one occurrence of it is removed from that chunk. */
  function DropTrailingSeparator(output: seq<string>, sep: string): (r: seq<string>)
    ensures |r| == |output|
    ensures forall k :: 0 <= k < |output| - 1 ==> r[k] == output[k]
    ensures |output| > 0 && EndsWith(output[|output| - 1], sep) ==> r[|r| - 1] + sep == output[|output| - 1]
    ensures |output| > 0 && !EndsWith(output[|output| - 1], sep) ==> r[|r| - 1] == output[|output| - 1]
  {
    if |output| > 0 && EndsWith(output[|output| - 1], sep) then
      output[..|output| - 1] + [DeleteSuffix(output[|output| - 1], sep)]
    else
      output
  }

  function SplitText(cfg: Config, text: string, recon: bool): (r: Result<seq<string>, SplitError>)
    requires |cfg.separators| > 0
    ensures r.Failure? && r.error == OverlapInReconstructableMode <==> recon && cfg.chunkOverlap != 0
    ensures text == "" && Proper(cfg, recon) ==> r == Success([])
    decreases |cfg.separators| - Rank(cfg.separators, text), |text|, 1, 0
  {
    if recon && cfg.chunkOverlap != 0 then Failure(OverlapInReconstructableMode)
    else
      var sep := Separator(cfg.separators, text);
      var splits := RubySplit(text, sep);
      match Classify(cfg, text, recon, sep, splits, [], [])
      case Failure(e) => Failure(e)
      case Success(output) => Success(DropTrailingSeparator(output, sep))
  }

  /** A fragment other than the text itself is shorter and contains no
      separator the text lacks, so re-splitting it makes progress. */
  lemma Descends(seps: seq<string>, text: string, s: string)
    requires Includes(text, s) && s != text
    ensures Rank(seps, s) >= Rank(seps, text) && |s| < |text|
  {
    RankMonotone(seps, text, s);
    if |s| >= |text| {
      IncludesSameLength(text, s);
    }
  }

  /** The loop of `split` over the fragments: buffers the ones that are
      short, flushes the buffer through the merger before each long one,
      and re-splits the long ones. */
  function Classify(cfg: Config, text: string, recon: bool, sep: string, rest: seq<string>,
                    good: seq<string>, output: seq<string>): (r: Result<seq<string>, SplitError>)
    requires Proper(cfg, recon)
    requires forall k :: 0 <= k < |rest| ==> Includes(text, rest[k])
    requires AllShort(cfg, good)
    ensures r.Success? ==> output <= r.value
    ensures r.Failure? ==> r.error == Diverges
    decreases |cfg.separators| - Rank(cfg.separators, text), |text|, 0, |rest|
  {
    if rest == [] then Success(Flush(cfg, good, sep, recon, output))
    else
      var s := rest[0];
      assert forall k :: 0 <= k < |rest| - 1 ==> rest[1..][k] == rest[k + 1];
      if |s| < cfg.chunkSize then
        assert AllShort(cfg, good + [s]);
        Classify(cfg, text, recon, sep, rest[1..], good + [s], output)
      else
        var flushed := Flush(cfg, good, sep, recon, output);
        if s == text then Failure(Diverges)
        else
          Descends(cfg.separators, text, s);
          match SplitText(cfg, s, recon)
          case Failure(e) => Failure(e)
          case Success(other) => Classify(cfg, text, recon, sep, rest[1..], [], flushed + other)
  }
}
