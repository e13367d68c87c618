/** Properties of a whole `split` call: when the recursion is sure to end,
    what survives the trailing-separator correction, and the conditions
    under which reconstructable mode gives back the text. */
module SplitProperties {
  import opened Wrappers
  import opened RubyString
  import opened SplitterConfig
  import opened Merger
  import opened Splitter

  /** With a `chunk_size` of at least 2 and `""` among the separators, no
      recursive call of `split` is on the text it was made from, so `split`
      always returns. The default separator list ends with `""`. */
  lemma {:induction false} SplitTextConverges(cfg: Config, text: string, recon: bool)
    requires Proper(cfg, recon) && cfg.chunkSize >= 2 && "" in cfg.separators
    ensures SplitText(cfg, text, recon).Success?
    decreases |cfg.separators| - Rank(cfg.separators, text), |text|, 1, 0
  {
    var seps := cfg.separators;
    var sep := Separator(seps, text);
    var splits := RubySplit(text, sep);
    IncludesEmpty(text);
    assert Includes(text, sep);
    forall k | 0 <= k < |splits| && |splits[k]| >= cfg.chunkSize ensures splits[k] != text {
      if sep != "" {
        assert !Includes(splits[k], sep);
      }
    }
    ClassifyConverges(cfg, text, recon, sep, splits, [], []);
  }

  lemma {:induction false} ClassifyConverges(cfg: Config, text: string, recon: bool, sep: string,
                                             rest: seq<string>, good: seq<string>, output: seq<string>)
    requires Proper(cfg, recon) && cfg.chunkSize >= 2 && "" in cfg.separators
    requires forall k :: 0 <= k < |rest| ==> Includes(text, rest[k])
    requires forall k :: 0 <= k < |rest| && |rest[k]| >= cfg.chunkSize ==> rest[k] != text
    requires AllShort(cfg, good)
    ensures Classify(cfg, text, recon, sep, rest, good, output).Success?
    decreases |cfg.separators| - Rank(cfg.separators, text), |text|, 0, |rest|
  {
    if rest != [] {
      var s := rest[0];
      if |s| < cfg.chunkSize {
        ClassifyConverges(cfg, text, recon, sep, rest[1..], good + [s], output);
      } else {
        assert Includes(text, s) && s != text;
        RankMonotone(cfg.separators, text, s);
        assert |s| < |text| by {
          if |s| >= |text| {
            IncludesSameLength(text, s);
          }
        }
        SplitTextConverges(cfg, s, recon);
        var other := SplitText(cfg, s, recon).value;
        ClassifyConverges(cfg, text, recon, sep, rest[1..], [], Flush(cfg, good, sep, recon, output) + other);
      }
    }
  }

  /** When every fragment is short, no recursion happens and the whole
      fragment list goes through the merger in one piece. */
  lemma {:induction false} ClassifyAllShort(cfg: Config, text: string, recon: bool, sep: string,
                                            rest: seq<string>, good: seq<string>, output: seq<string>)
    requires Proper(cfg, recon)
    requires forall k :: 0 <= k < |rest| ==> Includes(text, rest[k])
    requires AllShort(cfg, good) && AllShort(cfg, rest)
    ensures Classify(cfg, text, recon, sep, rest, good, output) == Success(Flush(cfg, good + rest, sep, recon, output))
    decreases |rest|
  {
    if rest == [] {
      assert good + rest == good;
    } else {
      assert good + rest == (good + [rest[0]]) + rest[1..];
      ClassifyAllShort(cfg, text, recon, sep, rest[1..], good + [rest[0]], output);
    }
  }

  /** The correction removes exactly one separator from the end of the
      concatenated output when the last chunk ends with it. */
  lemma DropTrailingConcat(output: seq<string>, sep: string)
    requires |output| > 0 && EndsWith(output[|output| - 1], sep)
    ensures Concat(DropTrailingSeparator(output, sep)) + sep == Concat(output)
  {
    var n := |output| - 1;
    var r := DropTrailingSeparator(output, sep);
    assert r == output[..n] + [r[n]];
    assert output == output[..n] + [output[n]];
    ConcatAppend(output[..n], r[n]);
    ConcatAppend(output[..n], output[n]);
  }

  /** The fragments of a text with no trailing separator, joined with the
      separator, give the text back (the `""` separator joins characters). */
  lemma FlatFragments(text: string, sep: string)
    requires text != "" && sep != " " && (sep == "" || !EndsWith(text, sep))
    ensures |RubySplit(text, sep)| > 0
    ensures Join(RubySplit(text, sep), sep) == text
  {
    if sep == "" {
      SplitCharsConcat(text);
    } else {
      RubySplitJoin(text, sep);
    }
  }

  /** When every fragment is short, `split` before its correction is the
      merger's output on the fragments. */
  lemma FlatClassify(cfg: Config, text: string, recon: bool, sep: string, splits: seq<string>)
    requires Proper(cfg, recon) && AllShort(cfg, splits) && |splits| > 0
    requires forall k :: 0 <= k < |splits| ==> Includes(text, splits[k])
    ensures Classify(cfg, text, recon, sep, splits, [], []) == Success(Merge(cfg, splits, sep, recon))
  {
    ClassifyAllShort(cfg, text, recon, sep, splits, [], []);
    var m := Merge(cfg, splits, sep, recon);
    assert [] + splits == splits;
    assert [] + m == m;
    assert Flush(cfg, splits, sep, recon, []) == m;
  }

  /** Output whose concatenation is the text plus the separator concatenates
      to the text once the correction has run. */
  lemma FlatDrop(m: seq<string>, text: string, sep: string)
    requires |m| > 0 && EndsWith(m[|m| - 1], sep) && Concat(m) == text + sep
    ensures |DropTrailingSeparator(m, sep)| > 0
    ensures Concat(DropTrailingSeparator(m, sep)) == text
  {
    var r := DropTrailingSeparator(m, sep);
    DropTrailingConcat(m, sep);
    assert Concat(r) == (Concat(r) + sep)[..|Concat(r)|];
  }

  /** Reconstructable mode gives back the text when no recursion happens
      and nothing is lost at a boundary: the separator is not the
      whitespace-collapsing `" "`, the text does not end with it, and every
      fragment is non-empty and shorter than `chunk_size`. */
  lemma ReconstructFlat(cfg: Config, text: string)
    requires |cfg.separators| > 0 && cfg.chunkOverlap == 0 && text != ""
    requires var sep := Separator(cfg.separators, text);
      sep != " " && (sep == "" || !EndsWith(text, sep))
    requires var fragments := RubySplit(text, Separator(cfg.separators, text));
      forall k :: 0 <= k < |fragments| ==> fragments[k] != "" && |fragments[k]| < cfg.chunkSize
    ensures SplitText(cfg, text, true).Success?
    ensures |SplitText(cfg, text, true).value| > 0
    ensures Concat(SplitText(cfg, text, true).value) == text
  {
    var sep := Separator(cfg.separators, text);
    var splits := RubySplit(text, sep);
    FlatFragments(text, sep);
    FlatClassify(cfg, text, true, sep, splits);
    var m := Merge(cfg, splits, sep, true);
    MergeLossless(cfg, splits, sep);
    FlatDrop(m, text, sep);
  }
}
