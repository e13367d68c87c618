/** Concrete instances of the model on the inputs of the repository's tests, and
    small inputs that show where `split` diverges, loses text or adds to it. */
module Scenarios {
  import opened Wrappers
  import opened RubyString
  import opened SplitterConfig
  import opened Merger
  import opened Splitter
  import opened SplitProperties

  /** With `chunk_size` 1 even a single character is too long, and the
      character separator `""` splits `"a"` into itself: the recursion
      never ends. */
  lemma DivergesWithUnitChunkSize()
    ensures SplitText(Config(1, 0, DefaultSeparators), "a", false) == Failure(Diverges)
  {
    LacksExcludes("a", "\n\n");
    LacksExcludes("a", "\n");
    LacksExcludes("a", " ");
    IncludesEmpty("a");
    assert Rank(DefaultSeparators, "a") == 3;
    assert RubySplit("a", "") == ["a"];
  }

  /** When the only separator does not occur in a text of at least
      `chunk_size` characters, the text is its own single fragment and the
      recursion never ends. */
  lemma DivergesOnMissingFallback(cfg: Config, t: string, recon: bool)
    requires cfg.separators == ["---"] && !(recon && cfg.chunkOverlap != 0)
    requires t != "" && !Includes(t, "---") && |t| >= cfg.chunkSize
    ensures SplitText(cfg, t, recon) == Failure(Diverges)
  {
    assert Separator(cfg.separators, t) == "---";
    assert SplitFields(t, "---") == [t];
    assert RubySplit(t, "---") == [t];
    IncludesSuffix(t, 0);
    assert t[0..] == t;
    assert Classify(cfg, t, recon, "---", [t], [], []) == Failure(Diverges);
  }

  /** The empty text gives no chunks. */
  lemma EmptyTextGivesNoChunks()
    ensures SplitText(Config(10, 0, DefaultSeparators), "", false) == Success([])
  {
  }

  const LongWord: string := "ThisIsOneLongWordWithoutSpaces"

  lemma LongWordLacks()
    ensures Lacks(LongWord, '\n') && Lacks(LongWord, ' ')
  {
  }

  /** A text with no line break and no blank is split into characters by
      the default separator list. */
  lemma WordSeparator(t: string)
    requires Lacks(t, '\n') && Lacks(t, ' ')
    ensures Separator(DefaultSeparators, t) == ""
  {
    LacksExcludes(t, "\n\n");
    LacksExcludes(t, "\n");
    LacksExcludes(t, " ");
    IncludesEmpty(t);
    assert Rank(DefaultSeparators, t) == 3;
  }

  /** A word with no separator in it is cut into characters and merged
      back; joining the chunks gives the word. */
  lemma LongWordReconstructs()
    ensures var r := SplitText(Config(10, 0, DefaultSeparators), LongWord, true);
      r.Success? && |r.value| > 0 && Concat(r.value) == LongWord
  {
    LongWordLacks();
    WordSeparator(LongWord);
    ReconstructFlat(Config(10, 0, DefaultSeparators), LongWord);
  }

  const Sections: string := "Section A---Section B---Section C"
  const CustomSeps: seq<string> := ["---", " ", ""]

  lemma SectionsLack()
    ensures Lacks("Section A", '-') && Lacks("Section B", '-') && Lacks("Section C", '-')
  {
  }

  /** Three fields around two occurrences of a separator whose first
      character none of them contains. */
  lemma SplitThree(a: string, b: string, c: string, p: string)
    requires |p| > 0 && Lacks(a, p[0]) && Lacks(b, p[0]) && Lacks(c, p[0])
    ensures SplitFields(a + p + b + p + c, p) == [a, b, c]
  {
    var rest := b + p + c;
    assert a + p + b + p + c == a + p + rest;
    SplitFieldsConcat(a, p, rest);
    SplitTwo(b, c, p);
    assert [a] + [b, c] == [a, b, c];
  }

  lemma SplitTwo(b: string, c: string, p: string)
    requires |p| > 0 && Lacks(b, p[0]) && Lacks(c, p[0])
    ensures SplitFields(b + p + c, p) == [b, c]
  {
    SplitFieldsConcat(b, p, c);
    SplitFieldsLacking(c, p);
  }

  lemma SeparatorThree(a: string, b: string, c: string, p: string)
    requires |p| > 0 && Lacks(a, p[0])
    ensures Separator([p, " ", ""], a + p + b + p + c) == p
  {
    assert a + p + b + p + c == a + p + (b + p + c);
    IndexOfConcat(a, p, b + p + c);
  }

  lemma RubySplitThree(a: string, b: string, c: string, p: string)
    requires |p| > 0 && p != " " && Lacks(a, p[0]) && Lacks(b, p[0]) && Lacks(c, p[0]) && c != ""
    ensures RubySplit(a + p + b + p + c, p) == [a, b, c]
  {
    SplitThree(a, b, c, p);
  }

  /** Reconstructable mode gives back a text of three short fields around a
      separator other than `" "`. */
  lemma ReconstructThree(cfg: Config, a: string, b: string, c: string, p: string)
    requires |p| > 0 && p != " " && cfg.separators == [p, " ", ""] && cfg.chunkOverlap == 0
    requires Lacks(a, p[0]) && Lacks(b, p[0]) && Lacks(c, p[0])
    requires a != "" && b != "" && c != ""
    requires |a| < cfg.chunkSize && |b| < cfg.chunkSize && |c| < cfg.chunkSize
    requires !EndsWith(a + p + b + p + c, p)
    ensures var r := SplitText(cfg, a + p + b + p + c, true);
      r.Success? && |r.value| > 0 && Concat(r.value) == a + p + b + p + c
  {
    var t := a + p + b + p + c;
    SeparatorThree(a, b, c, p);
    RubySplitThree(a, b, c, p);
    var fragments := [a, b, c];
    assert forall k :: 0 <= k < |fragments| ==> fragments[k] != "" && |fragments[k]| < cfg.chunkSize;
    ReconstructFlat(cfg, t);
  }

  lemma SectionsShape()
    ensures Sections == "Section A" + "---" + "Section B" + "---" + "Section C"
  {
  }

  lemma SectionsEnd()
    ensures !EndsWith(Sections, "---")
  {
    assert Sections[|Sections| - 3..][2] == 'C';
  }

  /** Custom separators: joining the reconstructable chunks of the
      sections gives the text back, and there is at least one chunk. */
  lemma SectionsReconstruct()
    ensures var r := SplitText(Config(20, 0, CustomSeps), Sections, true);
      r.Success? && |r.value| > 0 && Concat(r.value) == Sections
  {
    SectionsLack();
    SectionsShape();
    SectionsEnd();
    ReconstructThree(Config(20, 0, CustomSeps), "Section A", "Section B", "Section C", "---");
  }

  lemma WindowOkay()
    ensures Windows(Config(10, 1, DefaultSeparators), ["Okay", "then", "f"]) == [Span(0, 3)]
  {
    var cfg := Config(10, 1, DefaultSeparators);
    var sp := ["Okay", "then", "f"];
    assert Total(sp, 0, 1) == 4;
    assert Total(sp, 0, 2) == 8;
    assert Run(cfg, sp, 3) == Pack([], 0);
  }

  /** With an overlap of 1, closing the window `ab c` evicts `ab` only:
      `c` fits within the overlap and starts the next window. */
  lemma WindowsOverlap()
    ensures Windows(Config(5, 1, DefaultSeparators), ["ab", "c", "de"]) == [Span(0, 2), Span(1, 3)]
  {
    var cfg := Config(5, 1, DefaultSeparators);
    var sp := ["ab", "c", "de"];
    assert Total(sp, 0, 1) == 2;
    assert Total(sp, 0, 2) == 3;
    assert Total(sp, 1, 2) == 1;
    assert Run(cfg, sp, 2) == Pack([], 0);
    assert Evict(cfg, sp, 0, 2, 2) == 1;
    assert Run(cfg, sp, 3) == Pack([Span(0, 2)], 1);
  }

  /** Splitting takes the leftmost occurrence of a self-overlapping
      separator: `"a----b"` splits on `"---"` into `"a"` and `"-b"`, not
      into `"a-"` and `"b"`. */
  lemma LeftmostOccurrence()
    ensures RubySplit("a----b", "---") == ["a", "-b"]
  {
    var t := "a----b";
    assert t[0..3][0] == 'a';
    assert OccursAt(t, "---", 1) && !OccursAt(t, "---", 0);
    SplitFieldsStep(t, "---", 1);
    assert t[..1] == "a" && t[4..] == "-b";
    SplitFieldsNone("-b", "---");
  }

  /** Three words separated by single whitespace characters are split into
      exactly those words. */
  lemma ThreeWords(a: string, b: string, c: string, s1: char, s2: char)
    requires a != "" && b != "" && c != "" && NoAwkSpace(a) && NoAwkSpace(b) && NoAwkSpace(c)
    requires IsAwkSpace(s1) && IsAwkSpace(s2)
    ensures AwkSplit(a + [s1] + b + [s2] + c) == [a, b, c]
  {
    assert a + [s1] + b + [s2] + c == a + [s1] + (b + [s2] + c);
    AwkSplitAtSpace(a, s1, b + [s2] + c);
    AwkSplitAtSpace(b, s2, c);
    AwkSplitWord(a);
    AwkSplitWord(b);
    AwkSplitWord(c);
  }

  /** The words of `"Okay then f"` under `split(" ")` are the maximal runs
      without whitespace. */
  lemma OkayWords()
    ensures RubySplit("Okay then f", " ") == ["Okay", "then", "f"]
  {
    assert NoAwkSpace("Okay") && NoAwkSpace("then") && NoAwkSpace("f");
    ThreeWords("Okay", "then", "f", ' ', ' ');
    assert "Okay then f" == "Okay" + [' '] + "then" + [' '] + "f";
  }

  /** Window lengths do not count separators, so a chunk may be longer
      than `chunk_size`: here 11 characters for a `chunk_size` of 10. */
  lemma ChunkLongerThanChunkSize()
    ensures Merge(Config(10, 1, DefaultSeparators), ["Okay", "then", "f"], " ", false) == ["Okay then f"]
  {
    WindowOkay();
    var sp := ["Okay", "then", "f"];
    assert sp[0..3] == sp;
    assert Join(sp, " ") == "Okay then f";
    OkayStripped();
  }

  lemma OkayStripped()
    ensures Strip("Okay then f") == "Okay then f"
  {
    assert NoEdgeSpace("Okay then f");
    StripFixpoint("Okay then f");
  }

  // ---------------------------------------------------------------------
  // Reconstruction loses the separator after a re-split fragment
  // ---------------------------------------------------------------------

  /** The configuration of the counterexample: `chunk_size` 2, no overlap,
      the separators `[d]` and `""`. */
  predicate LossyConfig(cfg: Config, d: char) {
    cfg == Config(2, 0, [[d], ""])
  }

  lemma LossyWindows(cfg: Config, d: char, x: char, y: char)
    requires LossyConfig(cfg, d)
    ensures Windows(cfg, [[x], [y]]) == [Span(0, 1), Span(1, 2)]
  {
    var sp := [[x], [y]];
    assert sp[0..1] == [[x]] && [[x]][1..] == [];
    assert SumLen([[x]]) == 1;
    assert Total(sp, 0, 1) == 1;
    assert Total(sp, 1, 1) == 0;
  }

  lemma LossyChunks(x: char, y: char)
    ensures Chunks([[x], [y]], [Span(0, 1), Span(1, 2)], "", true) == [[x], [y]]
  {
    var sp := [[x], [y]];
    assert sp[0..1] == [[x]] && sp[1..2] == [[y]];
    assert [Span(0, 1), Span(1, 2)][..1] == [Span(0, 1)];
    assert Chunks(sp, [Span(0, 1)], "", true) == [[x]];
  }

  lemma LossyMerge(cfg: Config, d: char, x: char, y: char)
    requires LossyConfig(cfg, d)
    ensures Merge(cfg, [[x], [y]], "", true) == [[x], [y]]
  {
    LossyWindows(cfg, d, x, y);
    LossyChunks(x, y);
    var r := AppendEach([[x], [y]], "");
    assert r[0] == [x] && r[1] == [y];
  }

  lemma LossyTail(cfg: Config, d: char, z: char)
    requires LossyConfig(cfg, d)
    ensures Merge(cfg, [[z]], [d], true) == [[z, d]]
  {
    assert Windows(cfg, [[z]]) == [Span(0, 1)];
    assert [[z]][0..1] == [[z]];
    assert Chunks([[z]], [Span(0, 1)], [d], true) == [[z]];
    var r := AppendEach([[z]], [d]);
    assert r[0] == [z, d];
  }

  lemma LossyInnerSplit(cfg: Config, d: char, x: char, y: char)
    requires LossyConfig(cfg, d) && x != d && y != d
    ensures Separator(cfg.separators, [x, y]) == ""
    ensures RubySplit([x, y], "") == [[x], [y]]
  {
    assert Lacks([x, y], d);
    LacksExcludes([x, y], [d]);
    IncludesEmpty([x, y]);
    assert Rank(cfg.separators, [x, y]) == 1;
  }

  lemma LossyInnerParts(x: char, y: char)
    ensures Includes([x, y], [x]) && Includes([x, y], [y])
  {
    assert [x, y][..1] == [x] && [x, y][1..] == [y];
    IncludesPrefix([x, y], 1);
    IncludesSuffix([x, y], 1);
  }

  lemma LossyInnerClassify(cfg: Config, d: char, x: char, y: char)
    requires LossyConfig(cfg, d) && x != d && y != d
    requires Includes([x, y], [x]) && Includes([x, y], [y])
    ensures Classify(cfg, [x, y], true, "", [[x], [y]], [], []) == Success([[x], [y]])
  {
    var sp := [[x], [y]];
    ClassifyAllShort(cfg, [x, y], true, "", sp, [], []);
    assert [] + sp == sp;
    LossyMerge(cfg, d, x, y);
  }

  lemma LossyInner(cfg: Config, d: char, x: char, y: char)
    requires LossyConfig(cfg, d) && x != d && y != d
    ensures SplitText(cfg, [x, y], true) == Success([[x], [y]])
  {
    LossyInnerSplit(cfg, d, x, y);
    LossyInnerParts(x, y);
    LossyInnerClassify(cfg, d, x, y);
    LossyDropEmpty(x, y);
  }

  lemma LossyDropEmpty(x: char, y: char)
    ensures DropTrailingSeparator([[x], [y]], "") == [[x], [y]]
  {
    assert EndsWith([y], "") && DeleteSuffix([y], "") == [y];
    assert [[x], [y]][..1] + [[y]] == [[x], [y]];
  }

  lemma LossyOuterSplit(cfg: Config, d: char, x: char, y: char, z: char)
    requires LossyConfig(cfg, d) && d != ' ' && x != d && y != d && z != d
    ensures Separator(cfg.separators, [x, y, d, z]) == [d]
    ensures RubySplit([x, y, d, z], [d]) == [[x, y], [z]]
  {
    assert Lacks([x, y], d) && Lacks([z], d);
    assert [x, y, d, z] == [x, y] + [d] + [z];
    IndexOfConcat([x, y], [d], [z]);
    SplitFieldsConcat([x, y], [d], [z]);
    SplitFieldsLacking([z], [d]);
    assert SplitFields([x, y, d, z], [d]) == [[x, y], [z]];
    assert [d] != " ";
  }

  lemma LossyOuterParts(d: char, x: char, y: char, z: char)
    ensures Includes([x, y, d, z], [x, y]) && Includes([x, y, d, z], [z])
  {
    var t := [x, y, d, z];
    IncludesPrefix(t, 2);
    assert t[..2] == [x, y];
    IncludesSuffix(t, 3);
    assert t[3..] == [z];
  }

  lemma LossyFlushTail(cfg: Config, d: char, x: char, y: char, z: char)
    requires LossyConfig(cfg, d)
    ensures Flush(cfg, [[z]], [d], true, [[x], [y]]) == [[x], [y], [z, d]]
  {
    LossyTail(cfg, d, z);
  }

  lemma LossyClassifyTail(cfg: Config, d: char, x: char, y: char, z: char)
    requires LossyConfig(cfg, d) && Includes([x, y, d, z], [z])
    ensures Classify(cfg, [x, y, d, z], true, [d], [[z]], [], [[x], [y]]) == Success([[x], [y], [z, d]])
  {
    var t := [x, y, d, z];
    LossyFlushTail(cfg, d, x, y, z);
    assert [] + [[z]] == [[z]];
    assert Classify(cfg, t, true, [d], [], [[z]], [[x], [y]]) == Success([[x], [y], [z, d]]);
    assert [[z]][1..] == [];
  }

  lemma LossyClassify(cfg: Config, d: char, x: char, y: char, z: char)
    requires LossyConfig(cfg, d) && x != d && y != d && z != d
    requires Includes([x, y, d, z], [x, y]) && Includes([x, y, d, z], [z])
    ensures Classify(cfg, [x, y, d, z], true, [d], [[x, y], [z]], [], []) == Success([[x], [y], [z, d]])
  {
    var t := [x, y, d, z];
    LossyInner(cfg, d, x, y);
    LossyClassifyTail(cfg, d, x, y, z);
    assert [x, y] != t;
    assert [[x, y], [z]][1..] == [[z]];
    assert Flush(cfg, [], [d], true, []) == [];
    assert [] + [[x], [y]] == [[x], [y]];
  }

  lemma LossyDrop(d: char, x: char, y: char, z: char)
    ensures DropTrailingSeparator([[x], [y], [z, d]], [d]) == [[x], [y], [z]]
  {
    assert [z, d][1..] == [d];
    assert DeleteSuffix([z, d], [d]) == [z];
    assert [[x], [y], [z, d]][..2] + [[z]] == [[x], [y], [z]];
  }

  /** Reconstruction fails once a fragment is re-split: with `chunk_size` 2
      the fragment `xy` of `xy<d>z` is cut into characters, and the
      separator that followed it is not put back. */
  lemma LossyReconstruction(d: char, x: char, y: char, z: char)
    requires d != ' ' && x != d && y != d && z != d
    ensures SplitText(Config(2, 0, [[d], ""]), [x, y, d, z], true) == Success([[x], [y], [z]])
    ensures Concat([[x], [y], [z]]) != [x, y, d, z]
  {
    var cfg := Config(2, 0, [[d], ""]);
    LossyOuterSplit(cfg, d, x, y, z);
    LossyOuterParts(d, x, y, z);
    LossyClassify(cfg, d, x, y, z);
    LossyDrop(d, x, y, z);
    assert |Concat([[x], [y], [z]])| == 3 by {
      ConcatAppend([[x], [y]], [z]);
      ConcatAppend([[x]], [y]);
      assert [[x], [y]] == [[x]] + [[y]];
      assert [[x], [y], [z]] == [[x], [y]] + [[z]];
    }
  }

  // ---------------------------------------------------------------------
  // Reconstruction duplicates a separator after an empty fragment
  // ---------------------------------------------------------------------

  lemma DupWindows(cfg: Config, d: char, x: char, y: char)
    requires LossyConfig(cfg, d)
    ensures Windows(cfg, [[x], [], [y]]) == [Span(0, 2), Span(1, 3)]
  {
    var sp: seq<string> := [[x], [], [y]];
    assert sp[0..0] == [] && sp[1..1] == [];
    TotalExtend(sp, 0, 0);
    TotalExtend(sp, 0, 1);
    TotalDropFront(sp, 0, 2);
    assert Run(cfg, sp, 2) == Pack([], 0);
    assert Evict(cfg, sp, 0, 2, 1) == 1;
    assert Run(cfg, sp, 3) == Pack([Span(0, 2)], 1);
  }

  lemma DupChunks(d: char, x: char, y: char)
    ensures Chunks([[x], [], [y]], [Span(0, 2), Span(1, 3)], [d], true) == [[x, d], [d, y]]
  {
    var sp: seq<string> := [[x], [], [y]];
    assert sp[0..2] == [[x], []] && sp[1..3] == [[], [y]];
    assert Join([[x], []], [d]) == [x, d];
    assert Join([[], [y]], [d]) == [d, y];
    assert [Span(0, 2), Span(1, 3)][..1] == [Span(0, 2)];
    assert Chunks(sp, [Span(0, 2)], [d], true) == [[x, d]];
  }

  lemma DupMerge(cfg: Config, d: char, x: char, y: char)
    requires LossyConfig(cfg, d)
    ensures Merge(cfg, [[x], [], [y]], [d], true) == [[x, d, d], [d, y, d]]
  {
    DupWindows(cfg, d, x, y);
    DupChunks(d, x, y);
    var r := AppendEach([[x, d], [d, y]], [d]);
    assert r[0] == [x, d, d] && r[1] == [d, y, d];
  }

  lemma DupSplit(cfg: Config, d: char, x: char, y: char)
    requires LossyConfig(cfg, d) && d != ' ' && x != d && y != d
    ensures Separator(cfg.separators, [x, d, d, y]) == [d]
    ensures RubySplit([x, d, d, y], [d]) == [[x], [], [y]]
  {
    assert Lacks([x], d) && Lacks([], d) && Lacks([y], d);
    assert [x, d, d, y] == [x] + [d] + [d, y];
    assert [d, y] == [] + [d] + [y];
    IndexOfConcat([x], [d], [d, y]);
    SplitFieldsConcat([x], [d], [d, y]);
    SplitFieldsConcat([], [d], [y]);
    SplitFieldsLacking([y], [d]);
    assert SplitFields([x, d, d, y], [d]) == [[x], [], [y]];
    assert [d] != " ";
  }

  lemma DupParts(d: char, x: char, y: char)
    ensures var t := [x, d, d, y];
      Includes(t, [x]) && Includes(t, []) && Includes(t, [y])
  {
    var t := [x, d, d, y];
    IncludesPrefix(t, 1);
    assert t[..1] == [x];
    IncludesEmpty(t);
    IncludesSuffix(t, 3);
    assert t[3..] == [y];
  }

  lemma DupClassify(cfg: Config, d: char, x: char, y: char)
    requires LossyConfig(cfg, d)
    requires Includes([x, d, d, y], [x]) && Includes([x, d, d, y], []) && Includes([x, d, d, y], [y])
    ensures Classify(cfg, [x, d, d, y], true, [d], [[x], [], [y]], [], []) == Success([[x, d, d], [d, y, d]])
  {
    FlatClassify(cfg, [x, d, d, y], true, [d], [[x], [], [y]]);
    DupMerge(cfg, d, x, y);
  }

  lemma DupDrop(d: char, x: char, y: char)
    ensures DropTrailingSeparator([[x, d, d], [d, y, d]], [d]) == [[x, d, d], [d, y]]
  {
    assert [d, y, d][2..] == [d];
    assert DeleteSuffix([d, y, d], [d]) == [d, y];
    assert [[x, d, d], [d, y, d]][..1] + [[d, y]] == [[x, d, d], [d, y]];
  }

  /** Reconstruction fails on an empty fragment: with `chunk_size` 2 the
      empty fragment between the two separators of `x<d><d>y` ends the
      first window, is kept when that window is evicted down to length
      zero, and so also opens the second; the separator joined after it is
      emitted twice. */
  lemma DuplicatedSeparator(d: char, x: char, y: char)
    requires d != ' ' && x != d && y != d
    ensures SplitText(Config(2, 0, [[d], ""]), [x, d, d, y], true) == Success([[x, d, d], [d, y]])
    ensures Concat([[x, d, d], [d, y]]) == [x, d, d, d, y]
  {
    var cfg := Config(2, 0, [[d], ""]);
    DupSplit(cfg, d, x, y);
    DupParts(d, x, y);
    DupClassify(cfg, d, x, y);
    DupDrop(d, x, y);
    ConcatAppend([[x, d, d]], [d, y]);
    assert [[x, d, d], [d, y]] == [[x, d, d]] + [[d, y]];
  }

  // ---------------------------------------------------------------------
  // The trailing-separator correction deletes text
  // ---------------------------------------------------------------------

  /** The configuration of the data-loss example: `chunk_size` 4, no
      overlap, the separators `" " + y`, `" "` and `""`. */
  predicate LossConfig(cfg: Config, y: char) {
    cfg == Config(4, 0, [[' ', y], " ", ""])
  }

  /** The characters of the example: `x` and `y` are kept by `strip`, and
      `w` is whitespace other than the blank. */
  predicate LossChars(x: char, w: char, y: char) {
    !IsStripSpace(x) && !IsStripSpace(y) && IsAwkSpace(w) && w != ' '
  }

  lemma LossOuterSplit(cfg: Config, x: char, w: char, y: char)
    requires LossConfig(cfg, y) && LossChars(x, w, y)
    ensures Separator(cfg.separators, [x, w, y, ' ', ' ', y]) == [' ', y]
    ensures RubySplit([x, w, y, ' ', ' ', y], [' ', y]) == [[x, w, y, ' ']]
  {
    var t := [x, w, y, ' ', ' ', y];
    var p := [' ', y];
    assert t[4..6] == p;
    OccursIncludes(t, p, 4);
    forall j | 0 <= j < 4 ensures !OccursAt(t, p, j) {
      assert t[j..j + 2][0] == t[j] && t[j..j + 2][1] == t[j + 1];
    }
    SplitFieldsStep(t, p, 4);
    assert t[..4] == [x, w, y, ' '] && t[6..] == [];
    SplitFieldsNone([], p);
    assert SplitFields(t, p) == [[x, w, y, ' '], []];
    assert [[x, w, y, ' '], []][..1] == [[x, w, y, ' ']];
    assert DropTrailingEmpty([[x, w, y, ' '], []]) == [[x, w, y, ' ']];
  }

  lemma LossInnerSplit(cfg: Config, x: char, w: char, y: char)
    requires LossConfig(cfg, y) && LossChars(x, w, y)
    ensures Separator(cfg.separators, [x, w, y, ' ']) == " "
    ensures RubySplit([x, w, y, ' '], " ") == [[x], [y]]
  {
    var u := [x, w, y, ' '];
    forall j | 0 <= j ensures !OccursAt(u, [' ', y], j) {
      if j + 2 <= |u| {
        assert u[j..j + 2][0] == u[j] && u[j..j + 2][1] == u[j + 1];
      }
    }
    assert !Includes(u, [' ', y]);
    assert u[3..4] == " ";
    OccursIncludes(u, " ", 3);
    assert Rank(cfg.separators, u) == 1;
    assert u == [x] + [w] + [y, ' '];
    AwkSplitAtSpace([x], w, [y, ' ']);
    assert [y, ' '] == [y] + [' '] + [];
    AwkSplitAtSpace([y], ' ', []);
    AwkSplitWord([x]);
    AwkSplitWord([y]);
  }

  lemma LossInnerWindows(cfg: Config, x: char, y: char)
    requires LossConfig(cfg, y)
    ensures Windows(cfg, [[x], [y]]) == [Span(0, 2)]
  {
    var sp := [[x], [y]];
    assert sp[0..1] == [[x]] && [[x]][1..] == [];
    assert SumLen([[x]]) == 1;
    assert Total(sp, 0, 1) == 1;
    assert Run(cfg, sp, 2) == Pack([], 0);
  }

  lemma LossInnerChunks(x: char, y: char)
    requires !IsStripSpace(x) && !IsStripSpace(y)
    ensures Chunks([[x], [y]], [Span(0, 2)], " ", false) == [[x, ' ', y]]
  {
    var sp := [[x], [y]];
    assert sp[0..2] == sp;
    assert Join(sp, " ") == [x, ' ', y];
    assert NoEdgeSpace([x, ' ', y]);
    StripFixpoint([x, ' ', y]);
    assert [Span(0, 2)][..0] == [];
  }

  lemma LossInnerMerge(cfg: Config, x: char, y: char)
    requires LossConfig(cfg, y) && !IsStripSpace(x) && !IsStripSpace(y)
    ensures Merge(cfg, [[x], [y]], " ", false) == [[x, ' ', y]]
  {
    LossInnerWindows(cfg, x, y);
    LossInnerChunks(x, y);
  }

  lemma LossInner(cfg: Config, x: char, w: char, y: char)
    requires LossConfig(cfg, y) && LossChars(x, w, y)
    ensures SplitText(cfg, [x, w, y, ' '], false) == Success([[x, ' ', y]])
  {
    var u := [x, w, y, ' '];
    LossInnerSplit(cfg, x, w, y);
    IncludesPrefix(u, 1);
    assert u[..1] == [x] && u[2..3] == [y];
    OccursIncludes(u, [y], 2);
    FlatClassify(cfg, u, false, " ", [[x], [y]]);
    LossInnerMerge(cfg, x, y);
    assert !EndsWith([x, ' ', y], " ");
  }

  lemma LossOuterClassify(cfg: Config, x: char, w: char, y: char)
    requires LossConfig(cfg, y) && LossChars(x, w, y)
    requires Includes([x, w, y, ' ', ' ', y], [x, w, y, ' '])
    ensures Classify(cfg, [x, w, y, ' ', ' ', y], false, [' ', y], [[x, w, y, ' ']], [], [])
         == Success([[x, ' ', y]])
  {
    var t := [x, w, y, ' ', ' ', y];
    var u := [x, w, y, ' '];
    LossInner(cfg, x, w, y);
    assert u != t;
    assert [u][1..] == [];
    assert Flush(cfg, [], [' ', y], false, []) == [];
    assert [] + [[x, ' ', y]] == [[x, ' ', y]];
  }

  /** Outside reconstructable mode `split` can delete content: the fragment
      `x<w>y ` is re-split on whitespace and merged as `x y`, whose ending
      ` y` is the outer separator, so the correction removes it. Both `y`s
      of the text are gone. */
  lemma DataLoss(x: char, w: char, y: char)
    requires LossChars(x, w, y)
    ensures SplitText(Config(4, 0, [[' ', y], " ", ""]), [x, w, y, ' ', ' ', y], false) == Success([[x]])
  {
    var cfg := Config(4, 0, [[' ', y], " ", ""]);
    var t := [x, w, y, ' ', ' ', y];
    LossOuterSplit(cfg, x, w, y);
    IncludesPrefix(t, 4);
    assert t[..4] == [x, w, y, ' '];
    LossOuterClassify(cfg, x, w, y);
    assert EndsWith([x, ' ', y], [' ', y]);
    assert DeleteSuffix([x, ' ', y], [' ', y]) == [x];
    assert [[x, ' ', y]][..0] + [[x]] == [[x]];
  }

  /** `"a\tb  b"` with chunk size 4 and separators `[" b", " ", ""]` gives
      the single chunk `"a"`. */
  lemma DataLossExample()
    ensures SplitText(Config(4, 0, [" b", " ", ""]), "a\tb  b", false) == Success(["a"])
  {
    DataLoss('a', '\t', 'b');
    assert "a\tb  b" == ['a', '\t', 'b', ' ', ' ', 'b'];
  }
}
