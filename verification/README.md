# Recursive character text splitter, modelled in Dafny

This project models `TextSplitters::RecursiveCharacterTextSplitter`, a Ruby port of LangChain's
recursive chunker (`lib/text_splitters/recursive_character_text_splitter.rb`).

The splitter has two parts:

- `split` picks the first configured separator that occurs in the text, falling back to the last one. It divides the text on that separator. It buffers the fragments shorter than `chunk_size` and packs them with `merge_splits`. It re-splits each fragment of at least `chunk_size` characters recursively with the full separator list. Finally it removes one trailing separator from the last chunk.
- `merge_splits` is a greedy sliding-window packer. It emits the window when the next fragment would make it reach `chunk_size`. It then evicts fragments from the front until the rest fits in `chunk_overlap` and leaves room. In reconstructable mode it appends the separator to every chunk.

Modules:

- `Wrappers`: `Option` and `Result`.
- `SplitterConfig`: the constructor's three fields and the default separator list `["\n\n", "\n", " ", ""]`.
- `RubyString`: the Ruby string operations the splitter relies on, over `seq<char>` with ASCII whitespace:
  - `include?` as leftmost search
  - `end_with?` and `delete_suffix`
  - `strip`
  - `Array#join`
  - `String#split`, where `""` yields characters, `" "` is awk-style (runs of whitespace, no empty fields) and any other separator splits on each leftmost occurrence with trailing empty fields dropped
- `Merger`: `merge_splits` as a pure function. A run is the sequence of windows `Span(lo, hi)` it renders; each window is the slice `splits[lo..hi]`.
- `MergeLoop`: the Ruby loop transcribed with its mutable `total` and `current_chunk_splits`, proved equal to `Merger.Merge`.
- `Splitter`: `split`, including separator choice, fragment classification, recursion and the trailing-separator correction.
- `SplitProperties`: termination, flushing and reconstruction lemmas about `Splitter.SplitText`.
- `Scenarios`: the examples from the test file, plus counterexamples.

Two kinds of failure are results rather than exceptions:

- `OverlapInReconstructableMode` stands for the `raise` at lines 15-17 of `lib/text_splitters/recursive_character_text_splitter.rb`.
- `Diverges` stands for unbounded recursion. It is returned when a fragment at least `chunk_size` long equals the text it came from. Re-splitting such a fragment would repeat the same call forever in Ruby. Every other recursive call is on a strictly shorter text or uses a strictly later separator.

Behaviour of the code worth knowing:

- The overlap error is raised by `split` itself, on every call, and not by the constructor.
- Reconstructable mode splits exactly as the other mode does and keeps no separator as a fragment. It joins each window with the separator and appends the separator to every chunk.
- The trailing-separator correction runs at every level of the recursion. It applies whenever the last chunk ends with the separator, whatever the text ended with. So it can delete text that is not a separator of the input, as the next bullet shows.
- Outside reconstructable mode, `split` can lose content as well as whitespace. Take the text `"a\tb  b"` with chunk size 4 and separators `[" b", " ", ""]`:
  - The text is split on `" b"`, leaving the single fragment `"a\tb "`.
  - That fragment is re-split on whitespace into `"a"` and `"b"`.
  - The merger joins those two as `"a b"`, turning the tab into a blank.
  - The correction then removes the `" b"` that this join created.

  The result is `["a"]`, and both `b`s are gone. `Scenarios.DataLoss` proves this for every text of that shape.
- Concatenating the chunks in reconstructable mode does not always give the text back, in either direction:
  - A separator next to a fragment that has to be re-split is lost. `Scenarios.LossyReconstruction` proves this for every four-character text of that shape. The test at lines 120-133 of `test/recursive_character_text_splitter_test.rb` asserts the opposite. It expects `"Paragraph one.\n\nParagraph two.\n\n"` with chunk size 10 to join back to itself. Each paragraph there is at least 10 characters long and is re-split, so by the same mechanism the code as written loses the `"\n\n"` after it. The assertion therefore disagrees with the code. That particular input is not proved here.
  - A separator after an empty fragment is duplicated. Two adjacent separators leave an empty fragment between them. When that fragment ends a window that is then closed, eviction stops as soon as the window total is 0 (lines 89-90 of `lib/text_splitters/recursive_character_text_splitter.rb`), so the empty fragment also opens the next window. The separator joined after it appears in both chunks. `Scenarios.DuplicatedSeparator` proves that `x<d><d>y` comes back as `x<d><d><d>y`.
- A chunk size of 1 with the `""` separator does not terminate.
- A chunk can be longer than `chunk_size`, because the window total does not count separators.

## Model

| member | source | states |
|---|---|---|
| RubyString.IndexOf | lib/text_splitters/recursive_character_text_splitter.rb:24 | `include?` as a search: the result is an occurrence, no earlier index is one, and no result means no occurrence anywhere |
| RubyString.IncludesTransitive | lib/text_splitters/recursive_character_text_splitter.rb:46 | a fragment of a fragment is still included in the text, so a recursive call never meets an earlier separator again |
| RubyString.IncludesSameLength | lib/text_splitters/recursive_character_text_splitter.rb:46 | a fragment as long as its text is that text, so the only recursive call that does not shrink the text is the one on the text itself |
| RubyString.DeleteSuffix | lib/text_splitters/recursive_character_text_splitter.rb:58 | `delete_suffix` removes the separator exactly when the string ends with it, so adding it back restores the string, and otherwise changes nothing |
| RubyString.Strip | lib/text_splitters/recursive_character_text_splitter.rb:82 | the stripped chunk has no whitespace or NUL at either end and is no longer than the joined text |
| RubyString.StripPlacement | lib/text_splitters/recursive_character_text_splitter.rb:82 | what `strip` removes is whitespace or NUL only, before and after the kept part, which stays at its position in the joined text |
| RubyString.StripFixpoint | lib/text_splitters/recursive_character_text_splitter.rb:102 | a string equals its own `strip` exactly when it has no whitespace at either end, in both directions |
| RubyString.StripIdempotent | lib/text_splitters/recursive_character_text_splitter.rb:102 | stripping a stripped chunk changes nothing |
| RubyString.JoinConcat | lib/text_splitters/recursive_character_text_splitter.rb:80 | `join` over two non-empty lists is the two joins around one separator |
| RubyString.ConcatOfConcat | lib/text_splitters/recursive_character_text_splitter.rb:42 | joining `output.concat(more)` without a separator is the two joins placed end to end |
| RubyString.SplitFieldsParts | lib/text_splitters/recursive_character_text_splitter.rb:29 | every field from splitting on a non-empty separator lies inside the text and does not contain the separator |
| RubyString.SplitFieldsJoin | lib/text_splitters/recursive_character_text_splitter.rb:29 | joining the fields with the separator gives the text back (split and join are inverse before empty fields are dropped) |
| RubyString.SplitFieldsLastEmpty | lib/text_splitters/recursive_character_text_splitter.rb:29 | the last field is empty only when the text is empty or ends with the separator |
| RubyString.SplitFieldsStep | lib/text_splitters/recursive_character_text_splitter.rb:29 | given an occurrence of the separator at `i` with none before it, splitting yields the text before `i`, then the split of the text after that occurrence: the cut is at the leftmost occurrence |
| RubyString.SplitFieldsNone | lib/text_splitters/recursive_character_text_splitter.rb:29 | a text with no occurrence of the separator is its own single field |
| RubyString.DropTrailingEmpty | lib/text_splitters/recursive_character_text_splitter.rb:29 | Ruby's removal of trailing empty fields keeps a prefix, drops only empty strings and leaves no empty field at the end |
| RubyString.AwkSplit | lib/text_splitters/recursive_character_text_splitter.rb:29 | `split(" ")` yields non-empty words without whitespace, each inside the text |
| RubyString.AwkSplitAtSpace | lib/text_splitters/recursive_character_text_splitter.rb:29 | a whitespace character always ends a word: the words of `a + [c] + b` are the words of `a` followed by those of `b` |
| RubyString.AwkSplitWord | lib/text_splitters/recursive_character_text_splitter.rb:29 | a non-empty run without whitespace is a single word, so words are the maximal whitespace-free runs |
| RubyString.AwkSplitKeepsNonSpace | lib/text_splitters/recursive_character_text_splitter.rb:29 | the words of `split(" ")` hold every non-whitespace character of the text, in order, and nothing else |
| RubyString.SplitCharsConcat | lib/text_splitters/recursive_character_text_splitter.rb:29 | the characters from `split("")` concatenate back to the text |
| RubyString.RubySplit | lib/text_splitters/recursive_character_text_splitter.rb:29 | every fragment lies in the text; with `""` fragments are single characters; otherwise no fragment contains the separator; an empty text gives no fragments |
| RubyString.RubySplitJoin | lib/text_splitters/recursive_character_text_splitter.rb:29 | for a separator other than `""` and `" "` and a non-empty text that does not end with it, the fragments joined with the separator are the text |
| Merger.Evict | lib/text_splitters/recursive_character_text_splitter.rb:89-93 | eviction only drops from the front; afterwards the window total is at most `chunk_overlap` and is zero or leaves room for the pending fragment; every dropped step still met the loop guard |
| Merger.TotalZero | lib/text_splitters/recursive_character_text_splitter.rb:89-90 | a window of non-empty fragments with total 0 is empty |
| Merger.Run | lib/text_splitters/recursive_character_text_splitter.rb:73-97 | after `n` fragments, the open window starts before `n` (when `n > 0`) and every closed window ends before `n` |
| Merger.Windows | lib/text_splitters/recursive_character_text_splitter.rb:73-105 | there is always a final window; every window lies within the fragments; the final window starts before the last fragment |
| Merger.Chunks | lib/text_splitters/recursive_character_text_splitter.rb:85 | the `chunk && !chunk.empty?` filter: at most one chunk per window, none empty, and none with edge whitespace outside reconstructable mode |
| Merger.AppendEachConcat | lib/text_splitters/recursive_character_text_splitter.rb:107-112 | appending the separator to every reconstructable chunk and concatenating the chunks is the same as joining them with the separator and adding one more separator at the end |
| Merger.Merge | lib/text_splitters/recursive_character_text_splitter.rb:68-116 | outside reconstructable mode each chunk is non-empty and equal to its own `strip`; in reconstructable mode each chunk is longer than the separator and ends with it |
| Merger.MergeWindowsTile | lib/text_splitters/recursive_character_text_splitter.rb:73-97 | the windows start at the first fragment, end after the last, skip none and move strictly forward |
| Merger.MergeClosesWhenFull | lib/text_splitters/recursive_character_text_splitter.rb:74-85 | a window is closed exactly when the next fragment would make it reach `chunk_size`, and never while that fragment still fits |
| Merger.MergeOverlap | lib/text_splitters/recursive_character_text_splitter.rb:89-93 | each next window begins with the tail of the previous one that eviction kept; that tail is at most `chunk_overlap` long and is empty or leaves room for the fragment that closed the window; every fragment dropped before it was dropped while the loop guard still held, so eviction stops at the first point it may |
| Merger.MergeWindowsFit | lib/text_splitters/recursive_character_text_splitter.rb:70-96 | when every fragment is shorter than `chunk_size`, no window's fragment lengths add up to more than `chunk_size` |
| Merger.JoinNonEmpty | lib/text_splitters/recursive_character_text_splitter.rb:85 | a window that starts with a non-empty fragment never renders as the empty chunk in reconstructable mode |
| Merger.PartitionConcat | lib/text_splitters/recursive_character_text_splitter.rb:98-112 | rendering disjoint consecutive windows in reconstructable mode and appending the separator gives the fragments joined by the separator plus one separator |
| Merger.MergeLossless | lib/text_splitters/recursive_character_text_splitter.rb:68-116 | with no overlap and non-empty fragments, the reconstructable chunks concatenate to the fragments joined by the separator plus one trailing separator |
| MergeLoop.Shed | lib/text_splitters/recursive_character_text_splitter.rb:89-93 | the `while` loop with its running `total` stops where `Merger.Evict` does and leaves `total` equal to the length of the remaining window |
| MergeLoop.Step | lib/text_splitters/recursive_character_text_splitter.rb:73-97 | one iteration keeps the loop state in step with the pure model: the window is the slice ending at the fragment just appended, `total` is its length, chunks are only added, and a fragment shorter than `chunk_size` leaves `total` at most `chunk_size` |
| MergeLoop.MergeSplits | lib/text_splitters/recursive_character_text_splitter.rb:68-116 | the imperative loop returns exactly `Merger.Merge` |
| Splitter.Rank | lib/text_splitters/recursive_character_text_splitter.rb:22-28 | the index of the first separator contained in the text, or the list length if there is none |
| Splitter.SeparatorIndex | lib/text_splitters/recursive_character_text_splitter.rb:22-28 | the chosen separator is the first one the text contains, or the last one when it contains none |
| Splitter.ChooseSeparator | lib/text_splitters/recursive_character_text_splitter.rb:22-28 | the `each` loop with `break` returns the separator that `Splitter.SeparatorIndex` designates |
| Splitter.RankMonotone | lib/text_splitters/recursive_character_text_splitter.rb:46 | a part of the text contains none of the separators the text lacks |
| Splitter.Descends | lib/text_splitters/recursive_character_text_splitter.rb:46 | a fragment other than the text itself is strictly shorter and lacks every separator the text lacks, so the recursive call makes progress |
| Splitter.RecursionAdvancesSeparator | lib/text_splitters/recursive_character_text_splitter.rb:29-46 | when the chosen non-empty separator occurs in the text, every fragment's first contained separator comes strictly later in the list |
| Splitter.Flush | lib/text_splitters/recursive_character_text_splitter.rb:35-44 | flushing the buffered fragments only appends to the output, and an empty buffer appends nothing |
| Splitter.DropTrailingSeparator | lib/text_splitters/recursive_character_text_splitter.rb:57-58 | the output keeps its length and all chunks but the last; the last loses exactly one trailing separator if it ends with one and is otherwise unchanged |
| Splitter.SplitText | lib/text_splitters/recursive_character_text_splitter.rb:14-61 | the overlap error is returned exactly when reconstructable mode meets a non-zero overlap; otherwise an empty text gives no chunks |
| Splitter.Classify | lib/text_splitters/recursive_character_text_splitter.rb:31-55 | the fragment loop only appends to the output, and its only failure is divergence; every fragment it hands to the merger is shorter than `chunk_size`, since the merger's precondition is discharged at each flush |
| SplitProperties.SplitTextConverges | lib/text_splitters/recursive_character_text_splitter.rb:46 | with `chunk_size >= 2` and `""` among the separators, the recursion always ends in success |
| SplitProperties.ClassifyConverges | lib/text_splitters/recursive_character_text_splitter.rb:31-49 | under the same conditions the fragment loop succeeds, given that no oversized fragment equals the text |
| SplitProperties.ClassifyAllShort | lib/text_splitters/recursive_character_text_splitter.rb:31-55 | when no fragment is oversized, the loop buffers them all and merges them in one flush at the end |
| SplitProperties.DropTrailingConcat | lib/text_splitters/recursive_character_text_splitter.rb:57-58 | the correction removes one separator from the concatenation of all chunks |
| SplitProperties.ReconstructFlat | lib/text_splitters/recursive_character_text_splitter.rb:14-61 | with no overlap, if every fragment is non-empty and short, and the separator is not `" "` and does not end the text, the reconstructable chunks are non-empty and concatenate to the text |
| Scenarios.DivergesWithUnitChunkSize | lib/text_splitters/recursive_character_text_splitter.rb:29-46 | with chunk size 1, splitting `"a"` on `""` re-splits `"a"` forever |
| Scenarios.DivergesOnMissingFallback | lib/text_splitters/recursive_character_text_splitter.rb:22-46 | with `"---"` as the only separator, every non-empty text of at least `chunk_size` characters that lacks it is re-split forever, in either mode, whenever the overlap check passes |
| Scenarios.EmptyTextGivesNoChunks | test/recursive_character_text_splitter_test.rb:113-117 | the empty text gives no chunks, whose join is the empty text |
| Scenarios.WordSeparator | lib/text_splitters/recursive_character_text_splitter.rb:22-28 | a text without newlines or spaces falls through to the `""` separator of the default list |
| Scenarios.LongWordReconstructs | test/recursive_character_text_splitter_test.rb:98-110 | `"ThisIsOneLongWordWithoutSpaces"` with chunk size 10 gives a non-empty list of reconstructable chunks that join to the word |
| Scenarios.SplitThree | lib/text_splitters/recursive_character_text_splitter.rb:29 | splitting `a + p + b + p + c` on `p`, where no part contains `p`'s first character, yields `[a, b, c]` |
| Scenarios.SeparatorThree | lib/text_splitters/recursive_character_text_splitter.rb:22-28 | such a text selects the custom separator `p` first |
| Scenarios.RubySplitThree | lib/text_splitters/recursive_character_text_splitter.rb:29 | for any separator other than `""` and `" "`, Ruby's `split` keeps all three fields when the last is non-empty |
| Scenarios.ReconstructThree | lib/text_splitters/recursive_character_text_splitter.rb:14-61 | three short non-empty sections around any custom separator other than `" "`, single characters included, come back whole from reconstructable mode |
| Scenarios.SectionsReconstruct | test/recursive_character_text_splitter_test.rb:79-93 | `"Section A---Section B---Section C"` with separators `["---", " ", ""]` and chunk size 20 gives a non-empty list of chunks that join to the text |
| Scenarios.LeftmostOccurrence | lib/text_splitters/recursive_character_text_splitter.rb:29 | `"a----b"` split on the self-overlapping `"---"` gives `["a", "-b"]`, not `["a-", "b"]` |
| Scenarios.ThreeWords | lib/text_splitters/recursive_character_text_splitter.rb:29 | three non-empty whitespace-free words separated by single whitespace characters split on `" "` into exactly those words |
| Scenarios.OkayWords | test/recursive_character_text_splitter_test.rb:25 | `"Okay then f"` split on `" "` gives `["Okay", "then", "f"]` |
| Scenarios.WindowOkay | test/recursive_character_text_splitter_test.rb:25 | with chunk size 10 and overlap 1, `"Okay"`, `"then"` and `"f"` form one window |
| Scenarios.WindowsOverlap | lib/text_splitters/recursive_character_text_splitter.rb:89-93 | with chunk size 5 and overlap 1, closing the window `["ab", "c"]` evicts only `"ab"`: `"c"` is within the overlap and also opens the next window `["c", "de"]` |
| Scenarios.ChunkLongerThanChunkSize | test/recursive_character_text_splitter_test.rb:25 | that window renders as `"Okay then f"`, eleven characters for a chunk size of 10 |
| Scenarios.LossyReconstruction | lib/text_splitters/recursive_character_text_splitter.rb:29-58 | with chunk size 2 and separators `[d, ""]`, the text `x y d z` comes back as `[x, y, z]`: the separator next to the re-split fragment is lost |
| Scenarios.DataLoss | lib/text_splitters/recursive_character_text_splitter.rb:29-58 | with chunk size 4 and separators `[" " + y, " ", ""]`, the text `x<w>y  y` (with `w` whitespace other than a blank) gives only `[x]`: the re-split fragment merges to `x y`, and the correction deletes its ` y` |
| Scenarios.DataLossExample | lib/text_splitters/recursive_character_text_splitter.rb:29-58 | `"a\tb  b"` with chunk size 4 and separators `[" b", " ", ""]` gives `["a"]` |
| Scenarios.DuplicatedSeparator | lib/text_splitters/recursive_character_text_splitter.rb:29-58 | with chunk size 2 and separators `[d, ""]`, the text `x d d y` gives the chunks `[x d d, d y]`, whose concatenation `x d d d y` holds one separator more than the text |

## Left out

- Negative `chunk_overlap`: the model's `chunkOverlap` is a `nat`. With a negative overlap the eviction loop would call `.length` on `nil` once the window is empty.
- An empty separator list: `Splitter.SplitText` requires a non-empty list. With none, the separator is `nil`. `split(nil)` then splits on whitespace as `split(" ")` does. `end_with?(nil)` at line 57 raises `TypeError`, but only when the output is non-empty. So an empty or all-whitespace text gives `[]`, and a word of at least `chunk_size` characters is re-split forever.
- The exception class and message at line 16 of `lib/text_splitters/recursive_character_text_splitter.rb`: modelled as the result `Failure(OverlapInReconstructableMode)`.
- Stack overflow from unbounded recursion: modelled as the result `Failure(Diverges)` on the call that would repeat itself.
- Unicode: strings are `seq<char>`, whitespace is ASCII, and there is no encoding or regular-expression engine. Ruby's `split` with a limit argument is never used by the splitter and is not modelled.
- Splitter.SplitText: its own contract states only the error case and the empty text. Termination, flushing and reconstruction are stated by the lemmas in `SplitProperties`, and reconstruction only under their preconditions, because it does not hold in general (see `Scenarios.LossyReconstruction`).
- No data loss outside reconstructable mode (the chunks hold every non-whitespace character of the text): not stated, because the code breaks it (`Scenarios.DataLoss`). The correction can delete a separator that a finer-level join created, and the merger rewrites whitespace.
- SplitProperties.ReconstructFlat: covers only texts whose fragments need no re-splitting, on a separator other than `" "`. The awk-style split discards the whitespace runs, so reconstruction through it is not stated. Its requirement that every fragment be non-empty is needed: an empty fragment duplicates a separator (see `Scenarios.DuplicatedSeparator`).
- The expected outputs of `test_basic_case`, `test_state_of_the_union` and `test_reconstructable_option` (lines 4-39, 41-57 and 59-75 of `test/recursive_character_text_splitter_test.rb`) are not proved as whole-text examples. Only the first window of line 25 is. Evaluating the splitter symbolically on those texts is beyond what the solver does in reasonable time.
- The constructor (lines 4-12 of `lib/text_splitters/recursive_character_text_splitter.rb`) only stores its three arguments. It is the `Config` datatype with `DefaultSeparators`.
