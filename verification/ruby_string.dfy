/** The parts of Ruby's String and Array behaviour that the splitter relies
    on (`include?`, `end_with?`, `delete_suffix`, `strip`, `split`, `join`),
    over character sequences with ASCII whitespace only. */
module RubyString {
  import opened Wrappers

  /** Whitespace recognised by the awk-style `String#split(" ")`. */
  predicate IsAwkSpace(c: char) {
    c == ' ' || c == '\t' || c == '\n' || c == '\U{B}' || c == '\U{C}' || c == '\r'
  }

  /** Characters removed by `String#strip`: the awk whitespace and NUL. */
  predicate IsStripSpace(c: char) {
    IsAwkSpace(c) || c == '\0'
  }

  predicate NoAwkSpace(t: string) {
    forall i :: 0 <= i < |t| ==> !IsAwkSpace(t[i])
  }

  predicate AllStripSpace(t: string) {
    forall i :: 0 <= i < |t| ==> IsStripSpace(t[i])
  }

  // ---------------------------------------------------------------------
  // Searching: include?, start_with?, end_with?, delete_suffix
  // ---------------------------------------------------------------------

  /** `p` occurs in `t` starting at index `i`. */
  predicate OccursAt(t: string, p: string, i: int) {
    0 <= i && i + |p| <= |t| && t[i..i + |p|] == p
  }

  /** Index of the leftmost occurrence of `p` in `t`, if any. */
  function IndexOf(t: string, p: string): (r: Option<nat>)
    ensures r.Some? ==> OccursAt(t, p, r.value)
    ensures r.Some? ==> forall i :: 0 <= i < r.value ==> !OccursAt(t, p, i)
    ensures r.None? ==> forall i :: !OccursAt(t, p, i)
  {
    IndexFrom(t, p, 0)
  }

  /** Leftmost occurrence of `p` in `t` at or after index `k`. */
  function IndexFrom(t: string, p: string, k: nat): (r: Option<nat>)
    ensures r.Some? ==> k <= r.value && OccursAt(t, p, r.value)
    ensures r.Some? ==> forall i :: k <= i < r.value ==> !OccursAt(t, p, i)
    ensures r.None? ==> forall i :: k <= i ==> !OccursAt(t, p, i)
    decreases |t| - k
  {
    if k + |p| > |t| then None
    else if t[k..k + |p|] == p then Some(k)
    else IndexFrom(t, p, k + 1)
  }

  /** Ruby's `t.include?(p)`; every string includes the empty string. */
  predicate Includes(t: string, p: string) {
    IndexOf(t, p).Some?
  }

  lemma OccursIncludes(t: string, p: string, i: int)
    requires OccursAt(t, p, i)
    ensures Includes(t, p)
  {
  }

  /** An infix of an infix of `t` is an infix of `t`. */
  lemma IncludesTransitive(t: string, f: string, p: string)
    requires Includes(t, f) && Includes(f, p)
    ensures Includes(t, p)
  {
    var i := IndexOf(t, f).value;
    var j := IndexOf(f, p).value;
    assert t[i..i + |f|] == f;
    assert f[j..j + |p|] == p;
    SliceOfSlice(t, i, i + |f|, j, j + |p|);
    assert OccursAt(t, p, i + j);
    OccursIncludes(t, p, i + j);
  }

  lemma SliceOfSlice(t: string, a: nat, b: nat, c: nat, d: nat)
    requires a <= b <= |t| && c <= d <= b - a
    ensures t[a..b][c..d] == t[a + c..a + d]
  {
    forall k | 0 <= k < d - c ensures t[a..b][c..d][k] == t[a + c..a + d][k] {
      assert t[a..b][c..d][k] == t[a..b][c + k] == t[a + c + k];
    }
  }

  lemma IncludesSuffix(t: string, k: nat)
    requires k <= |t|
    ensures Includes(t, t[k..])
  {
    OccursIncludes(t, t[k..], k);
  }

  lemma IncludesPrefix(t: string, k: nat)
    requires k <= |t|
    ensures Includes(t, t[..k])
  {
    OccursIncludes(t, t[..k], 0);
  }

  /** An infix as long as the text is the text itself. */
  lemma IncludesSameLength(t: string, f: string)
    requires Includes(t, f) && |f| >= |t|
    ensures f == t
  {
    var i := IndexOf(t, f).value;
    assert i == 0 && t[0..|t|] == t;
  }

  predicate StartsWith(t: string, p: string) {
    |p| <= |t| && t[..|p|] == p
  }

  /** Ruby's `t.end_with?(p)`. */
  predicate EndsWith(t: string, p: string) {
    |p| <= |t| && t[|t| - |p|..] == p
  }

  /** Ruby's `t.delete_suffix(p)`. */
  function DeleteSuffix(t: string, p: string): (r: string)
    ensures EndsWith(t, p) ==> r + p == t
    ensures !EndsWith(t, p) ==> r == t
  {
    if EndsWith(t, p) then t[..|t| - |p|] else t
  }

  // ---------------------------------------------------------------------
  // strip
  // ---------------------------------------------------------------------

  function LeadingSpace(t: string): (n: nat)
    ensures n <= |t|
    ensures AllStripSpace(t[..n])
    ensures n == |t| || !IsStripSpace(t[n])
  {
    if t == [] || !IsStripSpace(t[0]) then 0 else 1 + LeadingSpace(t[1..])
  }

  function TrailingSpace(t: string): (n: nat)
    ensures n <= |t|
    ensures AllStripSpace(t[|t| - n..])
    ensures n == |t| || !IsStripSpace(t[|t| - n - 1])
  {
    if t == [] || !IsStripSpace(t[|t| - 1]) then 0
    else
      var n := 1 + TrailingSpace(t[..|t| - 1]);
      assert t[|t| - n..] == t[..|t| - 1][|t| - n..] + [t[|t| - 1]];
      n
  }

  /** Ruby's `t.lstrip`: drops the leading whitespace (and NUL) only. */
  function LStrip(t: string): (r: string)
    ensures r == [] || !IsStripSpace(r[0])
    ensures |r| <= |t| && t == t[..|t| - |r|] + r && AllStripSpace(t[..|t| - |r|])
  {
    var a := LeadingSpace(t);
    assert t == t[..a] + t[a..];
    t[a..]
  }

  /** Ruby's `t.rstrip`: drops the trailing whitespace (and NUL) only. */
  function RStrip(t: string): (r: string)
    ensures r == [] || !IsStripSpace(r[|r| - 1])
    ensures r <= t && AllStripSpace(t[|r|..])
  {
    var b := TrailingSpace(t);
    t[..|t| - b]
  }

  /** Ruby's `t.strip`: the result has no whitespace (or NUL) at either end,
      and it is `t` with only leading and trailing whitespace removed. */
  function Strip(t: string): (r: string)
    ensures NoEdgeSpace(r)
    ensures |r| <= |t|
  {
    var u := LStrip(t);
    var r := RStrip(u);
    StripEnds(u, r);
    r
  }

  lemma StripEnds(u: string, r: string)
    requires (u == [] || !IsStripSpace(u[0])) && r == RStrip(u)
    ensures NoEdgeSpace(r)
  {
    if r != [] {
      assert r[0] == u[0];
    }
  }

  lemma StripShape(t: string, u: string, r: string)
    requires u == LStrip(t) && r == RStrip(u)
    ensures OccursAt(t, r, |t| - |u|) && AllStripSpace(t[..|t| - |u|]) && AllStripSpace(t[|t| - |u| + |r|..])
  {
    assert t == t[..|t| - |u|] + u;
    PrefixOfSuffix(t, u, r);
  }

  /** A prefix `r` of a suffix `u` of `t` occurs in `t` where `u` starts,
      and what follows it in `t` is what follows it in `u`. */
  lemma PrefixOfSuffix(t: string, u: string, r: string)
    requires |u| <= |t| && t[|t| - |u|..] == u && r <= u
    ensures OccursAt(t, r, |t| - |u|) && t[|t| - |u| + |r|..] == u[|r|..]
  {
    var a := |t| - |u|;
    assert t[a..a + |r|] == r;
    SuffixOfSuffix(t, a, |r|);
  }

  lemma SuffixOfSuffix(t: string, a: nat, b: nat)
    requires a + b <= |t|
    ensures t[a..][b..] == t[a + b..]
  {
  }

  /** What `strip` removes is whitespace (or NUL) only, before and after
      the part it keeps, which stays at its position in `t`. */
  lemma StripPlacement(t: string)
    ensures var r := Strip(t); var a := |t| - |LStrip(t)|;
      && OccursAt(t, r, a)
      && AllStripSpace(t[..a])
      && AllStripSpace(t[a + |r|..])
      && Includes(t, r)
  {
    var u := LStrip(t);
    var r := RStrip(u);
    assert Strip(t) == r;
    StripShape(t, u, r);
    OccursIncludes(t, r, |t| - |u|);
  }

  /** No whitespace (or NUL) at either end. */
  predicate NoEdgeSpace(t: string) {
    t == [] || (!IsStripSpace(t[0]) && !IsStripSpace(t[|t| - 1]))
  }

  /** A string is its own strip exactly when it has no whitespace at either end. */
  lemma StripFixpoint(t: string)
    ensures Strip(t) == t <==> NoEdgeSpace(t)
  {
    if NoEdgeSpace(t) {
      assert LeadingSpace(t) == 0;
      assert LStrip(t) == t;
      assert TrailingSpace(t) == 0;
    }
  }

  lemma StripIdempotent(t: string)
    ensures Strip(Strip(t)) == Strip(t)
  {
    StripFixpoint(Strip(t));
  }

  // ---------------------------------------------------------------------
  // Array#join
  // ---------------------------------------------------------------------

  /** Ruby's `parts.join(sep)`. */
  function Join(parts: seq<string>, sep: string): string
  {
    if |parts| == 0 then ""
    else if |parts| == 1 then parts[0]
    else parts[0] + sep + Join(parts[1..], sep)
  }

  lemma {:induction false} JoinAppend(parts: seq<string>, x: string, sep: string)
    requires |parts| > 0
    ensures Join(parts + [x], sep) == Join(parts, sep) + sep + x
    decreases |parts|
  {
    if |parts| == 1 {
      assert (parts + [x])[1..] == [x];
    } else {
      assert (parts + [x])[1..] == parts[1..] + [x];
      JoinAppend(parts[1..], x, sep);
    }
  }

  lemma {:induction false} JoinConcat(a: seq<string>, b: seq<string>, sep: string)
    requires |a| > 0 && |b| > 0
    ensures Join(a + b, sep) == Join(a, sep) + sep + Join(b, sep)
    decreases |a|
  {
    if |a| == 1 {
      assert (a + b)[1..] == b;
    } else {
      assert (a + b)[1..] == a[1..] + b;
      JoinConcat(a[1..], b, sep);
    }
  }

  /** Ruby's `chunks.join` with no argument concatenates. */
  function Concat(parts: seq<string>): string {
    Join(parts, "")
  }

  lemma {:induction false} ConcatAppend(parts: seq<string>, x: string)
    ensures Concat(parts + [x]) == Concat(parts) + x
  {
    if |parts| == 0 {
      assert parts + [x] == [x];
    } else {
      JoinAppend(parts, x, "");
    }
  }

  lemma {:induction false} ConcatOfConcat(a: seq<string>, b: seq<string>)
    ensures Concat(a + b) == Concat(a) + Concat(b)
  {
    if |a| == 0 {
      assert a + b == b;
    } else if |b| == 0 {
      assert a + b == a;
    } else {
      JoinConcat(a, b, "");
    }
  }

  // ---------------------------------------------------------------------
  // String#split
  // ---------------------------------------------------------------------

  /** All fields of `t` between leftmost, non-overlapping occurrences of a
      non-empty `sep`, empty fields included. */
  function SplitFields(t: string, sep: string): (r: seq<string>)
    requires |sep| > 0
    ensures |r| > 0
    decreases |t|
  {
    match IndexOf(t, sep)
    case None => [t]
    case Some(i) => [t[..i]] + SplitFields(t[i + |sep|..], sep)
  }

  /** Every field lies inside the text and does not contain the separator. */
  predicate FieldsOf(t: string, sep: string, r: seq<string>) {
    forall k :: 0 <= k < |r| ==> Includes(t, r[k]) && !Includes(r[k], sep)
  }

  lemma {:induction false} SplitFieldsParts(t: string, sep: string)
    requires |sep| > 0
    ensures FieldsOf(t, sep, SplitFields(t, sep))
    decreases |t|
  {
    match IndexOf(t, sep)
    case None =>
      IncludesSuffix(t, 0);
      assert t[0..] == t;
    case Some(i) =>
      var suffix := t[i + |sep|..];
      var rest := SplitFields(suffix, sep);
      SplitFieldsStep(t, sep, i);
      SplitFieldsParts(suffix, sep);
      IncludesPrefix(t, i);
      IncludesSuffix(t, i + |sep|);
      NoEarlierOccurrence(t, sep, i);
      forall k | 0 <= k < |rest| ensures Includes(t, rest[k]) {
        IncludesTransitive(t, suffix, rest[k]);
      }
      FieldsCons(t, sep, t[..i], rest);
  }

  lemma FieldsCons(t: string, sep: string, first: string, rest: seq<string>)
    requires Includes(t, first) && !Includes(first, sep)
    requires forall k :: 0 <= k < |rest| ==> Includes(t, rest[k])
    requires forall k :: 0 <= k < |rest| ==> !Includes(rest[k], sep)
    ensures FieldsOf(t, sep, [first] + rest)
  {
    var r := [first] + rest;
    forall k | 0 <= k < |r| ensures Includes(t, r[k]) && !Includes(r[k], sep) {
      if k > 0 {
        assert r[k] == rest[k - 1];
      }
    }
  }

  /** The text before the leftmost occurrence of `sep` does not include it. */
  lemma NoEarlierOccurrence(t: string, sep: string, i: nat)
    requires |sep| > 0
    requires OccursAt(t, sep, i)
    requires forall j :: 0 <= j < i ==> !OccursAt(t, sep, j)
    ensures !Includes(t[..i], sep)
  {
    if Includes(t[..i], sep) {
      var j := IndexOf(t[..i], sep).value;
      assert t[..i][j..j + |sep|] == t[j..j + |sep|];
      assert OccursAt(t, sep, j);
    }
  }

  /** Joining the fields with the separator gives back the text. */
  lemma {:induction false} SplitFieldsJoin(t: string, sep: string)
    requires |sep| > 0
    ensures Join(SplitFields(t, sep), sep) == t
    decreases |t|
  {
    match IndexOf(t, sep)
    case None =>
    case Some(i) =>
      var rest := t[i + |sep|..];
      SplitFieldsJoin(rest, sep);
      assert t == t[..i] + sep + rest;
  }

  /** The last element of a non-empty list. */
  function Last(xs: seq<string>): string
    requires |xs| > 0
  {
    xs[|xs| - 1]
  }

  /** The last field is empty only when the text is empty or ends with the
      separator. */
  lemma {:induction false} SplitFieldsLastEmpty(t: string, sep: string)
    requires |sep| > 0
    ensures Last(SplitFields(t, sep)) == "" ==> t == "" || EndsWith(t, sep)
    decreases |t|
  {
    match IndexOf(t, sep)
    case None =>
    case Some(i) =>
      var rest := t[i + |sep|..];
      var fields := SplitFields(rest, sep);
      SplitFieldsLastEmpty(rest, sep);
      SplitFieldsStep(t, sep, i);
      assert Last(SplitFields(t, sep)) == Last(fields);
      if rest == "" {
        EndsWithAtEnd(t, sep, i);
      } else if Last(fields) == "" {
        EndsWithOfSuffix(t, i + |sep|, sep);
      }
  }

  /** Splitting cuts at the leftmost occurrence: the first field is the
      text before it and the rest is the split of the text after it. */
  lemma SplitFieldsStep(t: string, sep: string, i: nat)
    requires |sep| > 0 && OccursAt(t, sep, i)
    requires forall j :: 0 <= j < i ==> !OccursAt(t, sep, j)
    ensures SplitFields(t, sep) == [t[..i]] + SplitFields(t[i + |sep|..], sep)
  {
    IndexOfLeftmost(t, sep, i);
  }

  /** The search finds an occurrence exactly when none precedes it. */
  lemma IndexOfLeftmost(t: string, p: string, i: nat)
    requires OccursAt(t, p, i) && forall j :: 0 <= j < i ==> !OccursAt(t, p, j)
    ensures IndexOf(t, p) == Some(i)
  {
    var found := IndexOf(t, p);
    assert found.Some?;
    assert !(found.value < i);
  }

  /** A text with no occurrence of the separator is its own single field. */
  lemma SplitFieldsNone(t: string, sep: string)
    requires |sep| > 0 && forall j :: !OccursAt(t, sep, j)
    ensures SplitFields(t, sep) == [t]
  {
    assert IndexOf(t, sep).None?;
  }

  lemma EndsWithAtEnd(t: string, p: string, i: nat)
    requires OccursAt(t, p, i) && i + |p| == |t|
    ensures EndsWith(t, p)
  {
  }

  lemma EndsWithOfSuffix(t: string, k: nat, p: string)
    requires k <= |t| && EndsWith(t[k..], p)
    ensures EndsWith(t, p)
  {
    assert t[k..][|t| - k - |p|..] == t[|t| - |p|..];
  }

  /** Ruby drops trailing empty fields when `split` is given no limit. */
  function DropTrailingEmpty(xs: seq<string>): (r: seq<string>)
    ensures r <= xs
    ensures r == [] || r[|r| - 1] != ""
    ensures forall k :: |r| <= k < |xs| ==> xs[k] == ""
  {
    if |xs| > 0 && xs[|xs| - 1] == "" then DropTrailingEmpty(xs[..|xs| - 1]) else xs
  }

  /** Length of the leading run of non-whitespace characters. */
  function WordLength(t: string): (n: nat)
    ensures n <= |t|
    ensures NoAwkSpace(t[..n])
    ensures n == |t| || IsAwkSpace(t[n])
  {
    if t == [] || IsAwkSpace(t[0]) then 0
    else
      var n := 1 + WordLength(t[1..]);
      assert t[..n] == [t[0]] + t[1..][..n - 1];
      n
  }

  /** Awk-style `split(" ")`: the maximal runs of non-whitespace, in order;
      leading and trailing whitespace produce no fields. */
  function AwkSplit(t: string): (r: seq<string>)
    ensures forall k :: 0 <= k < |r| ==> r[k] != "" && NoAwkSpace(r[k]) && Includes(t, r[k])
    decreases |t|
  {
    if t == [] then []
    else if IsAwkSpace(t[0]) then
      var rest := AwkSplit(t[1..]);
      IncludesSuffix(t, 1);
      forall k | 0 <= k < |rest| ensures Includes(t, rest[k]) {
        IncludesTransitive(t, t[1..], rest[k]);
      }
      rest
    else
      var n := WordLength(t);
      var rest := AwkSplit(t[n..]);
      IncludesPrefix(t, n);
      IncludesSuffix(t, n);
      forall k | 0 <= k < |rest| ensures Includes(t, rest[k]) {
        IncludesTransitive(t, t[n..], rest[k]);
      }
      [t[..n]] + rest
  }

  /** A word ends at the first whitespace character, whatever follows it. */
  lemma {:induction false} WordLengthBeforeSpace(a: string, s: string)
    requires s != [] && IsAwkSpace(s[0])
    ensures WordLength(a + s) == WordLength(a)
    decreases |a|
  {
    if a == [] {
      assert a + s == s;
    } else if !IsAwkSpace(a[0]) {
      assert (a + s)[1..] == a[1..] + s;
      WordLengthBeforeSpace(a[1..], s);
    }
  }

  /** A whitespace character separates words: the words of `a + [c] + b`
      are those of `a` followed by those of `b`. */
  lemma {:induction false} AwkSplitAtSpace(a: string, c: char, b: string)
    requires IsAwkSpace(c)
    ensures AwkSplit(a + [c] + b) == AwkSplit(a) + AwkSplit(b)
    decreases |a|
  {
    var t := a + [c] + b;
    if a == [] {
      assert t[1..] == b;
    } else if IsAwkSpace(a[0]) {
      assert t[1..] == a[1..] + [c] + b;
      AwkSplitAtSpace(a[1..], c, b);
    } else {
      var m := WordLength(a);
      assert t == a + ([c] + b);
      WordLengthBeforeSpace(a, [c] + b);
      assert t[..m] == a[..m];
      assert t[m..] == a[m..] + [c] + b;
      AwkSplitAtSpace(a[m..], c, b);
    }
  }

  /** A non-empty run without whitespace is one word. */
  lemma AwkSplitWord(w: string)
    requires w != "" && NoAwkSpace(w)
    ensures AwkSplit(w) == [w]
  {
    assert WordLength(w) == |w|;
    assert w[..|w|] == w && w[|w|..] == [];
  }

  /** The non-whitespace characters of `t`, in order. */
  function NonSpace(t: string): string
  {
    if t == [] then []
    else (if IsAwkSpace(t[0]) then [] else [t[0]]) + NonSpace(t[1..])
  }

  lemma {:induction false} NonSpaceOfWord(t: string)
    requires NoAwkSpace(t)
    ensures NonSpace(t) == t
  {
    if t != [] {
      NonSpaceOfWord(t[1..]);
    }
  }

  lemma {:induction false} NonSpaceConcat(a: string, b: string)
    ensures NonSpace(a + b) == NonSpace(a) + NonSpace(b)
  {
    if a != [] {
      assert (a + b)[1..] == a[1..] + b;
      NonSpaceConcat(a[1..], b);
    } else {
      assert a + b == b;
    }
  }

  /** Awk-style splitting loses only whitespace: the fields, concatenated,
      are exactly the non-whitespace characters of the text. */
  lemma {:induction false} AwkSplitKeepsNonSpace(t: string)
    ensures Concat(AwkSplit(t)) == NonSpace(t)
    decreases |t|
  {
    if t == [] {
    } else if IsAwkSpace(t[0]) {
      AwkSplitKeepsNonSpace(t[1..]);
    } else {
      var n := WordLength(t);
      AwkSplitKeepsNonSpace(t[n..]);
      ConcatOfConcat([t[..n]], AwkSplit(t[n..]));
      assert t == t[..n] + t[n..];
      NonSpaceConcat(t[..n], t[n..]);
      NonSpaceOfWord(t[..n]);
    }
  }

  /** `split("")`: one field per character. */
  function SplitChars(t: string): (r: seq<string>)
    ensures |r| == |t|
    ensures forall k :: 0 <= k < |r| ==> r[k] == [t[k]]
  {
    seq(|t|, k requires 0 <= k < |t| => [t[k]])
  }

  lemma {:induction false} SplitCharsConcat(t: string)
    ensures Concat(SplitChars(t)) == t
    decreases |t|
  {
    if t != [] {
      var n := |t| - 1;
      SplitCharsConcat(t[..n]);
      assert SplitChars(t) == SplitChars(t[..n]) + [[t[n]]];
      ConcatAppend(SplitChars(t[..n]), [t[n]]);
      assert t == t[..n] + [t[n]];
    }
  }

  /** Ruby's `t.split(sep)` for a string separator and no limit. */
  function RubySplit(t: string, sep: string): (r: seq<string>)
    ensures forall k :: 0 <= k < |r| ==> Includes(t, r[k])
    ensures sep == "" ==> forall k :: 0 <= k < |r| ==> |r[k]| == 1
    ensures sep != "" ==> forall k :: 0 <= k < |r| ==> !Includes(r[k], sep)
    ensures t == "" ==> r == []
  {
    if sep == "" then
      var r := SplitChars(t);
      forall k | 0 <= k < |r| ensures Includes(t, r[k]) {
        assert t[k..k + 1] == r[k];
        OccursIncludes(t, r[k], k);
      }
      r
    else if sep == " " then
      var r := AwkSplit(t);
      forall k | 0 <= k < |r| ensures !Includes(r[k], sep) {
        NoSpaceExcludesBlank(r[k]);
      }
      r
    else
      var fields := SplitFields(t, sep);
      SplitFieldsParts(t, sep);
      assert t == "" ==> fields == [""];
      var r := DropTrailingEmpty(fields);
      assert forall k :: 0 <= k < |r| ==> r[k] == fields[k];
      r
  }

  lemma NoSpaceExcludesBlank(w: string)
    requires NoAwkSpace(w)
    ensures !Includes(w, " ")
  {
    forall i | 0 <= i ensures !OccursAt(w, " ", i) {
      if i + 1 <= |w| {
        assert w[i..i + 1] == [w[i]];
      }
    }
  }

  /** A text with no trailing separator splits into all of its fields, so
      joining them with the separator gives the text back. */
  lemma RubySplitJoin(t: string, sep: string)
    requires sep != "" && sep != " "
    requires t != "" && !EndsWith(t, sep)
    ensures RubySplit(t, sep) == SplitFields(t, sep)
    ensures Join(RubySplit(t, sep), sep) == t
  {
    SplitFieldsLastEmpty(t, sep);
    SplitFieldsJoin(t, sep);
  }

  // ---------------------------------------------------------------------
  // Facts for texts whose fields avoid a character
  // ---------------------------------------------------------------------

  predicate Lacks(t: string, c: char) {
    forall i :: 0 <= i < |t| ==> t[i] != c
  }

  lemma IncludesEmpty(t: string)
    ensures Includes(t, "")
  {
    assert t[..0] == "";
  }

  /** A text lacking the first character of a pattern does not include it. */
  lemma LacksExcludes(t: string, p: string)
    requires |p| > 0 && Lacks(t, p[0])
    ensures !Includes(t, p)
  {
    forall i | 0 <= i && i + |p| <= |t| ensures !OccursAt(t, p, i) {
      assert t[i..i + |p|][0] == t[i];
    }
  }

  /** The first occurrence of `p` in `a + p + b` is right after `a` when `a`
      lacks the first character of `p`. */
  lemma IndexOfConcat(a: string, p: string, b: string)
    requires |p| > 0 && Lacks(a, p[0])
    ensures IndexOf(a + p + b, p) == Some(|a|)
  {
    var t := a + p + b;
    assert t[|a|..|a| + |p|] == p;
    assert OccursAt(t, p, |a|);
    var j := IndexOf(t, p).value;
    assert t[j..j + |p|][0] == t[j];
  }

  lemma SplitFieldsConcat(a: string, p: string, b: string)
    requires |p| > 0 && Lacks(a, p[0])
    ensures SplitFields(a + p + b, p) == [a] + SplitFields(b, p)
  {
    var t := a + p + b;
    IndexOfConcat(a, p, b);
    assert t[..|a|] == a;
    assert t[|a| + |p|..] == b;
  }

  lemma SplitFieldsLacking(a: string, p: string)
    requires |p| > 0 && Lacks(a, p[0])
    ensures SplitFields(a, p) == [a]
  {
    LacksExcludes(a, p);
  }
}
