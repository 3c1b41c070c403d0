/** Style-preserving placeholder substitution inside one paragraph
    (`advanced_replace_text_preserving_style` / `replace_in_paragraph`).

    A paragraph is an array of runs; a run is a text with a font. For each
    key in mapping order, the paragraph's ORIGINAL text (taken once, before
    any key) decides whether the key is tried at all. When it is, the runs are
    accumulated from the first one until the accumulated text contains
    `{{KEY}}`; that least covering prefix is the group. Every occurrence inside
    the group's text is replaced, the whole result goes to the first run with
    the font of the anchor run, the other runs of the group are emptied, and
    runs after the group are left alone. No run is ever added or removed. */
module Substitution {
  import opened Wrappers
  import opened Text

  datatype Rgb = Rgb(red: int, green: int, blue: int)

  /** The six font attributes app.py copies; each may be unset. */
  datatype Font = Font(
    name: Option<string>,
    size: Option<nat>,
    bold: Option<bool>,
    italic: Option<bool>,
    underline: Option<bool>,
    color: Option<Rgb>)

  datatype Run = Run(text: string, font: Font)

  /** One entry of the replacement mapping, in insertion order. */
  datatype Field = Field(key: string, value: string)

  type Paragraph = array<Run>

  /** The token `{{KEY}}` that stands for a key in a template. */
  function Placeholder(key: string): (p: string)
    ensures |p| == |key| + 4 && p[0] == '{' && p[|p| - 1] == '}'
    ensures p[1..|p| - 1] == "{" + key + "}"
  {
    "{{" + key + "}}"
  }

  /** `''.join(run.text for run in runs)`. */
  function Joined(runs: seq<Run>): string
  {
    if runs == [] then "" else Joined(runs[..|runs| - 1]) + runs[|runs| - 1].text
  }

  /** The text of the first `n` runs contains `p`. */
  predicate PrefixCovers(runs: seq<Run>, p: string, n: nat)
  {
    n <= |runs| && Contains(Joined(runs[..n]), p)
  }

  /** The index of the last run of the least prefix whose text contains `p`;
      None when even the whole paragraph's text does not. */
  function FirstCover(runs: seq<Run>, p: string): (r: Option<nat>)
    ensures r.Some? ==> r.value < |runs|
  {
    if runs == [] then None
    else match FirstCover(runs[..|runs| - 1], p)
      case Some(k) => Some(k)
      case None => if Contains(Joined(runs), p) then Some(|runs| - 1) else None
  }

  /** `next((r for r in group if p in r.text), ...)`: the first run of the
      group whose own text contains `p`. */
  function FirstContaining(group: seq<Run>, p: string): (r: Option<nat>)
    ensures r.Some? ==> r.value < |group| && Contains(group[r.value].text, p)
    ensures r.Some? ==> forall j :: 0 <= j < r.value ==> !Contains(group[j].text, p)
    ensures r.None? ==> forall j :: 0 <= j < |group| ==> !Contains(group[j].text, p)
  {
    if group == [] then None
    else if Contains(group[0].text, p) then Some(0)
    else match FirstContaining(group[1..], p)
      case Some(j) => Some(j + 1)
      case None => None
  }

  /** The font copied onto the group's first run: the first run whose own text
      holds the whole placeholder, falling back to the group's first run. */
  function AnchorFont(group: seq<Run>, p: string): (f: Font)
    requires group != []
    ensures f == group[0].font || exists j :: 0 <= j < |group| && Contains(group[j].text, p) && f == group[j].font
    ensures (forall j :: 0 <= j < |group| ==> !Contains(group[j].text, p)) ==> f == group[0].font
  {
    match FirstContaining(group, p)
    case Some(j) => group[j].font
    case None => group[0].font
  }

  /** The runs with their texts cleared and their fonts kept. */
  function Blanked(runs: seq<Run>): (r: seq<Run>)
    ensures |r| == |runs|
    ensures forall j :: 0 <= j < |r| ==> r[j] == runs[j].(text := "")
  {
    seq(|runs|, j requires 0 <= j < |runs| => runs[j].(text := ""))
  }

  /** The group's first run after the merge: the group's text with every
      occurrence of `p` replaced, in the anchor's font. */
  function Merged(group: seq<Run>, p: string, value: string): Run
    requires group != [] && p != []
  {
    group[0].(text := ReplaceAll(Joined(group), p, value), font := AnchorFont(group, p))
  }

  /** One pass of the key loop: the paragraph after trying `key`, given the
      paragraph text `fullText` taken before the first key. */
  function KeyApplied(runs: seq<Run>, fullText: string, key: string, value: string): (r: seq<Run>)
    ensures |r| == |runs|
  {
    var p := Placeholder(key);
    if !Contains(fullText, p) then runs
    else match FirstCover(runs, p)
      case None => runs
      case Some(k) =>
        [Merged(runs[..k + 1], p, value)] + Blanked(runs[1..k + 1]) + runs[k + 1..]
  }

  /** The keys applied in mapping order, each tested against `fullText`. */
  function KeysApplied(runs: seq<Run>, fullText: string, fields: seq<Field>): (r: seq<Run>)
    ensures |r| == |runs|
    decreases |fields|
  {
    if fields == [] then runs
    else
      var last := fields[|fields| - 1];
      KeyApplied(KeysApplied(runs, fullText, fields[..|fields| - 1]), fullText, last.key, last.value)
  }

  /** What `replace_in_paragraph` leaves in a paragraph. */
  function ParagraphFilled(runs: seq<Run>, fields: seq<Field>): seq<Run>
  {
    KeysApplied(runs, Joined(runs), fields)
  }

  // ---------------------------------------------------------------------
  // The in-place procedure
  // ---------------------------------------------------------------------

  /** The body of the key loop for one key: accumulate runs from the first
      until the placeholder is covered, then merge that group into its first
      run and stop. */
  method ApplyKey(a: Paragraph, fullText: string, key: string, value: string)
    modifies a
    ensures a[..] == KeyApplied(old(a[..]), fullText, key, value)
  {
    var placeholder := Placeholder(key);
    if Contains(fullText, placeholder) {
      var accumulated := "";
      var i := 0;
      while i < a.Length
        invariant 0 <= i <= a.Length
        invariant accumulated == Joined(a[..i])
        invariant FirstCover(a[..i], placeholder) == None
      {
        accumulated := accumulated + a[i].text;
        assert a[..i + 1][..i] == a[..i];
        if Contains(accumulated, placeholder) {
          CoverFound(a[..], fullText, key, value, i);
          MergeGroup(a, i, accumulated, placeholder, value);
          return;
        }
        i := i + 1;
      }
      assert a[..i] == a[..];
    }
  }

  /** The group `a[..k + 1]`, whose text is `accumulated`: every occurrence of
      `p` in that text is replaced, the result goes to run 0 with the font of
      the first run holding `p` (or of run 0), and runs 1..k are emptied. */
  method MergeGroup(a: Paragraph, k: nat, accumulated: string, p: string, value: string)
    requires p != [] && k < a.Length && accumulated == Joined(a[..k + 1])
    modifies a
    ensures a[..] == [Merged(old(a[..])[..k + 1], p, value)] + Blanked(old(a[..])[1..k + 1]) + old(a[..])[k + 1..]
  {
    ghost var runs := a[..];
    var font := AnchorFont(a[..k + 1], p);
    var merged := ReplaceAll(accumulated, p, value);
    for j := 0 to k + 1
      invariant forall m :: 0 <= m < j ==> a[m] == runs[m].(text := "")
      invariant forall m :: j <= m < a.Length ==> a[m] == runs[m]
    {
      a[j] := a[j].(text := "");
    }
    // the merged text, and the anchor's name, size, bold, italic,
    // underline and colour, all go to the group's first run
    a[0] := a[0].(text := merged, font := font);
    MergeShape(runs, k, Merged(runs[..k + 1], p, value), a[..]);
  }

  /** `replace_in_paragraph`: the paragraph's text is taken once, then every
      key is tried in mapping order. */
  method ReplaceInParagraph(a: Paragraph, fields: seq<Field>)
    modifies a
    ensures a[..] == ParagraphFilled(old(a[..]), fields)
  {
    var fullText := Joined(a[..]);
    for n := 0 to |fields|
      invariant a[..] == KeysApplied(old(a[..]), fullText, fields[..n])
    {
      assert fields[..n + 1][..n] == fields[..n];
      ApplyKey(a, fullText, fields[n].key, fields[n].value);
    }
    assert fields[..|fields|] == fields;
  }

  // ---------------------------------------------------------------------
  // Properties
  // ---------------------------------------------------------------------

  /** The text of a prefix of the runs is a prefix of the whole text. */
  lemma {:induction false} JoinedPrefix(runs: seq<Run>, n: nat)
    requires n <= |runs|
    ensures Joined(runs[..n]) <= Joined(runs)
    decreases |runs|
  {
    if n < |runs| {
      var init := runs[..|runs| - 1];
      assert runs[..n] == init[..n];
      JoinedPrefix(init, n);
    } else {
      assert runs[..n] == runs;
    }
  }

  /** Joined distributes over concatenation. */
  lemma {:induction false} JoinedAppend(xs: seq<Run>, ys: seq<Run>)
    ensures Joined(xs + ys) == Joined(xs) + Joined(ys)
    decreases |ys|
  {
    if ys == [] {
      assert xs + ys == xs;
    } else {
      var init, last := ys[..|ys| - 1], ys[|ys| - 1];
      assert (xs + ys)[..|xs + ys| - 1] == xs + init;
      assert (xs + ys)[|xs + ys| - 1] == last;
      JoinedAppend(xs, init);
      assert Joined(xs + ys) == Joined(xs + init) + last.text;
      assert Joined(ys) == Joined(init) + last.text;
    }
  }

  /** Emptied runs contribute no text. */
  lemma {:induction false} JoinedBlanked(runs: seq<Run>)
    ensures Joined(Blanked(runs)) == ""
    decreases |runs|
  {
    if runs != [] {
      var init := runs[..|runs| - 1];
      assert Blanked(runs)[..|runs| - 1] == Blanked(init);
      JoinedBlanked(init);
    }
  }

  /** A cover found in a prefix is the cover of the whole paragraph. */
  lemma {:induction false} FirstCoverPrefix(runs: seq<Run>, n: nat, p: string)
    requires n <= |runs|
    requires FirstCover(runs[..n], p).Some?
    ensures FirstCover(runs, p) == FirstCover(runs[..n], p)
    decreases |runs|
  {
    if n < |runs| {
      var init := runs[..|runs| - 1];
      assert runs[..n] == init[..n];
      FirstCoverPrefix(init, n, p);
    } else {
      assert runs[..n] == runs;
    }
  }

  /** FirstCover finds nothing exactly when the paragraph's text lacks `p`. */
  lemma {:induction false} FirstCoverNone(runs: seq<Run>, p: string)
    requires p != []
    ensures FirstCover(runs, p) == None <==> !Contains(Joined(runs), p)
    decreases |runs|
  {
    if runs != [] {
      var init := runs[..|runs| - 1];
      FirstCoverNone(init, p);
      assert Joined(runs) == Joined(init) + runs[|runs| - 1].text;
      if Contains(Joined(init), p) {
        ContainsAppendRight(Joined(init), runs[|runs| - 1].text, p);
        assert FirstCover(init, p).Some?;
      }
    }
  }

  /** The group ends at the least k whose prefix runs[..k+1] contains `p`. */
  lemma {:induction false} FirstCoverIsLeast(runs: seq<Run>, p: string, k: nat)
    requires p != []
    ensures FirstCover(runs, p) == Some(k) <==>
              PrefixCovers(runs, p, k + 1) && forall n :: 1 <= n <= k ==> !PrefixCovers(runs, p, n)
    decreases |runs|
  {
    if runs != [] {
      var last := |runs| - 1;
      var init := runs[..last];
      assert runs[..last + 1] == runs;
      PrefixCoversInit(runs, p);
      match FirstCover(init, p)
      case Some(k0) =>
        FirstCoverIsLeast(init, p, k);
        FirstCoverIsLeast(init, p, k0);
        assert PrefixCovers(runs, p, k0 + 1);
      case None =>
        FirstCoverNone(init, p);
        NoPrefixCovers(init, p);
    }
  }

  /** Dropping the last run changes no proper prefix. */
  lemma PrefixCoversInit(runs: seq<Run>, p: string)
    requires runs != []
    ensures forall n :: 0 <= n < |runs| ==>
              PrefixCovers(runs, p, n) == PrefixCovers(runs[..|runs| - 1], p, n)
  {
    var init := runs[..|runs| - 1];
    assert forall n :: 0 <= n < |runs| ==> runs[..n] == init[..n];
  }

  /** When the whole text lacks `p`, so does the text of every prefix. */
  lemma NoPrefixCovers(runs: seq<Run>, p: string)
    requires !Contains(Joined(runs), p)
    ensures forall n :: 0 <= n <= |runs| ==> !PrefixCovers(runs, p, n)
  {
    forall n | 0 <= n <= |runs| ensures !PrefixCovers(runs, p, n) {
      JoinedPrefix(runs, n);
      if Contains(Joined(runs[..n]), p) {
        ContainsPrefix(Joined(runs[..n]), Joined(runs), p);
      }
    }
  }

  /** Within the least covering group only the last run can hold the whole
      placeholder, so the anchor is that run when it does and run 0 otherwise. */
  lemma AnchorIsLastOrFirst(runs: seq<Run>, p: string, k: nat)
    requires p != []
    requires FirstCover(runs, p) == Some(k)
    ensures AnchorFont(runs[..k + 1], p) ==
              if Contains(runs[k].text, p) then runs[k].font else runs[0].font
  {
    FirstCoverIsLeast(runs, p, k);
    var group := runs[..k + 1];
    forall j | 0 <= j < k ensures !Contains(group[j].text, p) {
      EarlierRunLacks(runs, p, j);
    }
    AnchorOfGroup(group, p);
  }

  /** When no run but the last can hold `p`, the anchor is the last run if it
      does and the first run otherwise. */
  lemma AnchorOfGroup(group: seq<Run>, p: string)
    requires group != []
    requires forall j :: 0 <= j < |group| - 1 ==> !Contains(group[j].text, p)
    ensures AnchorFont(group, p) ==
              if Contains(group[|group| - 1].text, p) then group[|group| - 1].font else group[0].font
  {
    if Contains(group[|group| - 1].text, p) {
      assert FirstContaining(group, p) == Some(|group| - 1);
    } else {
      assert FirstContaining(group, p) == None;
    }
  }

  /** A run whose prefix does not cover `p` does not hold `p` itself. */
  lemma EarlierRunLacks(runs: seq<Run>, p: string, j: nat)
    requires j < |runs| && !PrefixCovers(runs, p, j + 1)
    ensures !Contains(runs[j].text, p)
  {
    assert runs[..j + 1][..j] == runs[..j];
    assert Joined(runs[..j + 1]) == Joined(runs[..j]) + runs[j].text;
    if Contains(runs[j].text, p) {
      ContainsAppendLeft(Joined(runs[..j]), runs[j].text, p);
    }
  }

  /** KeyApplied once its group is known. */
  lemma KeyAppliedUnfold(runs: seq<Run>, fullText: string, key: string, value: string, k: nat)
    requires Contains(fullText, Placeholder(key))
    requires FirstCover(runs, Placeholder(key)) == Some(k)
    ensures KeyApplied(runs, fullText, key, value) ==
              [Merged(runs[..k + 1], Placeholder(key), value)] + Blanked(runs[1..k + 1]) + runs[k + 1..]
  {
  }

  /** When the accumulated text of runs[..k+1] is the first to contain the
      placeholder, that prefix is the group KeyApplied merges. */
  lemma CoverFound(runs: seq<Run>, fullText: string, key: string, value: string, k: nat)
    requires k < |runs| && Contains(fullText, Placeholder(key))
    requires FirstCover(runs[..k], Placeholder(key)) == None
    requires Contains(Joined(runs[..k + 1]), Placeholder(key))
    ensures FirstCover(runs, Placeholder(key)) == Some(k)
    ensures KeyApplied(runs, fullText, key, value) ==
              [Merged(runs[..k + 1], Placeholder(key), value)] + Blanked(runs[1..k + 1]) + runs[k + 1..]
  {
    assert runs[..k + 1][..k] == runs[..k];
    FirstCoverPrefix(runs, k + 1, Placeholder(key));
  }

  /** The runs of a merged paragraph, one by one. */
  lemma ShapeAt(runs: seq<Run>, k: nat, head: Run)
    requires k < |runs|
    ensures var r := [head] + Blanked(runs[1..k + 1]) + runs[k + 1..];
            |r| == |runs| && r[0] == head
            && (forall j :: 1 <= j <= k ==> r[j] == runs[j].(text := ""))
            && (forall j :: k < j < |runs| ==> r[j] == runs[j])
  {
    var r := [head] + Blanked(runs[1..k + 1]) + runs[k + 1..];
    forall j | 1 <= j <= k ensures r[j] == runs[j].(text := "") {
      assert r[j] == Blanked(runs[1..k + 1])[j - 1];
    }
    forall j | k < j < |runs| ensures r[j] == runs[j] {
      assert r[j] == runs[k + 1..][j - k - 1];
    }
  }

  /** The text of a merged paragraph: the head's text, then the rest's. */
  lemma JoinedMerge(head: Run, blank: seq<Run>, rest: seq<Run>)
    requires Joined(blank) == ""
    ensures Joined([head] + blank + rest) == head.text + Joined(rest)
  {
    JoinedAppend([head] + blank, rest);
    JoinedAppend([head], blank);
    assert Joined([head]) == Joined([head][..0]) + head.text;
  }

  /** A paragraph whose first run is `head`, whose runs 1..k are emptied and
      whose later runs are untouched is the merge KeyApplied describes. */
  lemma MergeShape(runs: seq<Run>, k: nat, head: Run, result: seq<Run>)
    requires k < |runs| && |result| == |runs| && result[0] == head
    requires forall m :: 1 <= m <= k ==> result[m] == runs[m].(text := "")
    requires forall m :: k < m < |runs| ==> result[m] == runs[m]
    ensures result == [head] + Blanked(runs[1..k + 1]) + runs[k + 1..]
  {
    var expected := [head] + Blanked(runs[1..k + 1]) + runs[k + 1..];
    forall m | 0 <= m < |runs| ensures result[m] == expected[m] {
      if 1 <= m <= k {
        assert expected[m] == Blanked(runs[1..k + 1])[m - 1];
      } else if k < m {
        assert expected[m] == runs[k + 1..][m - k - 1];
      }
    }
  }

  /** A key whose placeholder is missing from the original text, or from the
      paragraph's current text, leaves every run's text and font unchanged. */
  lemma KeyAbsentUnchanged(runs: seq<Run>, fullText: string, key: string, value: string)
    requires !Contains(fullText, Placeholder(key)) || !Contains(Joined(runs), Placeholder(key))
    ensures KeyApplied(runs, fullText, key, value) == runs
  {
    FirstCoverNone(runs, Placeholder(key));
  }

  /** The effect of a key whose placeholder the original text contains and
      whose least covering group is runs[..k+1]: run 0 receives the group's
      text with every occurrence replaced, and the anchor's font; runs 1..k
      are emptied but keep their fonts; later runs are untouched. */
  lemma KeyAppliedEffect(runs: seq<Run>, fullText: string, key: string, value: string, k: nat)
    requires Contains(fullText, Placeholder(key))
    requires PrefixCovers(runs, Placeholder(key), k + 1)
    requires forall n :: 1 <= n <= k ==> !PrefixCovers(runs, Placeholder(key), n)
    ensures var r := KeyApplied(runs, fullText, key, value);
            var p := Placeholder(key);
            |r| == |runs|
            && r[0].text == ReplaceAll(Joined(runs[..k + 1]), p, value)
            && r[0].font == (if Contains(runs[k].text, p) then runs[k].font else runs[0].font)
            && (forall j :: 1 <= j <= k ==> r[j].text == "" && r[j].font == runs[j].font)
            && (forall j :: k < j < |runs| ==> r[j] == runs[j])
  {
    var p := Placeholder(key);
    FirstCoverIsLeast(runs, p, k);
    AnchorIsLastOrFirst(runs, p, k);
    KeyAppliedUnfold(runs, fullText, key, value, k);
    ShapeAt(runs, k, Merged(runs[..k + 1], p, value));
  }

  /** After a key is applied the paragraph's text is the covering group's text
      with the placeholder replaced, followed by the untouched rest. */
  lemma KeyAppliedText(runs: seq<Run>, fullText: string, key: string, value: string, k: nat)
    requires Contains(fullText, Placeholder(key))
    requires FirstCover(runs, Placeholder(key)) == Some(k)
    ensures Joined(KeyApplied(runs, fullText, key, value)) ==
              ReplaceAll(Joined(runs[..k + 1]), Placeholder(key), value) + Joined(runs[k + 1..])
  {
    var p := Placeholder(key);
    KeyAppliedUnfold(runs, fullText, key, value, k);
    JoinedBlanked(runs[1..k + 1]);
    JoinedMerge(Merged(runs[..k + 1], p, value), Blanked(runs[1..k + 1]), runs[k + 1..]);
  }

  /** When the replacement value is non-empty, free of braces and not inside
      the key, the merged run holds no occurrence of the placeholder. */
  lemma MergedRunFreeOfPlaceholder(runs: seq<Run>, fullText: string, key: string, value: string, k: nat)
    requires Contains(fullText, Placeholder(key))
    requires FirstCover(runs, Placeholder(key)) == Some(k)
    requires value != [] && '{' !in value && '}' !in value && !Contains(key, value)
    ensures !Contains(KeyApplied(runs, fullText, key, value)[0].text, Placeholder(key))
  {
    var p := Placeholder(key);
    KeyAppliedUnfold(runs, fullText, key, value, k);
    InnerFree(key, value);
    ReplaceAllLeavesNoOccurrence(Joined(runs[..k + 1]), p, value);
  }

  /** A brace-free value occurs in `"{" + key + "}"` only inside `key`. */
  lemma InnerFree(key: string, value: string)
    requires value != [] && '{' !in value && '}' !in value && !Contains(key, value)
    ensures !Contains("{" + key + "}", value)
  {
    ContainsIff(key, value);
    forall i ensures !OccursAt("{" + key + "}", value, i) {
      InnerWindow(key, value, i);
    }
    ContainsIff("{" + key + "}", value);
  }

  /** One window of `"{" + key + "}"`: it holds a brace-free value only as a
      window of `key` shifted by one. */
  lemma InnerWindow(key: string, value: string, i: int)
    requires value != [] && '{' !in value && '}' !in value && !OccursAt(key, value, i - 1)
    ensures !OccursAt("{" + key + "}", value, i)
  {
    var inner := "{" + key + "}";
    if 0 < i && i + |value| < |inner| {
      WindowShift(key, value, i);
    } else if OccursAt(inner, value, i) {
      WindowEnds(inner, value, i);
    }
  }

  /** A window of `"{" + key + "}"` clear of both braces is a window of `key`. */
  lemma WindowShift(key: string, value: string, i: int)
    requires 0 < i && i + |value| < |key| + 2
    ensures OccursAt("{" + key + "}", value, i) <==> OccursAt(key, value, i - 1)
  {
    var inner := "{" + key + "}";
    assert inner[i..i + |value|] == key[i - 1..i - 1 + |value|];
  }

  /** The first and last characters of a window belong to what occurs there. */
  lemma WindowEnds(s: string, v: string, i: int)
    requires v != [] && OccursAt(s, v, i)
    ensures s[i] in v && s[i + |v| - 1] in v
  {
    assert s[i] == v[0] && s[i + |v| - 1] == v[|v| - 1];
  }

  /** Applying the fields `xs + ys` is applying `xs`, then `ys`. */
  lemma {:induction false} KeysAppliedConcat(runs: seq<Run>, fullText: string, xs: seq<Field>, ys: seq<Field>)
    ensures KeysApplied(runs, fullText, xs + ys) ==
              KeysApplied(KeysApplied(runs, fullText, xs), fullText, ys)
    decreases |ys|
  {
    if ys == [] {
      assert xs + ys == xs;
    } else {
      var init := ys[..|ys| - 1];
      assert (xs + ys)[..|xs + ys| - 1] == xs + init;
      KeysAppliedConcat(runs, fullText, xs, init);
    }
  }

  /** A paragraph whose text holds none of the placeholders is left as is,
      which makes a second pass over an already filled paragraph a no-op
      whenever the first pass left no placeholder behind. */
  lemma {:induction false} ParagraphWithoutPlaceholders(runs: seq<Run>, fields: seq<Field>)
    requires forall f :: f in fields ==> !Contains(Joined(runs), Placeholder(f.key))
    ensures ParagraphFilled(runs, fields) == runs
    decreases |fields|
  {
    if fields != [] {
      var init := fields[..|fields| - 1];
      ParagraphWithoutPlaceholders(runs, init);
      var last := fields[|fields| - 1];
      KeyAbsentUnchanged(runs, Joined(runs), last.key, last.value);
    }
  }

  /** With a single field, the paragraph is that one key applied. */
  lemma SingleField(runs: seq<Run>, f: Field)
    ensures ParagraphFilled(runs, [f]) == KeyApplied(runs, Joined(runs), f.key, f.value)
  {
    assert [f][..0] == [];
    assert KeysApplied(runs, Joined(runs), [f]) ==
             KeyApplied(KeysApplied(runs, Joined(runs), []), Joined(runs), f.key, f.value);
  }

  // ---------------------------------------------------------------------
  // Scenarios
  // ---------------------------------------------------------------------

  /** A placeholder split over three runs, `{{`, the key and `}}`, as
      Word often stores it: the value lands in the first run, in that run's
      font (no run holds the whole placeholder), and the other two runs are
      emptied. */
  lemma SplitTokenScenario(key: string, value: string, f1: Font, f2: Font, f3: Font)
    ensures ParagraphFilled([Run("{{", f1), Run(key, f2), Run("}}", f3)], [Field(key, value)])
            == [Run(value, f1), Run("", f2), Run("", f3)]
  {
    var runs := [Run("{{", f1), Run(key, f2), Run("}}", f3)];
    var p := Placeholder(key);
    SplitTokenCover(runs, key);
    assert runs[..3] == runs;
    assert ReplaceAll(p, p, value) == value by {
      assert p[..|p|] == p && p[|p|..] == [];
    }
    SingleField(runs, Field(key, value));
    KeyAppliedUnfold(runs, Joined(runs), key, value, 2);
    assert runs[1..3] == [runs[1], runs[2]];
  }

  lemma SplitTokenCover(runs: seq<Run>, key: string)
    requires |runs| == 3 && runs[0].text == "{{" && runs[1].text == key && runs[2].text == "}}"
    ensures Joined(runs) == Placeholder(key)
    ensures FirstCover(runs, Placeholder(key)) == Some(2)
    ensures FirstContaining(runs, Placeholder(key)) == None
  {
    var p := Placeholder(key);
    assert runs[..2][..1] == runs[..1] && runs[..1][..0] == [] && runs[..3] == runs;
    assert Joined(runs[..1]) == "{{";
    assert Joined(runs[..2]) == "{{" + key;
    assert FirstCover(runs[..2], p) == None by {
      assert !Contains("{{", p) && !Contains("{{" + key, p);
    }
    assert p[..|p|] == p;
    assert runs[1..][1..] == [runs[2]];
    assert !Contains("{{", p) && !Contains(key, p) && !Contains("}}", p);
  }

  /** A placeholder held whole by run 0 is replaced inside run 0, which keeps
      its font; no other run changes. */
  lemma {:induction false} FirstRunHoldsPlaceholder(r0: Run, rest: seq<Run>, key: string, value: string)
    requires Contains(r0.text, Placeholder(key))
    ensures ParagraphFilled([r0] + rest, [Field(key, value)]) ==
              [r0.(text := ReplaceAll(r0.text, Placeholder(key), value))] + rest
  {
    var runs := [r0] + rest;
    var p := Placeholder(key);
    assert runs[..1] == [r0] && [r0][..0] == [];
    assert Joined([r0]) == r0.text;
    assert FirstCover(runs, p) == Some(0) by {
      assert FirstCover(runs[..1], p) == Some(0);
      FirstCoverPrefix(runs, 1, p);
    }
    assert Contains(Joined(runs), p) by {
      FirstCoverNone(runs, p);
    }
    assert FirstContaining([r0], p) == Some(0);
    SingleField(runs, Field(key, value));
    KeyAppliedUnfold(runs, Joined(runs), key, value, 0);
    assert Blanked(runs[1..1]) == [] && runs[1..] == rest;
  }

  /** The merge stops at the first run that covers the placeholder: a second
      occurrence in a later run is left as it is. */
  lemma LaterOccurrenceKept(key: string, value: string, f: Font, g: Font)
    ensures ParagraphFilled([Run(Placeholder(key), f), Run(Placeholder(key), g)], [Field(key, value)])
            == [Run(value, f), Run(Placeholder(key), g)]
  {
    var p := Placeholder(key);
    assert p[..|p|] == p && p[|p|..] == [];
    assert Contains(p, p);
    assert ReplaceAll(p, p, value) == value by {
      assert ReplaceAll(p, p, value) == value + ReplaceAll([], p, value);
      assert value + [] == value;
    }
    FirstRunHoldsPlaceholder(Run(p, f), [Run(p, g)], key, value);
    assert [Run(p, f)] + [Run(p, g)] == [Run(p, f), Run(p, g)];
    assert Run(p, f).(text := value) == Run(value, f);
  }

  /** A placeholder held by run 1 but not by run 0 pulls run 0's text into the
      merge, and run 0 takes run 1's font; run 1 is emptied. */
  lemma SecondRunHoldsPlaceholder(r0: Run, r1: Run, key: string, value: string)
    requires !Contains(r0.text, Placeholder(key)) && Contains(r1.text, Placeholder(key))
    ensures ParagraphFilled([r0, r1], [Field(key, value)]) ==
              [Run(ReplaceAll(r0.text + r1.text, Placeholder(key), value), r1.font), r1.(text := "")]
  {
    var runs := [r0, r1];
    var p := Placeholder(key);
    assert runs[..1] == [r0] && [r0][..0] == [] && runs[..2] == runs;
    assert Joined([r0]) == r0.text;
    assert Joined(runs) == r0.text + r1.text;
    ContainsAppendLeft(r0.text, r1.text, p);
    assert FirstCover(runs, p) == Some(1) by {
      assert FirstCover(runs[..1], p) == None;
    }
    assert FirstContaining(runs, p) == Some(1) by {
      assert runs[1..] == [r1];
    }
    SingleField(runs, Field(key, value));
    KeyAppliedUnfold(runs, Joined(runs), key, value, 1);
    assert runs[1..2] == [r1] && Blanked(runs[1..2]) == [r1.(text := "")] && runs[2..] == [];
  }

  /** Keys are tested against the text taken before the first key: a key
      whose placeholder the original paragraph lacks changes nothing, even
      when an earlier value has since put that placeholder into a run. */
  lemma LaterKeyTestedAgainstOriginal(runs: seq<Run>, fields: seq<Field>, f: Field)
    requires !Contains(Joined(runs), Placeholder(f.key))
    ensures ParagraphFilled(runs, fields + [f]) == ParagraphFilled(runs, fields)
  {
    assert (fields + [f])[..|fields|] == fields;
    KeyAbsentUnchanged(KeysApplied(runs, Joined(runs), fields), Joined(runs), f.key, f.value);
  }
}
