/** The clipboard item-text translator of main.go: it turns a Japanese Path of
    Exile item tooltip back into English, line by line, using three word lists
    (dictionary, stat patterns, affixes). Clipboard access, goroutines and file
    loading are outside the model; the stat-pattern matcher is the parameter
    `mods`. */
module Translator {
  import opened Seqs
  import opened GoStrings

  /** One record of a word list (the `Dictionary` struct of main.go). */
  datatype Pair = Pair(English: string, Japanese: string)

  const Divider := "--------"
  const RarityLabel := "Rarity:"
  const ItemClass := "アイテムクラス"

  // ---------------------------------------------------------------------
  // search_dict

  /** Entry `k` is the first whose Japanese text equals `word`. */
  ghost predicate FirstJapaneseAt(dict: seq<Pair>, word: string, k: int)
  {
    0 <= k < |dict| && dict[k].Japanese == word &&
    forall j :: 0 <= j < k ==> dict[j].Japanese != word
  }

  /** The reverse (Japanese to English) dictionary lookup. */
  function Lookup(dict: seq<Pair>, word: string): (r: string)
    ensures forall k :: FirstJapaneseAt(dict, word, k) ==> r == dict[k].English
    ensures (forall k :: 0 <= k < |dict| ==> dict[k].Japanese != word) ==> r == word
  {
    match FirstIndex(dict, (d: Pair) => d.Japanese == word)
    case Some(k) => dict[k].English
    case None => word
  }

  method SearchDict(dict: seq<Pair>, word: string) returns (r: string)
    ensures r == Lookup(dict, word)
  {
    for i := 0 to |dict|
      invariant forall j :: 0 <= j < i ==> dict[j].Japanese != word
    {
      if dict[i].Japanese == word {
        return dict[i].English;
      }
    }
    return word;
  }

  // ---------------------------------------------------------------------
  // search_affix

  /** Affix `k` is the first whose Japanese text starts `text`. */
  ghost predicate FirstPrefixAt(affixes: seq<Pair>, text: string, k: int)
  {
    0 <= k < |affixes| && HasPrefix(text, affixes[k].Japanese) &&
    forall j :: 0 <= j < k ==> !HasPrefix(text, affixes[j].Japanese)
  }

  /** Affix `k` is the first whose Japanese text ends `text`. */
  ghost predicate FirstSuffixAt(affixes: seq<Pair>, text: string, k: int)
  {
    0 <= k < |affixes| && HasSuffix(text, affixes[k].Japanese) &&
    forall j :: 0 <= j < k ==> !HasSuffix(text, affixes[j].Japanese)
  }

  /** The affix's Japanese text starts `text`. */
  function StartsText(text: string): Pair -> bool
  {
    (a: Pair) => HasPrefix(text, a.Japanese)
  }

  /** The affix's Japanese text ends `text`. */
  function EndsText(text: string): Pair -> bool
  {
    (a: Pair) => HasSuffix(text, a.Japanese)
  }

  /** An item name built from a prefix affix and a suffix affix. */
  function Affix(affixes: seq<Pair>, text: string): string
  {
    var prefix := FirstIndex(affixes, StartsText(text));
    var suffix := FirstIndex(affixes, EndsText(text));
    if prefix.None? || suffix.None? then text
    else affixes[prefix.value].English + affixes[suffix.value].English
  }

  /** The affix name is the text itself unless some affix starts the text and
      some affix ends it; then it is the English of the first affix that
      starts it followed by the English of the first that ends it (possibly
      the same affix). */
  lemma AffixFirstMatches(affixes: seq<Pair>, text: string)
    ensures (forall k :: 0 <= k < |affixes| ==> !HasPrefix(text, affixes[k].Japanese)) ==>
      Affix(affixes, text) == text
    ensures (forall k :: 0 <= k < |affixes| ==> !HasSuffix(text, affixes[k].Japanese)) ==>
      Affix(affixes, text) == text
    ensures forall p, q :: FirstPrefixAt(affixes, text, p) && FirstSuffixAt(affixes, text, q) ==>
      Affix(affixes, text) == affixes[p].English + affixes[q].English
  {
    var starts, ends := StartsText(text), EndsText(text);
    if forall k :: 0 <= k < |affixes| ==> !HasPrefix(text, affixes[k].Japanese) {
      FirstIndexNone(affixes, starts);
    }
    if forall k :: 0 <= k < |affixes| ==> !HasSuffix(text, affixes[k].Japanese) {
      FirstIndexNone(affixes, ends);
    }
    forall p, q | FirstPrefixAt(affixes, text, p) && FirstSuffixAt(affixes, text, q)
      ensures Affix(affixes, text) == affixes[p].English + affixes[q].English
    {
      FirstIndexAt(affixes, starts, p);
      FirstIndexAt(affixes, ends, q);
    }
  }

  method SearchAffix(affixes: seq<Pair>, text: string) returns (r: string)
    ensures r == Affix(affixes, text)
  {
    var prefix: Option<string> := None;
    var i := 0;
    while i < |affixes|
      invariant 0 <= i <= |affixes|
      invariant forall j :: 0 <= j < i ==> !HasPrefix(text, affixes[j].Japanese)
    {
      if HasPrefix(text, affixes[i].Japanese) {
        prefix := Some(affixes[i].English);
        break;
      }
      i := i + 1;
    }
    if prefix.Some? {
      FirstIndexAt(affixes, StartsText(text), i);
    } else {
      FirstIndexNone(affixes, StartsText(text));
    }
    var suffix: Option<string> := None;
    var k := 0;
    while k < |affixes|
      invariant 0 <= k <= |affixes|
      invariant forall j :: 0 <= j < k ==> !HasSuffix(text, affixes[j].Japanese)
    {
      if HasSuffix(text, affixes[k].Japanese) {
        suffix := Some(affixes[k].English);
        break;
      }
      k := k + 1;
    }
    if suffix.Some? {
      FirstIndexAt(affixes, EndsText(text), k);
    } else {
      FirstIndexNone(affixes, EndsText(text));
    }
    if prefix.None? || suffix.None? {
      return text;
    }
    return prefix.value + suffix.value;
  }

  // ---------------------------------------------------------------------
  // translateLine

  /** One tooltip line in English. A line holding ": " is a stat (name and
      value looked up separately), one holding ":" a label, one holding the
      divider stays as it is, and any other text is tried as a mod, then as a
      dictionary word, then as an affixed item name. */
  function TranslateLine(dict: seq<Pair>, affixes: seq<Pair>, mods: string -> string, line: string): string
  {
    if Contains(line, ": ") then
      var parts := Split(line, ": ");
      Lookup(dict, parts[0]) + ": " + Lookup(dict, parts[1])
    else if Contains(line, ":") then
      var parts := Split(line, ":");
      Lookup(dict, parts[0]) + ":"
    else if Contains(line, Divider) then
      line
    else
      var found := mods(line);
      if found != line then found
      else
        var word := Lookup(dict, line);
        if word != line then word
        else Affix(affixes, line)
  }

  /** `i` is the first position of `sub` in `line`. */
  ghost predicate FirstAt(line: string, sub: string, i: nat)
  {
    OccursAt(line, sub, i) && forall m: nat :: m < i ==> !OccursAt(line, sub, m)
  }

  lemma ColonInColonSpace(line: string, i: nat)
    requires OccursAt(line, ": ", i)
    ensures OccursAt(line, ":", i)
  {
    assert line[i..i + 1] == line[i..i + 2][..1];
  }

  /** A stat line "name: value" translates name and value separately; the
      value ends at the next ": " (or the line's end), and what follows it is
      dropped. */
  lemma StatLineTranslation(dict: seq<Pair>, affixes: seq<Pair>, mods: string -> string, line: string, i: nat, j: nat)
    requires FirstAt(line, ": ", i)
    requires i + 2 <= j <= |line| && (j == |line| || OccursAt(line, ": ", j))
    requires forall m: nat :: i + 2 <= m < j ==> !OccursAt(line, ": ", m)
    ensures TranslateLine(dict, affixes, mods, line) == Lookup(dict, line[..i]) + ": " + Lookup(dict, line[i + 2..j])
  {
    assert Index(line, ": ") == Some(i);
    var tail := line[i + 2..];
    forall m: nat | m < j - (i + 2)
      ensures !OccursAt(tail, ": ", m)
    {
      OccursInSuffix(line, ": ", i + 2, m);
    }
    if j < |line| {
      OccursInSuffix(line, ": ", i + 2, j - (i + 2));
      assert Index(tail, ": ") == Some(j - (i + 2));
      assert tail[..j - (i + 2)] == line[i + 2..j];
    } else {
      forall m: nat ensures !OccursAt(tail, ": ", m) {
        OccursInSuffix(line, ": ", i + 2, m);
      }
      assert Index(tail, ": ") == None;
      assert tail == line[i + 2..j];
    }
    assert Split(line, ": ")[1] == line[i + 2..j];
  }

  /** A label line "name:" (no ": ") keeps only the looked-up text before the
      first colon; everything after that colon is dropped. */
  lemma LabelLineTranslation(dict: seq<Pair>, affixes: seq<Pair>, mods: string -> string, line: string, i: nat)
    requires !Contains(line, ": ")
    requires FirstAt(line, ":", i)
    ensures TranslateLine(dict, affixes, mods, line) == Lookup(dict, line[..i]) + ":"
  {
    assert Index(line, ":") == Some(i);
  }

  /** A divider line without a colon is copied unchanged. */
  lemma DividerLineUnchanged(dict: seq<Pair>, affixes: seq<Pair>, mods: string -> string, line: string)
    requires Contains(line, Divider) && !Contains(line, ":")
    ensures TranslateLine(dict, affixes, mods, line) == line
  {
    ContainsIff(line, ": ");
    if Contains(line, ": ") {
      var i: nat :| OccursAt(line, ": ", i);
      ColonInColonSpace(line, i);
    }
  }

  /** Other text falls back in order: the mod matcher when it changes the
      line, else the dictionary when it changes the line, else the affix
      search. */
  lemma TextLineFallback(dict: seq<Pair>, affixes: seq<Pair>, mods: string -> string, line: string)
    requires !Contains(line, ":") && !Contains(line, Divider)
    ensures mods(line) != line ==> TranslateLine(dict, affixes, mods, line) == mods(line)
    ensures mods(line) == line && Lookup(dict, line) != line ==>
      TranslateLine(dict, affixes, mods, line) == Lookup(dict, line)
    ensures mods(line) == line && Lookup(dict, line) == line ==>
      TranslateLine(dict, affixes, mods, line) == Affix(affixes, line)
  {
    ContainsIff(line, ": ");
    if Contains(line, ": ") {
      var i: nat :| OccursAt(line, ": ", i);
      ColonInColonSpace(line, i);
    }
  }

  // ---------------------------------------------------------------------
  // isPOEItem

  /** The clipboard text is a Path of Exile item: it names an item class. */
  predicate IsPoeItem(text: string)
    ensures IsPoeItem(text) <==> exists i: nat :: OccursAt(text, ItemClass, i)
  {
    ContainsIff(text, ItemClass);
    Contains(text, ItemClass)
  }

  // ---------------------------------------------------------------------
  // splitLines (bufio.Scanner with ScanLines)

  /** A line with one trailing carriage return removed. */
  function DropCR(s: string): (r: string)
    ensures r <= s && (r == s || s == r + "\r")
  {
    if |s| > 0 && s[|s| - 1] == '\r' then s[..|s| - 1] else s
  }

  /** The lines a line scanner yields: the text up to each newline (without a
      trailing "\r"), and the rest of the text if it is not empty. */
  function ScanLines(text: string): seq<string>
    decreases |text|
  {
    if text == [] then []
    else match Index(text, "\n")
      case None => [DropCR(text)]
      case Some(i) => [DropCR(text[..i])] + ScanLines(text[i + 1..])
  }

  method SplitLines(text: string) returns (lines: seq<string>)
    ensures lines == ScanLines(text)
  {
    lines := [];
    var rest := text;
    while rest != []
      invariant lines + ScanLines(rest) == ScanLines(text)
      decreases |rest|
    {
      match Index(rest, "\n")
      case None =>
        lines := lines + [DropCR(rest)];
        rest := [];
      case Some(i) =>
        lines := lines + [DropCR(rest[..i])];
        rest := rest[i + 1..];
    }
  }

  /** No text before the first newline holds a newline. */
  lemma NoNewlineBefore(text: string, n: nat)
    requires n <= |text|
    requires forall j: nat :: j < n ==> !OccursAt(text, "\n", j)
    ensures '\n' !in text[..n]
  {
    forall j | 0 <= j < n ensures text[j] != '\n' {
      OccursChar(text, '\n', j);
    }
  }

  /** No scanned line holds a newline. */
  lemma {:induction false} ScanLinesNoNewline(text: string)
    ensures forall k :: 0 <= k < |ScanLines(text)| ==> '\n' !in ScanLines(text)[k]
    decreases |text|
  {
    if text != [] {
      match Index(text, "\n")
      case None =>
        NoNewlineBefore(text, |text|);
        assert text[..|text|] == text;
      case Some(i) =>
        NoNewlineBefore(text, i);
        ScanLinesNoNewline(text[i + 1..]);
    }
  }

  /** Every line followed by a newline: the text `translate` builds. */
  function Unlines(lines: seq<string>): string
  {
    if lines == [] then "" else lines[0] + "\n" + Unlines(lines[1..])
  }

  lemma {:induction false} UnlinesAppend(lines: seq<string>, line: string)
    ensures Unlines(lines + [line]) == Unlines(lines) + line + "\n"
  {
    if lines != [] {
      assert (lines + [line])[1..] == lines[1..] + [line];
      UnlinesAppend(lines[1..], line);
    }
  }

  /** The text with a final newline added unless it is empty or has one. */
  function Terminated(text: string): string
  {
    if text == [] || text[|text| - 1] == '\n' then text else text + "\n"
  }

  /** Scanning loses nothing but carriage returns and a missing final newline. */
  lemma {:induction false} ScanLinesRoundTrip(text: string)
    requires '\r' !in text
    ensures Unlines(ScanLines(text)) == Terminated(text)
    decreases |text|
  {
    if text != [] {
      match Index(text, "\n")
      case None =>
        NoNewlineBefore(text, |text|);
        assert text[..|text|] == text;
        assert ScanLines(text) == [text];
        assert Terminated(text) == text + "\n";
        assert Unlines([text]) == text + "\n" + "";
      case Some(i) =>
        var head, tail := text[..i], text[i + 1..];
        NewlineSplit(text, i);
        assert ScanLines(text) == [head] + ScanLines(tail);
        ScanLinesRoundTrip(tail);
        UnlinesCons(head, ScanLines(tail));
        TerminatedCons(head, tail);
    }
  }

  lemma UnlinesCons(line: string, lines: seq<string>)
    ensures Unlines([line] + lines) == line + "\n" + Unlines(lines)
  {
    assert ([line] + lines)[0] == line && ([line] + lines)[1..] == lines;
  }

  lemma TerminatedCons(head: string, tail: string)
    ensures Terminated(head + "\n" + tail) == head + "\n" + Terminated(tail)
  {
    var text := head + "\n" + tail;
    if tail == [] {
      assert text == head + "\n";
      assert text[|text| - 1] == '\n';
    } else {
      assert text[|text| - 1] == tail[|tail| - 1];
      assert text + "\n" == head + "\n" + (tail + "\n");
    }
  }

  /** Cutting a text without carriage returns at a newline. */
  lemma NewlineSplit(text: string, i: nat)
    requires '\r' !in text && OccursAt(text, "\n", i)
    ensures i < |text| && text == text[..i] + "\n" + text[i + 1..]
    ensures DropCR(text[..i]) == text[..i] && '\r' !in text[i + 1..]
  {
    OccursChar(text, '\n', i);
    assert text == text[..i] + [text[i]] + text[i + 1..];
    assert '\r' !in text[..i];
  }

  /** A line that a scanner returns unchanged. */
  predicate PlainLine(line: string)
  {
    '\n' !in line && (line == [] || line[|line| - 1] != '\r')
  }

  /** Scanning the joined lines gives them back. */
  lemma {:induction false} UnlinesScanLines(lines: seq<string>)
    requires forall k :: 0 <= k < |lines| ==> PlainLine(lines[k])
    ensures ScanLines(Unlines(lines)) == lines
  {
    if lines != [] {
      var text := Unlines(lines);
      var first := lines[0];
      assert text == first + "\n" + Unlines(lines[1..]);
      forall j: nat | j < |first| ensures !OccursAt(text, "\n", j) {
        OccursChar(text, '\n', j);
        assert text[j] == first[j];
      }
      OccursChar(text, '\n', |first|);
      assert Index(text, "\n") == Some(|first|);
      assert text[..|first|] == first;
      assert text[|first| + 1..] == Unlines(lines[1..]);
      UnlinesScanLines(lines[1..]);
    }
  }

  // ---------------------------------------------------------------------
  // translate

  /** The per-line translator `translate` applies. */
  function LineTranslator(dict: seq<Pair>, affixes: seq<Pair>, mods: string -> string): string -> string
  {
    line => TranslateLine(dict, affixes, mods, line)
  }

  /** The value of the "skip the next divider" flag before line `k`: set by a
      translated line that names the rarity, cleared when a divider is skipped. */
  function FlagBefore(lines: seq<string>, tr: string -> string, k: nat): bool
    requires k <= |lines|
  {
    if k == 0 then false
    else
      var flag := FlagBefore(lines, tr, k - 1);
      if flag && Contains(lines[k - 1], Divider) then false
      else flag || Contains(tr(lines[k - 1]), RarityLabel)
  }

  /** Line `k` is dropped without being translated. */
  predicate Skipped(lines: seq<string>, tr: string -> string, k: nat)
    requires k < |lines|
  {
    FlagBefore(lines, tr, k) && Contains(lines[k], Divider)
  }

  /** The translations of the lines before `n` that are not skipped, in order. */
  function Kept(lines: seq<string>, tr: string -> string, n: nat): seq<string>
    requires n <= |lines|
  {
    if n == 0 then []
    else Kept(lines, tr, n - 1) + (if Skipped(lines, tr, n - 1) then [] else [tr(lines[n - 1])])
  }

  /** At most one emitted line per input line, each the translation of an
      input line; all of them when no line is a divider. */
  lemma {:induction false} KeptBounds(lines: seq<string>, tr: string -> string, n: nat)
    requires n <= |lines|
    ensures |Kept(lines, tr, n)| <= n
    ensures forall x :: x in Kept(lines, tr, n) ==> exists k :: 0 <= k < n && x == tr(lines[k])
    ensures (forall k :: 0 <= k < n ==> !Contains(lines[k], Divider)) ==> |Kept(lines, tr, n)| == n
  {
    if n > 0 {
      KeptBounds(lines, tr, n - 1);
    }
  }

  /** One step of the loop of `translate`: a skipped divider clears the flag
      and adds nothing; any other line adds its translation and a newline,
      and raises the flag when the translation names the rarity. */
  lemma TranslateStep(lines: seq<string>, tr: string -> string, i: nat, flag: bool, result: string)
    requires i < |lines| && flag == FlagBefore(lines, tr, i) && result == Unlines(Kept(lines, tr, i))
    ensures flag && Contains(lines[i], Divider) ==>
              !FlagBefore(lines, tr, i + 1) && result == Unlines(Kept(lines, tr, i + 1))
    ensures !(flag && Contains(lines[i], Divider)) ==>
              FlagBefore(lines, tr, i + 1) == (flag || Contains(tr(lines[i]), RarityLabel)) &&
              result + tr(lines[i]) + "\n" == Unlines(Kept(lines, tr, i + 1))
  {
    if flag && Contains(lines[i], Divider) {
      assert Kept(lines, tr, i + 1) == Kept(lines, tr, i) + [];
      assert Kept(lines, tr, i) + [] == Kept(lines, tr, i);
    } else {
      UnlinesAppend(Kept(lines, tr, i), tr(lines[i]));
    }
  }

  /** The loop of `translate` over the scanned lines, with any per-line
      translator `tr`. */
  method TranslateLines(lines: seq<string>, tr: string -> string) returns (result: string)
    ensures result == Unlines(Kept(lines, tr, |lines|))
  {
    result := "";
    var skipRarityNextDivider := false;
    for i := 0 to |lines|
      invariant skipRarityNextDivider == FlagBefore(lines, tr, i)
      invariant result == Unlines(Kept(lines, tr, i))
    {
      var line := lines[i];
      TranslateStep(lines, tr, i, skipRarityNextDivider, result);
      if skipRarityNextDivider && Contains(line, Divider) {
        skipRarityNextDivider := false;
        continue;
      }
      var translated := tr(line);
      if Contains(translated, RarityLabel) {
        skipRarityNextDivider := true;
      }
      result := result + translated + "\n";
    }
  }

  /** The whole tooltip: scanned into lines, each translated by `TranslateLine`. */
  method Translate(dict: seq<Pair>, affixes: seq<Pair>, mods: string -> string, text: string) returns (result: string)
    ensures result == Unlines(Kept(ScanLines(text), LineTranslator(dict, affixes, mods), |ScanLines(text)|))
  {
    var lines := SplitLines(text);
    result := TranslateLines(lines, LineTranslator(dict, affixes, mods));
  }

  /** Line `j` was translated into a rarity line and no divider follows it
      before line `k`. */
  predicate RarityOpen(lines: seq<string>, tr: string -> string, j: nat, k: nat)
    requires j < |lines| && k <= |lines|
  {
    !Skipped(lines, tr, j) && Contains(tr(lines[j]), RarityLabel) &&
    forall m :: j < m < k ==> !Contains(lines[m], Divider)
  }

  /** A rarity line stays open up to `k` when it was open up to `k - 1` and
      line `k - 1` is no divider. */
  lemma RarityOpenStep(lines: seq<string>, tr: string -> string, j: nat, k: nat)
    requires j + 1 < k <= |lines|
    ensures RarityOpen(lines, tr, j, k) <==> RarityOpen(lines, tr, j, k - 1) && !Contains(lines[k - 1], Divider)
  {
  }

  /** The flag is up before line `k` exactly when an earlier kept line
      translated to a rarity line with no divider since. */
  lemma {:induction false} FlagBeforeIff(lines: seq<string>, tr: string -> string, k: nat)
    requires k <= |lines|
    ensures FlagBefore(lines, tr, k) <==> exists j: nat :: j < k && RarityOpen(lines, tr, j, k)
  {
    if k > 0 {
      FlagBeforeIff(lines, tr, k - 1);
      var flag := FlagBefore(lines, tr, k - 1);
      if flag && Contains(lines[k - 1], Divider) {
        forall j: nat | j < k ensures !RarityOpen(lines, tr, j, k) {
          if j < k - 1 {
            RarityOpenStep(lines, tr, j, k);
          } else {
            assert Skipped(lines, tr, k - 1);
          }
        }
      } else if Contains(tr(lines[k - 1]), RarityLabel) {
        assert RarityOpen(lines, tr, k - 1, k);
      } else if flag {
        var j: nat :| j < k - 1 && RarityOpen(lines, tr, j, k - 1);
        assert RarityOpen(lines, tr, j, k);
      } else {
        forall j: nat | j < k ensures !RarityOpen(lines, tr, j, k) {
          if j < k - 1 {
            RarityOpenStep(lines, tr, j, k);
          }
        }
      }
    }
  }

  /** The skip rule: a line is dropped exactly when it is a divider and it is
      the first divider after a kept line translated to a rarity line. */
  lemma SkippedIff(lines: seq<string>, tr: string -> string, k: nat)
    requires k < |lines|
    ensures Skipped(lines, tr, k) <==>
      Contains(lines[k], Divider) && exists j: nat :: j < k && RarityOpen(lines, tr, j, k)
  {
    FlagBeforeIff(lines, tr, k);
  }

  /** When no translation spans or ends in a line break, reading the output
      back gives exactly the kept translations: never more lines than the
      input had. */
  lemma TranslateLineCount(lines: seq<string>, tr: string -> string)
    requires forall k :: 0 <= k < |lines| ==> PlainLine(tr(lines[k]))
    ensures ScanLines(Unlines(Kept(lines, tr, |lines|))) == Kept(lines, tr, |lines|)
    ensures |ScanLines(Unlines(Kept(lines, tr, |lines|)))| <= |lines|
  {
    var kept := Kept(lines, tr, |lines|);
    KeptBounds(lines, tr, |lines|);
    forall k | 0 <= k < |kept| ensures PlainLine(kept[k]) {
      assert kept[k] in kept;
    }
    UnlinesScanLines(kept);
  }
}
