/** The reply parser of the background analyzer: `parseAnalysis` and the
    `extract*` helpers that recover a polarization report from the language
    service's free-text reply (background/background.js:307-400). Each
    regular expression of the source is written out as a scanner whose
    contract is the match the expression finds. */
module ResponseParser {
  import opened Wrappers
  import opened JsText

  datatype Link = Link(title: string, url: string)

  datatype AnalysisReport = AnalysisReport(
    polarizationScore: nat,
    summary: string,
    biases: seq<string>,
    missingPerspectives: seq<string>,
    alternativeViewpoints: seq<Link>)

  const ScoreLabel: string := "Polarization score:"
  const SummaryLabel: SectionName := "Main viewpoint summary"
  const BiasesLabel: SectionName := "Detected biases"
  const MissingLabel: SectionName := "Missing perspectives"
  const AlternativesLabel: SectionName := "Alternative viewpoints"
  const DefaultScore: nat := 50
  const MaxScore: nat := 100
  const MaxListItems: nat := 3
  const MaxLinks: nat := 3
  const ParseErrorPrefix: string := "Invalid response format from LLM: "

  function Min(a: int, b: int): int {
    if a <= b then a else b
  }

  /** A section name spliced into the section regular expression stands for
      itself when it holds only letters, digits, `_` and spaces, as every name
      the parser passes does. */
  predicate IsLiteralLabel(name: string) {
    forall i :: 0 <= i < |name| ==> IsWordChar(name[i]) || name[i] == ' '
  }

  /** The section names the parser passes. */
  type SectionName = name: string | IsLiteralLabel(name)

  // ------------------------------------------------------------------
  // Locating a label

  /** Leftmost case-insensitive occurrence of `pattern` at or after `from`. */
  function FindLabel(s: string, pattern: string, from: nat): (r: Option<nat>)
    decreases |s| - from
    ensures r.Some? ==> from <= r.value && MatchesAt(s, pattern, r.value)
    ensures r.Some? ==> forall k :: from <= k < r.value ==> !MatchesAt(s, pattern, k)
    ensures r.None? ==> forall k: nat :: from <= k ==> !MatchesAt(s, pattern, k)
  {
    if from + |pattern| > |s| then None
    else if MatchesAt(s, pattern, from) then Some(from)
    else FindLabel(s, pattern, from + 1)
  }

  // ------------------------------------------------------------------
  // extractSection: `${name}:?([^\n]*(?:\n(?!\w+:)[^\n]*)*)` with flag i

  /** Number of `\w` characters starting at index `p`. */
  function WordRun(s: string, p: nat): (n: nat)
    requires p <= |s|
    decreases |s| - p
    ensures p + n <= |s|
    ensures forall t :: p <= t < p + n ==> IsWordChar(s[t])
    ensures p + n == |s| || !IsWordChar(s[p + n])
  {
    if p < |s| && IsWordChar(s[p]) then 1 + WordRun(s, p + 1) else 0
  }

  /** The lookahead `\w+:` succeeds at `p`: the greedy word run is non-empty
      and a colon follows it. */
  predicate HeaderAt(s: string, p: nat)
    requires p <= |s|
  {
    var n := WordRun(s, p);
    n > 0 && p + n < |s| && s[p + n] == ':'
  }

  /** `\w+:` read declaratively: some non-empty run of word characters at `p`
      followed by a colon. */
  ghost predicate WordThenColonAt(s: string, p: nat) {
    exists n: nat :: ColonAfterWordRun(s, p, n)
  }

  ghost predicate ColonAfterWordRun(s: string, p: nat, n: nat) {
    1 <= n && p + n < |s| && s[p + n] == ':' && forall t :: p <= t < p + n ==> IsWordChar(s[t])
  }

  /** A run of `n` word characters that ends where the string ends or at a
      non-word character is the run the greedy scan measures. */
  lemma {:induction false} WordRunOfMaximalRun(s: string, p: nat, n: nat)
    requires p + n <= |s|
    requires forall t :: p <= t < p + n ==> IsWordChar(s[t])
    requires p + n == |s| || !IsWordChar(s[p + n])
    ensures WordRun(s, p) == n
    decreases n
  {
    if n > 0 {
      WordRunOfMaximalRun(s, p + 1, n - 1);
    }
  }

  /** The greedy scan decides the lookahead exactly: backtracking `\w+` to a
      shorter run can never put a colon after it. */
  lemma HeaderAtMeansWordThenColon(s: string, p: nat)
    requires p <= |s|
    ensures HeaderAt(s, p) <==> WordThenColonAt(s, p)
  {
    var m := WordRun(s, p);
    if HeaderAt(s, p) {
      assert ColonAfterWordRun(s, p, m);
    }
    if WordThenColonAt(s, p) {
      var n: nat :| ColonAfterWordRun(s, p, n);
      WordRunOfMaximalRun(s, p, n);
    }
  }

  /** The captured span stops at `p`: a newline there starts a line that
      begins with a word and a colon. */
  predicate EndsSectionAt(s: string, p: nat) {
    p < |s| && s[p] == '\n' && HeaderAt(s, p + 1)
  }

  /** Where the greedy capture that starts at `from` ends. */
  function SectionEnd(s: string, from: nat): (e: nat)
    requires from <= |s|
    decreases |s| - from
    ensures from <= e <= |s|
    ensures e < |s| ==> EndsSectionAt(s, e)
    ensures forall p :: from <= p < e ==> !EndsSectionAt(s, p)
  {
    if from == |s| || EndsSectionAt(s, from) then from else SectionEnd(s, from + 1)
  }

  /** Index just after a label found at `k` and after the optional `:`. */
  function AfterLabel(s: string, pattern: string, k: nat): (j: nat)
    requires k + |pattern| <= |s|
    ensures k + |pattern| <= j <= |s|
    ensures j == k + |pattern| + 1 <==> (k + |pattern| < |s| && s[k + |pattern|] == ':')
  {
    var j := k + |pattern|;
    if j < |s| && s[j] == ':' then j + 1 else j
  }

  /** `extractSection(content, name)`. */
  function ExtractSection(content: string, name: string): (r: string)
    requires IsLiteralLabel(name)
    ensures IsTrimmed(r)
    ensures (forall k: nat :: !MatchesAt(content, name, k)) ==> r == []
  {
    match FindLabel(content, name, 0)
    case None => []
    case Some(k) =>
      var start := AfterLabel(content, name, k);
      Trim(content[start..SectionEnd(content, start)])
  }

  /** The section is the trimmed text that follows the first occurrence of the
      label (and its optional colon) up to, not including, the first later
      newline whose line begins with a single word and a colon. */
  lemma ExtractSectionSpan(content: string, name: string, k: nat, e: nat)
    requires IsLiteralLabel(name)
    requires MatchesAt(content, name, k)
    requires forall k' :: 0 <= k' < k ==> !MatchesAt(content, name, k')
    requires AfterLabel(content, name, k) <= e <= |content|
    requires e == |content| || EndsSectionAt(content, e)
    requires forall p :: AfterLabel(content, name, k) <= p < e ==> !EndsSectionAt(content, p)
    ensures ExtractSection(content, name) == Trim(content[AfterLabel(content, name, k)..e])
  {
    FirstLabelIsFound(content, name, 0, k);
    SectionEndIsFirstEnd(content, AfterLabel(content, name, k), e);
  }

  /** The leftmost occurrence is the one the search returns. */
  lemma {:induction false} FirstLabelIsFound(s: string, pattern: string, from: nat, k: nat)
    requires from <= k && MatchesAt(s, pattern, k)
    requires forall k' :: from <= k' < k ==> !MatchesAt(s, pattern, k')
    ensures FindLabel(s, pattern, from) == Some(k)
    decreases k - from
  {
    if from < k {
      FirstLabelIsFound(s, pattern, from + 1, k);
    }
  }

  /** The first section end is the one the scan returns. */
  lemma {:induction false} SectionEndIsFirstEnd(s: string, start: nat, e: nat)
    requires start <= e <= |s|
    requires e == |s| || EndsSectionAt(s, e)
    requires forall p :: start <= p < e ==> !EndsSectionAt(s, p)
    ensures SectionEnd(s, start) == e
    decreases e - start
  {
    if start < e {
      SectionEndIsFirstEnd(s, start + 1, e);
    }
  }

  /** A line that begins with two words before its colon, such as
      "Missing perspectives:", does not end the section before it. */
  lemma MultiWordLabelDoesNotEndSection(s: string, p: nat, n: nat)
    requires p + 1 + n < |s| && s[p] == '\n' && n >= 1
    requires forall t :: p + 1 <= t < p + 1 + n ==> IsWordChar(s[t])
    requires s[p + 1 + n] == ' '
    ensures !EndsSectionAt(s, p)
  {
    WordRunOfMaximalRun(s, p + 1, n);
  }

  /** A line that begins with one word and a colon ends the section before it. */
  lemma SingleWordLabelEndsSection(s: string, p: nat, n: nat)
    requires p + 1 + n < |s| && s[p] == '\n' && n >= 1
    requires forall t :: p + 1 <= t < p + 1 + n ==> IsWordChar(s[t])
    requires s[p + 1 + n] == ':'
    ensures EndsSectionAt(s, p)
  {
    HeaderAtMeansWordThenColon(s, p + 1);
    assert ColonAfterWordRun(s, p + 1, n);
  }

  // ------------------------------------------------------------------
  // extractPolarizationScore: /Polarization score:\s*(\d+)/i

  /** Number of `\d` characters starting at `p`. */
  function DigitRun(s: string, p: nat): (n: nat)
    requires p <= |s|
    decreases |s| - p
    ensures p + n <= |s|
    ensures forall t :: p <= t < p + n ==> IsDigit(s[t])
    ensures p + n == |s| || !IsDigit(s[p + n])
  {
    if p < |s| && IsDigit(s[p]) then 1 + DigitRun(s, p + 1) else 0
  }

  /** A run of `n` digits that ends where the string ends or at a non-digit
      is the run the greedy scan measures. */
  lemma {:induction false} DigitRunOfMaximalRun(s: string, p: nat, n: nat)
    requires p + n <= |s|
    requires forall t :: p <= t < p + n ==> IsDigit(s[t])
    requires p + n == |s| || !IsDigit(s[p + n])
    ensures DigitRun(s, p) == n
    decreases n
  {
    if n > 0 {
      DigitRunOfMaximalRun(s, p + 1, n - 1);
    }
  }

  /** Index of the first digit after `pattern` at `k` and the whitespace
      that follows it. */
  function DigitsStart(s: string, pattern: string, k: nat): nat
    requires MatchesAt(s, pattern, k)
  {
    var j := k + |pattern|;
    j + LeadingSpaces(s[j..])
  }

  /** `pattern\s*(\d+)` matches at `k`. Since no character is both `\s` and
      `\d`, the greedy `\s*` never needs to give anything back. */
  predicate NumberAfterAt(s: string, pattern: string, k: nat) {
    && MatchesAt(s, pattern, k)
    && var d := DigitsStart(s, pattern, k);
    d < |s| && IsDigit(s[d])
  }

  /** The least index from `from` to `last` at which `hit` holds. */
  function FirstHit(hit: nat -> bool, from: nat, last: int): (r: Option<nat>)
    decreases last + 1 - from
    ensures r.Some? ==> from <= r.value <= last && hit(r.value)
    ensures r.Some? ==> forall k :: from <= k < r.value ==> !hit(k)
    ensures r.None? ==> forall k: nat :: from <= k <= last ==> !hit(k)
  {
    if from > last then None
    else if hit(from) then Some(from)
    else FirstHit(hit, from + 1, last)
  }

  lemma {:induction false} FirstHitIsFound(hit: nat -> bool, from: nat, last: int, k: nat)
    requires from <= k <= last && hit(k)
    requires forall k' :: from <= k' < k ==> !hit(k')
    ensures FirstHit(hit, from, last) == Some(k)
    decreases k - from
  {
    if from < k {
      FirstHitIsFound(hit, from + 1, last, k);
    }
  }

  /** Leftmost match of `pattern\s*(\d+)` at or after `from`: the scan
      stops once `pattern` no longer fits. */
  function FindNumberAfter(s: string, pattern: string, from: nat): (r: Option<nat>)
    ensures r.Some? ==> from <= r.value && NumberAfterAt(s, pattern, r.value)
    ensures r.Some? ==> forall k :: from <= k < r.value ==> !NumberAfterAt(s, pattern, k)
    ensures r.None? ==> forall k: nat :: from <= k ==> !NumberAfterAt(s, pattern, k)
  {
    var hit := (k: nat) => NumberAfterAt(s, pattern, k);
    var r := FirstHit(hit, from, |s| - |pattern|);
    assert r.Some? ==> forall k :: from <= k < r.value ==> !NumberAfterAt(s, pattern, k) by {
      if r.Some? {
        forall k | from <= k < r.value
          ensures !NumberAfterAt(s, pattern, k)
        {
          assert !hit(k);
        }
      }
    }
    assert r.None? ==> forall k: nat :: from <= k ==> !NumberAfterAt(s, pattern, k) by {
      if r.None? {
        forall k: nat | from <= k
          ensures !NumberAfterAt(s, pattern, k)
        {
          if k <= |s| - |pattern| {
            assert !hit(k);
          }
        }
      }
    }
    r
  }

  lemma FirstNumberIsFound(s: string, pattern: string, from: nat, k: nat)
    requires from <= k && NumberAfterAt(s, pattern, k)
    requires forall k' :: from <= k' < k ==> !NumberAfterAt(s, pattern, k')
    ensures FindNumberAfter(s, pattern, from) == Some(k)
  {
    FirstHitIsFound((k: nat) => NumberAfterAt(s, pattern, k), from, |s| - |pattern|, k);
  }

  /** The digits `(\d+)` captures for a match at `k`. */
  function CapturedDigits(s: string, pattern: string, k: nat): (d: string)
    requires NumberAfterAt(s, pattern, k)
    ensures |d| >= 1 && AllDigits(d)
  {
    var start := DigitsStart(s, pattern, k);
    s[start..start + DigitRun(s, start)]
  }

  /** `extractPolarizationScore(content)`: always in [0,100], and the default
      when the score expression matches nowhere. */
  function ExtractPolarizationScore(content: string): (score: nat)
    ensures score <= MaxScore
    ensures (forall k: nat :: !NumberAfterAt(content, ScoreLabel, k)) ==> score == DefaultScore
  {
    match FindNumberAfter(content, ScoreLabel, 0)
    case None => DefaultScore
    case Some(k) => Min(MaxScore, DigitsValue(CapturedDigits(content, ScoreLabel, k)))
  }

  /** The score is the value of the digits at the leftmost match, capped at
      100; a label not followed by digits is passed over. */
  lemma ScoreFromFirstMatch(content: string, k: nat)
    requires NumberAfterAt(content, ScoreLabel, k)
    requires forall k' :: 0 <= k' < k ==> !NumberAfterAt(content, ScoreLabel, k')
    ensures ExtractPolarizationScore(content) == Min(MaxScore, DigitsValue(CapturedDigits(content, ScoreLabel, k)))
  {
    FirstNumberIsFound(content, ScoreLabel, 0, k);
  }

  // ------------------------------------------------------------------
  // extractListSection

  predicate IsBullet(c: char) {
    c == '-' || c == '*' || c == '•'
  }

  /** One bullet (`-`, `*` or `•`) at column 0 and the whitespace after it
      are dropped. */
  function StripBullet(line: string): (r: string)
    ensures line != [] && IsBullet(line[0]) ==> |r| < |line| && r == line[|line| - |r|..]
    ensures line != [] && IsBullet(line[0]) ==>
              (forall k :: 1 <= k < |line| - |r| ==> IsSpace(line[k])) && (r == [] || !IsSpace(r[0]))
    ensures line != [] && IsBullet(line[0]) ==> NonSpace(r) == NonSpace(line[1..])
    ensures !(line != [] && IsBullet(line[0])) ==> r == line
  {
    if line != [] && IsBullet(line[0]) then
      var rest := line[1..];
      var n := LeadingSpaces(rest);
      NonSpaceSkipsLeading(rest, n);
      assert rest[n..] == line[1 + n..];
      assert forall k :: 1 <= k < 1 + n ==> line[k] == rest[k - 1];
      rest[n..]
    else line
  }

  /** The list `map` on one line: strip one bullet, then `trim`. */
  function CleanItem(line: string): (r: string)
    ensures IsTrimmed(r)
  {
    Trim(StripBullet(line))
  }

  /** The cleaned lines, in order, without the empty ones: the `map` then
      the `.filter(Boolean)` of the list. */
  function NonEmptyItems(lines: seq<string>): (items: seq<string>)
    ensures |items| <= |lines|
    ensures forall i :: 0 <= i < |items| ==> items[i] != [] && IsTrimmed(items[i])
    ensures IsSubsequence(items, CleanAll(lines))
    ensures forall x :: x in CleanAll(lines) && x != [] ==> x in items
    ensures forall x :: x != [] ==> multiset(items)[x] == multiset(CleanAll(lines))[x]
  {
    var cleaned := CleanAll(lines);
    DropEmptyKeepsClean(cleaned);
    DropEmptyIsSubsequence(cleaned);
    DropEmptyCounts(cleaned);
    CountsGiveMembers(DropEmpty(cleaned), cleaned);
    DropEmpty(cleaned)
  }

  /** Equal counts of every non-empty string mean the same non-empty members. */
  lemma CountsGiveMembers(items: seq<string>, cleaned: seq<string>)
    requires forall x :: x != [] ==> multiset(items)[x] == multiset(cleaned)[x]
    ensures forall x :: x in cleaned && x != [] ==> x in items
  {
    forall x | x in cleaned && x != []
      ensures x in items
    {
      assert x in multiset(cleaned);
    }
  }

  /** `.filter(Boolean)` on strings: the empty string is the only falsy one. */
  function DropEmpty(xs: seq<string>): (r: seq<string>)
    ensures |r| <= |xs|
  {
    if xs == [] then []
    else if xs[0] == [] then DropEmpty(xs[1..])
    else [xs[0]] + DropEmpty(xs[1..])
  }

  lemma {:induction false} DropEmptyKeepsClean(xs: seq<string>)
    requires forall i :: 0 <= i < |xs| ==> IsTrimmed(xs[i])
    ensures forall i :: 0 <= i < |DropEmpty(xs)| ==> DropEmpty(xs)[i] != [] && IsTrimmed(DropEmpty(xs)[i])
  {
    if xs != [] {
      DropEmptyKeepsClean(xs[1..]);
    }
  }

  lemma {:induction false} DropEmptyIsSubsequence(xs: seq<string>)
    ensures IsSubsequence(DropEmpty(xs), xs)
  {
    if xs != [] {
      DropEmptyIsSubsequence(xs[1..]);
      assert xs == [xs[0]] + xs[1..];
      if xs[0] == [] {
        SubsequenceDropFront(DropEmpty(xs[1..]), xs[0], xs[1..]);
      } else {
        SubsequenceCons(DropEmpty(xs[1..]), xs[0], xs[1..]);
      }
    }
  }

  lemma {:induction false} DropEmptyCounts(xs: seq<string>)
    ensures forall x :: x != [] ==> multiset(DropEmpty(xs))[x] == multiset(xs)[x]
  {
    if xs != [] {
      DropEmptyCounts(xs[1..]);
      assert xs == [xs[0]] + xs[1..];
      assert multiset(xs) == multiset{xs[0]} + multiset(xs[1..]);
      if xs[0] != [] {
        assert multiset(DropEmpty(xs)) == multiset{xs[0]} + multiset(DropEmpty(xs[1..]));
      }
    }
  }

  /** Every line cleaned, empty results included. */
  function CleanAll(lines: seq<string>): (r: seq<string>)
    ensures |r| == |lines|
    ensures forall i :: 0 <= i < |lines| ==> r[i] == CleanItem(lines[i])
  {
    if lines == [] then [] else [CleanItem(lines[0])] + CleanAll(lines[1..])
  }

  /** `extractListSection(content, name, maxItems)`. */
  function ExtractListSection(content: string, name: string, maxItems: nat): (items: seq<string>)
    requires IsLiteralLabel(name)
    ensures |items| <= maxItems
    ensures forall i :: 0 <= i < |items| ==> items[i] != [] && IsTrimmed(items[i])
    ensures IsSubsequence(items, CleanAll(Split(ExtractSection(content, name), '\n')))
    ensures ExtractSection(content, name) == [] ==> items == []
    ensures var all := NonEmptyItems(Split(ExtractSection(content, name), '\n'));
              items <= all && |items| == Min(maxItems, |all|)
  {
    var lines := Split(ExtractSection(content, name), '\n');
    var all := NonEmptyItems(lines);
    CutItems(all, CleanAll(lines), maxItems);
    EmptySectionHasNoItems();
    all[..Min(maxItems, |all|)]
  }

  /** Cutting the list keeps its items clean and in order. */
  lemma CutItems(all: seq<string>, cleaned: seq<string>, maxItems: nat)
    requires forall i :: 0 <= i < |all| ==> all[i] != [] && IsTrimmed(all[i])
    requires IsSubsequence(all, cleaned)
    ensures |all[..Min(maxItems, |all|)]| <= maxItems
    ensures forall i :: 0 <= i < Min(maxItems, |all|) ==> all[..Min(maxItems, |all|)][i] != [] && IsTrimmed(all[..Min(maxItems, |all|)][i])
    ensures IsSubsequence(all[..Min(maxItems, |all|)], cleaned)
  {
    SubsequencePrefix(all, cleaned, Min(maxItems, |all|));
  }

  /** An empty section is one empty line, which gives no item. */
  lemma EmptySectionHasNoItems()
    ensures NonEmptyItems(Split([], '\n')) == []
  {
    assert Split([], '\n') == [[]];
    assert CleanAll([[]]) == [CleanItem([])];
  }

  /** Every non-empty cleaned line is kept while fewer than `maxItems` of them
      come first: the list is cut only by its length. */
  lemma ListKeepsEveryItemBelowLimit(content: string, name: string, maxItems: nat)
    requires IsLiteralLabel(name)
    requires |NonEmptyItems(Split(ExtractSection(content, name), '\n'))| <= maxItems
    ensures forall x :: x in CleanAll(Split(ExtractSection(content, name), '\n')) && x != [] ==>
              x in ExtractListSection(content, name, maxItems)
  {
    var lines := Split(ExtractSection(content, name), '\n');
    ShortListKept(NonEmptyItems(lines), maxItems);
    assert ExtractListSection(content, name, maxItems) == NonEmptyItems(lines);
  }

  /** The cut at `maxItems` keeps a list no longer than that whole. */
  lemma ShortListKept(all: seq<string>, maxItems: nat)
    requires |all| <= maxItems
    ensures all[..Min(maxItems, |all|)] == all
  {
  }

  // ------------------------------------------------------------------
  // extractLinkSection: /\[(.*?)\]\((.*?)\)/ on each line

  /** No line terminator in `s[a..b]`: `.` matches all of it. */
  predicate NoTerminatorIn(s: string, a: nat, b: nat)
    requires a <= b <= |s|
  {
    forall t :: a <= t < b ==> !IsLineTerminator(s[t])
  }

  /** A match of the link expression with `[` at `i`, `]` at `j`, `(` at
      `j + 1` and `)` at `k`. */
  predicate IsLinkAt(s: string, i: nat, j: nat, k: nat) {
    && i < j && j + 1 < k < |s|
    && s[i] == '[' && s[j] == ']' && s[j + 1] == '(' && s[k] == ')'
    && NoTerminatorIn(s, i + 1, j) && NoTerminatorIn(s, j + 2, k)
  }

  /** `(a, b, c)` is tried before `(i, j, k)`: leftmost start, then the
      shortest title, then the shortest url. */
  predicate TriedBefore(a: nat, b: nat, c: nat, i: nat, j: nat, k: nat) {
    a < i || (a == i && (b < j || (b == j && c < k)))
  }

  /** The lazy `(.*?)\)` from `t`: the first `)` with no line terminator before it. */
  function UrlEnd(s: string, t: nat): (r: Option<nat>)
    requires t <= |s|
    decreases |s| - t
    ensures r.Some? ==> t <= r.value < |s| && s[r.value] == ')' && NoTerminatorIn(s, t, r.value)
    ensures r.Some? ==> forall u :: t <= u < r.value ==> s[u] != ')'
    ensures r.None? ==> forall u: nat :: t <= u < |s| && s[u] == ')' ==> !NoTerminatorIn(s, t, u)
  {
    if t == |s| then None
    else if s[t] == ')' then Some(t)
    else if IsLineTerminator(s[t]) then None
    else UrlEnd(s, t + 1)
  }

  /** The lazy title `(.*?)` of a match opened at `i`, tried from `j` on. */
  function LinkFrom(s: string, i: nat, j: nat): (r: Option<(nat, nat)>)
    requires i < j <= |s| && s[i] == '['
    requires NoTerminatorIn(s, i + 1, j)
    decreases |s| - j
    ensures r.Some? ==> j <= r.value.0 && IsLinkAt(s, i, r.value.0, r.value.1)
    ensures r.Some? ==> forall b: nat, c: nat :: j <= b && IsLinkAt(s, i, b, c) ==> !TriedBefore(i, b, c, i, r.value.0, r.value.1)
    ensures r.None? ==> forall b: nat, c: nat :: j <= b ==> !IsLinkAt(s, i, b, c)
  {
    if j == |s| || IsLineTerminator(s[j]) then
      forall b: nat, c: nat | j <= b ensures !IsLinkAt(s, i, b, c) {
        if j < b && j < |s| {
          assert i + 1 <= j < b;
        }
      }
      None
    else if s[j] == ']' && j + 1 < |s| && s[j + 1] == '(' && UrlEnd(s, j + 2).Some? then
      Some((j, UrlEnd(s, j + 2).value))
    else
      var r := LinkFrom(s, i, j + 1);
      forall c: nat ensures !IsLinkAt(s, i, j, c) {
        if s[j] == ']' && j + 1 < |s| && s[j + 1] == '(' && j + 1 < c < |s| && s[c] == ')' {
          assert !NoTerminatorIn(s, j + 2, c);
        }
      }
      r
  }

  /** Leftmost match of the link expression at or after `from`. */
  function FindLink(s: string, from: nat): (r: Option<(nat, nat, nat)>)
    decreases |s| - from
    ensures r.Some? ==> from <= r.value.0 && IsLinkAt(s, r.value.0, r.value.1, r.value.2)
    ensures r.Some? ==> forall a: nat, b: nat, c: nat :: from <= a && IsLinkAt(s, a, b, c) ==>
                          !TriedBefore(a, b, c, r.value.0, r.value.1, r.value.2)
    ensures r.None? ==> forall a: nat, b: nat, c: nat :: from <= a ==> !IsLinkAt(s, a, b, c)
  {
    if from >= |s| then None
    else if s[from] == '[' && LinkFrom(s, from, from + 1).Some? then
      var jk := LinkFrom(s, from, from + 1).value;
      Some((from, jk.0, jk.1))
    else
      FindLink(s, from + 1)
  }

  /** Some `[title](url)` occurs on the line. */
  ghost predicate HasLink(line: string) {
    exists a: nat, b: nat, c: nat :: IsLinkAt(line, a, b, c)
  }

  /** `[title](url)` at `(i, j, k)` is the match the regular expression finds:
      no other match is tried before it. */
  ghost predicate FirstLinkAt(line: string, i: nat, j: nat, k: nat) {
    IsLinkAt(line, i, j, k) && forall a: nat, b: nat, c: nat :: IsLinkAt(line, a, b, c) ==> !TriedBefore(a, b, c, i, j, k)
  }

  /** One line of the alternatives section as `{title, url}`: the title and
      url of the first `[title](url)` on the line, or else the cleaned line
      and the url `#`. */
  function LineToLink(line: string): (r: Link)
    ensures !HasLink(line) ==> r == Link(Trim(StripBullet(line)), "#")
    ensures HasLink(line) ==>
              exists i: nat, j: nat, k: nat :: FirstLinkAt(line, i, j, k) && r == Link(line[i + 1..j], line[j + 2..k])
  {
    match FindLink(line, 0)
    case Some((i, j, k)) =>
      assert FirstLinkAt(line, i, j, k);
      Link(line[i + 1..j], line[j + 2..k])
    case None => Link(CleanItem(line), "#")
  }

  /** A matched link is its title and url in their brackets. */
  lemma LinkSliceParts(line: string, i: nat, j: nat, k: nat)
    requires IsLinkAt(line, i, j, k)
    ensures line[i..k + 1] == "[" + line[i + 1..j] + "](" + line[j + 2..k] + ")"
  {
    var t, u := line[i + 1..j], line[j + 2..k];
    assert line[i..k + 1] == [line[i]] + t + [line[j], line[j + 1]] + u + [line[k]];
  }

  /** A line holding `[t](u)` gives `t` and `u` of the first match. */
  lemma LinkLineMatched(line: string, i: nat, j: nat, k: nat)
    requires FirstLinkAt(line, i, j, k)
    ensures LineToLink(line) == Link(line[i + 1..j], line[j + 2..k])
  {
    FirstLinkIsFound(line, i, j, k);
  }

  /** The search returns the first match. */
  lemma FirstLinkIsFound(line: string, i: nat, j: nat, k: nat)
    requires FirstLinkAt(line, i, j, k)
    ensures FindLink(line, 0) == Some((i, j, k))
  {
    var r := FindLink(line, 0);
    assert r.Some?;
    var (a, b, c) := r.value;
    assert !TriedBefore(a, b, c, i, j, k) && !TriedBefore(i, j, k, a, b, c);
  }

  /** `extractLinkSection(content, name)`: one link per line of the section,
      blank lines included, at most three. */
  function ExtractLinkSection(content: string, name: string): (links: seq<Link>)
    requires IsLiteralLabel(name)
    ensures |links| == Min(MaxLinks, Count(ExtractSection(content, name), '\n') + 1)
    ensures 1 <= |links| <= MaxLinks
    ensures forall i :: 0 <= i < |links| ==> links[i] == LineToLink(Split(ExtractSection(content, name), '\n')[i])
  {
    var lines := Split(ExtractSection(content, name), '\n');
    var all := seq(|lines|, i requires 0 <= i < |lines| => LineToLink(lines[i]));
    all[..Min(MaxLinks, |all|)]
  }

  /** An absent alternatives section still yields one empty link. */
  lemma AbsentLinkSection(content: string, name: string)
    requires IsLiteralLabel(name)
    requires forall k: nat :: !MatchesAt(content, name, k)
    ensures ExtractLinkSection(content, name) == [Link("", "#")]
  {
    assert ExtractSection(content, name) == [];
    assert Split([], '\n') == [[]];
    assert StripBullet([]) == [];
  }

  // ------------------------------------------------------------------
  // parseAnalysis

  /** The parsed JSON reply. Numbers are kept as integers (NaN and
      fractions play no part in the envelope). */
  datatype JsValue =
    | Undefined
    | Null
    | Bool(b: bool)
    | Number(n: int)
    | Str(s: string)
    | Arr(items: seq<JsValue>)
    | Obj(props: map<string, JsValue>)

  predicate Truthy(v: JsValue) {
    match v
    case Undefined => false
    case Null => false
    case Bool(b) => b
    case Number(n) => n != 0
    case Str(s) => s != []
    case Arr(_) => true
    case Obj(_) => true
  }

  /** `v[name]` for the property names the parser reads; strings, arrays,
      numbers and booleans have no property of those names. */
  function Get(v: JsValue, name: string): JsValue
    requires !v.Undefined? && !v.Null?
  {
    match v
    case Obj(props) => if name in props then props[name] else Undefined
    case _ => Undefined
  }

  /** `v[0]`. */
  function First(v: JsValue): JsValue
    requires !v.Undefined? && !v.Null?
  {
    match v
    case Arr(items) => if |items| > 0 then items[0] else Undefined
    case Str(s) => if |s| > 0 then Str([s[0]]) else Undefined
    case Obj(props) => if "0" in props then props["0"] else Undefined
    case _ => Undefined
  }

  /** The reply text: `response.content` when truthy, else
      `response.messages[0].content`; the error is the message the parse
      failure carries. Reading a property of `null` or `undefined` raises the
      engine's TypeError (V8 wording). */
  function ReplyText(response: JsValue): (r: Result<string, string>)
    ensures r.Success? <==>
      && !response.Undefined? && !response.Null?
      && (Truthy(Get(response, "content")) ==> Get(response, "content").Str?)
      && (!Truthy(Get(response, "content")) ==>
            && Truthy(Get(response, "messages")) && Truthy(First(Get(response, "messages")))
            && Get(First(Get(response, "messages")), "content").Str?)
    ensures r.Success? && Truthy(Get(response, "content")) ==> r.value == Get(response, "content").s
    ensures r.Success? && !Truthy(Get(response, "content")) ==>
              r.value == Get(First(Get(response, "messages")), "content").s
  {
    if response.Undefined? then Failure("Cannot read properties of undefined (reading 'content')")
    else if response.Null? then Failure("Cannot read properties of null (reading 'content')")
    else
      var content: Option<JsValue> :=
        if Truthy(Get(response, "content")) then Some(Get(response, "content"))
        else
          var messages := Get(response, "messages");
          if Truthy(messages) && Truthy(First(messages)) then Some(Get(First(messages), "content"))
          else None;
      match content
      case None => Failure("Unexpected response format")
      case Some(Str(s)) => Success(s)
      case Some(_) => Failure("Content is not a string")
  }

  /** The invariant every parsed report satisfies. */
  ghost predicate WellFormedReport(a: AnalysisReport) {
    && a.polarizationScore <= MaxScore
    && IsTrimmed(a.summary)
    && |a.biases| <= MaxListItems && |a.missingPerspectives| <= MaxListItems
    && (forall i :: 0 <= i < |a.biases| ==> a.biases[i] != [] && IsTrimmed(a.biases[i]))
    && (forall i :: 0 <= i < |a.missingPerspectives| ==> a.missingPerspectives[i] != [] && IsTrimmed(a.missingPerspectives[i]))
    && 1 <= |a.alternativeViewpoints| <= MaxLinks
  }

  /** The report built from the reply text. */
  function ReportOf(text: string): (a: AnalysisReport)
    ensures WellFormedReport(a)
  {
    AnalysisReport(
      ExtractPolarizationScore(text),
      ExtractSection(text, SummaryLabel),
      ExtractListSection(text, BiasesLabel, MaxListItems),
      ExtractListSection(text, MissingLabel, MaxListItems),
      ExtractLinkSection(text, AlternativesLabel))
  }

  /** `parseAnalysis(response)`. */
  function ParseAnalysis(response: JsValue): (r: Result<AnalysisReport, string>)
    ensures r.Success? <==> ReplyText(response).Success?
    ensures r.Success? ==> WellFormedReport(r.value) && r.value == ReportOf(ReplyText(response).value)
    ensures r.Failure? ==> r.error == ParseErrorPrefix + ReplyText(response).error
  {
    match ReplyText(response)
    case Failure(e) => Failure(ParseErrorPrefix + e)
    case Success(text) => Success(ReportOf(text))
  }

  /** A reply in which no label occurs parses to the defaults: score 50, empty
      summary and lists, and the single empty link. */
  lemma ReplyWithoutLabels(text: string)
    requires forall k: nat :: !NumberAfterAt(text, ScoreLabel, k)
    requires forall k: nat :: !MatchesAt(text, SummaryLabel, k)
    requires forall k: nat :: !MatchesAt(text, BiasesLabel, k)
    requires forall k: nat :: !MatchesAt(text, MissingLabel, k)
    requires forall k: nat :: !MatchesAt(text, AlternativesLabel, k)
    ensures ReportOf(text) == AnalysisReport(DefaultScore, "", [], [], [Link("", "#")])
  {
    AbsentLinkSection(text, AlternativesLabel);
  }
}
