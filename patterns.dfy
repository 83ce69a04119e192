/**
 * The three regular-expression shapes that extract_information searches for,
 * written as scans. Each is a literal label followed by one capture group:
 *
 *   SpacesThenLine(L)       L\s+(.+)
 *   SpaceThenLine(L)        L (.+)
 *   SpaceThenLazyBeforeR(L) L (.+?) R
 *
 * `\s` is PyText.IsSpace and `.` is any character but '\n'. Matches is the
 * declarative reading of each shape (what Python's backtracking engine
 * returns at one start position); MatchAt computes it and is proved to agree.
 */
module Patterns {
  import opened Wrappers
  import opened PyText

  datatype Pattern =
    | SpacesThenLine(prefix: string)
    | SpaceThenLine(prefix: string)
    | SpaceThenLazyBeforeR(prefix: string)

  /** Bounds of capture group 1 within the searched text. */
  datatype Span = Span(start: nat, end: nat)

  predicate LabelAt(text: string, i: nat, lit: string) {
    i + |lit| <= |text| && text[i..i + |lit|] == lit
  }

  /** The two characters " R" start at position e. */
  predicate RAt(text: string, e: nat) {
    e + 2 <= |text| && text[e] == ' ' && text[e + 1] == 'R'
  }

  /** A greedy `.+` that starts at start stops at end: the next newline or the end of the text. */
  ghost predicate IsLineEnd(text: string, start: nat, end: nat) {
    && start <= end <= |text|
    && (forall k :: start <= k < end ==> text[k] != '\n')
    && (end == |text| || text[end] == '\n')
  }

  /** The pattern matches at start position i with group 1 at s. */
  ghost predicate Matches(pat: Pattern, text: string, i: nat, s: Span) {
    && LabelAt(text, i, pat.prefix)
    && var p := i + |pat.prefix|;
    match pat
    case SpacesThenLine(_) =>
      // `\s+` gives back characters until `.+` can start; the last such start wins
      && p < s.start < |text|
      && (forall k :: p <= k < s.start ==> IsSpace(text[k]))
      && text[s.start] != '\n'
      && IsLineEnd(text, s.start, s.end)
      && (forall q :: s.start < q < |text| && (forall k :: p <= k < q ==> IsSpace(text[k])) ==> text[q] == '\n')
    case SpaceThenLine(_) =>
      && p < |text| && text[p] == ' '
      && s.start == p + 1 && s.start < |text| && text[s.start] != '\n'
      && IsLineEnd(text, s.start, s.end)
    case SpaceThenLazyBeforeR(_) =>
      // `.+?` takes the fewest characters, none of them a newline, that " R" follows
      && p < |text| && text[p] == ' '
      && s.start == p + 1 && s.start < s.end
      && RAt(text, s.end)
      && (forall k :: s.start <= k < s.end ==> text[k] != '\n')
      && (forall e :: s.start < e < s.end ==> !RAt(text, e))
  }

  function LineEnd(text: string, start: nat): (end: nat)
    requires start <= |text|
    ensures IsLineEnd(text, start, end)
    decreases |text| - start
  {
    if start == |text| || text[start] == '\n' then start else LineEnd(text, start + 1)
  }

  /** Length of the whitespace run that starts at p (what a greedy `\s+` first takes). */
  function SpaceRun(text: string, p: nat): (n: nat)
    requires p <= |text|
    ensures p + n <= |text|
    ensures forall k :: p <= k < p + n ==> IsSpace(text[k])
    ensures p + n == |text| || !IsSpace(text[p + n])
    decreases |text| - p
  {
    if p < |text| && IsSpace(text[p]) then 1 + SpaceRun(text, p + 1) else 0
  }

  /**
   * Backtracking of `\s+` over its k characters: the largest q in (p, p + k]
   * at which `.+` can take a first character.
   */
  function Backtrack(text: string, p: nat, k: nat): (q: Option<nat>)
    requires p + k <= |text|
    ensures q.Some? ==> p < q.value <= p + k && q.value < |text| && text[q.value] != '\n'
    ensures forall j :: (if q.Some? then q.value else p) < j <= p + k && j < |text| ==> text[j] == '\n'
    decreases k
  {
    if k == 0 then None
    else if p + k < |text| && text[p + k] != '\n' then Some(p + k)
    else Backtrack(text, p, k - 1)
  }

  /**
   * The lazy `(.+?) R` with its group already holding text[..e-1]: try ends
   * e, e+1, ... until " R" follows, stopping at a newline or the end of text.
   */
  function LazyEnd(text: string, e: nat): (r: Option<nat>)
    requires 1 <= e
    ensures r.Some? ==> e <= r.value && RAt(text, r.value)
    ensures r.Some? ==> forall k :: e - 1 <= k < r.value ==> text[k] != '\n'
    ensures r.Some? ==> forall x :: e <= x < r.value ==> !RAt(text, x)
    ensures forall x :: e <= x && RAt(text, x) && (forall k :: e - 1 <= k < x ==> text[k] != '\n') ==>
                        r.Some? && r.value <= x
    decreases |text| + 1 - e
  {
    if e > |text| || text[e - 1] == '\n' then None
    else if RAt(text, e) then Some(e)
    else LazyEnd(text, e + 1)
  }

  /** What the regex engine finds when it tries start position i. */
  function MatchAt(pat: Pattern, text: string, i: nat): (m: Option<Span>)
    requires i <= |text|
    ensures m.Some? ==> m.value.start < m.value.end <= |text|
    ensures m.Some? ==> forall k :: m.value.start <= k < m.value.end ==> text[k] != '\n'
  {
    var p := i + |pat.prefix|;
    if !LabelAt(text, i, pat.prefix) then None
    else match pat
      case SpacesThenLine(_) =>
        var n := SpaceRun(text, p);
        (match Backtrack(text, p, n)
         case None => None
         case Some(q) => Some(Span(q, LineEnd(text, q))))
      case SpaceThenLine(_) =>
        if p + 1 < |text| && text[p] == ' ' && text[p + 1] != '\n' then Some(Span(p + 1, LineEnd(text, p + 1)))
        else None
      case SpaceThenLazyBeforeR(_) =>
        if p < |text| && text[p] == ' ' then
          (match LazyEnd(text, p + 2)
           case None => None
           case Some(e) => Some(Span(p + 1, e)))
        else None
  }

  /** What the engine finds is a match in the declarative sense. */
  lemma MatchAtSound(pat: Pattern, text: string, i: nat)
    requires i <= |text|
    ensures MatchAt(pat, text, i).Some? ==> Matches(pat, text, i, MatchAt(pat, text, i).value)
  {
    var p := i + |pat.prefix|;
    if LabelAt(text, i, pat.prefix) && pat.SpacesThenLine? {
      var n := SpaceRun(text, p);
      match Backtrack(text, p, n)
      case None =>
      case Some(q) =>
        forall x | q < x < |text| && text[x] != '\n'
          ensures !(forall k :: p <= k < x ==> IsSpace(text[k]))
        {
          assert p + n < x && !IsSpace(text[p + n]);
        }
    }
  }

  lemma LineEndUnique(text: string, start: nat, a: nat, b: nat)
    requires IsLineEnd(text, start, a) && IsLineEnd(text, start, b)
    ensures a == b
  {
  }

  /** The engine finds every match the declarative reading admits, so a match at i is unique. */
  lemma MatchAtComplete(pat: Pattern, text: string, i: nat, s: Span)
    requires i <= |text|
    requires Matches(pat, text, i, s)
    ensures MatchAt(pat, text, i) == Some(s)
  {
    var p := i + |pat.prefix|;
    match pat
    case SpacesThenLine(_) =>
      var n := SpaceRun(text, p);
      var q := Backtrack(text, p, n);
      assert q.Some? && s.start <= q.value;
      assert forall k :: p <= k < q.value ==> IsSpace(text[k]);
      assert q.value == s.start;
      LineEndUnique(text, s.start, s.end, LineEnd(text, s.start));
    case SpaceThenLine(_) =>
      LineEndUnique(text, s.start, s.end, LineEnd(text, s.start));
    case SpaceThenLazyBeforeR(_) =>
      var r := LazyEnd(text, p + 2);
      assert r.Some? && r.value <= s.end;
  }

  /** Leftmost start position at or after from where the pattern matches. */
  function FirstMatch(pat: Pattern, text: string, from: nat): (r: Option<nat>)
    requires from <= |text| + 1
    ensures r.Some? ==> from <= r.value <= |text| && MatchAt(pat, text, r.value).Some?
    ensures forall j :: from <= j <= |text| && (r.None? || j < r.value) ==> MatchAt(pat, text, j).None?
    decreases |text| + 1 - from
  {
    if from > |text| then None
    else if MatchAt(pat, text, from).Some? then Some(from)
    else FirstMatch(pat, text, from + 1)
  }

  /** re.search(pattern, text).group(1); None where Python's search returns None. */
  function Search(pat: Pattern, text: string): (r: Option<string>)
    ensures r.Some? ==> r.value != [] && forall k :: 0 <= k < |r.value| ==> r.value[k] != '\n'
  {
    match FirstMatch(pat, text, 0)
    case None => None
    case Some(i) =>
      var s := MatchAt(pat, text, i).value;
      Some(text[s.start..s.end])
  }

  /** Group 1 of the match at i, which begins no earlier than any other match. */
  ghost predicate LeftmostMatch(pat: Pattern, text: string, i: nat, s: Span) {
    && i <= |text|
    && Matches(pat, text, i, s)
    && forall j, s' :: 0 <= j < i && Matches(pat, text, j, s') ==> false
  }

  /**
   * Search returns the group of the leftmost match, and returns nothing
   * exactly when no start position matches.
   */
  lemma SearchSpec(pat: Pattern, text: string)
    ensures Search(pat, text).Some? ==>
              exists i, s :: LeftmostMatch(pat, text, i, s) && Search(pat, text).value == text[s.start..s.end]
    ensures Search(pat, text).None? ==> forall i, s :: 0 <= i <= |text| ==> !Matches(pat, text, i, s)
  {
    var r := FirstMatch(pat, text, 0);
    match r
    case None =>
      forall i, s | 0 <= i <= |text| ensures !Matches(pat, text, i, s) {
        if Matches(pat, text, i, s) {
          MatchAtComplete(pat, text, i, s);
        }
      }
    case Some(i) =>
      var s := MatchAt(pat, text, i).value;
      MatchAtSound(pat, text, i);
      forall j, s' | 0 <= j < i && Matches(pat, text, j, s') ensures false {
        MatchAtComplete(pat, text, j, s');
      }
      assert LeftmostMatch(pat, text, i, s);
  }

  lemma {:induction false} FirstMatchFrom(pat: Pattern, text: string, from: nat, i: nat)
    requires from <= i <= |text| && MatchAt(pat, text, i).Some?
    requires forall j :: from <= j < i ==> MatchAt(pat, text, j).None?
    ensures FirstMatch(pat, text, from) == Some(i)
    decreases i - from
  {
    if from < i {
      FirstMatchFrom(pat, text, from + 1, i);
    }
  }

  /**
   * A match at i is what Search reports when no earlier position carries the
   * k-th character of the label at its k-th place.
   */
  lemma SearchFinds(pat: Pattern, text: string, i: nat, s: Span, k: nat)
    requires i <= |text| && k < |pat.prefix|
    requires Matches(pat, text, i, s)
    requires forall j :: k <= j < i + k && j < |text| ==> text[j] != pat.prefix[k]
    ensures Search(pat, text) == Some(text[s.start..s.end])
  {
    forall j | 0 <= j < i ensures MatchAt(pat, text, j).None? {
      if j + |pat.prefix| <= |text| {
        assert text[j..j + |pat.prefix|][k] != pat.prefix[k];
      }
      assert !LabelAt(text, j, pat.prefix);
    }
    MatchAtComplete(pat, text, i, s);
    FirstMatchFrom(pat, text, 0, i);
  }
}
