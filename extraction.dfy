/**
 * extract_information: four label-anchored searches over one page of text,
 * each group stripped of surrounding whitespace. The first search that finds
 * nothing ends the extraction (Python raises AttributeError on `.group`).
 */
module Extraction {
  import opened Wrappers
  import opened PyText
  import opened Patterns

  /** The four extracted fields, in the order the source searches for them. */
  datatype Field = Region | SiteNumber | MonthlyTotal | CommencementDate

  datatype Record = Record(region: string, siteNumber: string, monthlyTotal: string, commencementDate: string)
  {
    function Get(f: Field): string {
      match f
      case Region => region
      case SiteNumber => siteNumber
      case MonthlyTotal => monthlyTotal
      case CommencementDate => commencementDate
    }
  }

  function PatternOf(f: Field): Pattern {
    match f
    case Region => SpacesThenLine("ATC REGION")
    case SiteNumber => SpacesThenLine("LESSEE  SITE NUMBER")
    case MonthlyTotal => SpaceThenLazyBeforeR("TOTAL  -  per month (exclusive of VAT)")
    case CommencementDate => SpaceThenLine("RENEWAL TERM  COMMENCEMENT  DATE")
  }

  /** re.search(...).group(1).strip() for one field; Failure(f) where Python raises. */
  function ExtractField(f: Field, text: string): Result<string, Field> {
    match Search(PatternOf(f), text)
    case None => Failure(f)
    case Some(group) => Success(Strip(group))
  }

  function ExtractInformation(text: string): Result<Record, Field> {
    var region :- ExtractField(Region, text);
    var siteNumber :- ExtractField(SiteNumber, text);
    var monthlyTotal :- ExtractField(MonthlyTotal, text);
    var commencementDate :- ExtractField(CommencementDate, text);
    Success(Record(region, siteNumber, monthlyTotal, commencementDate))
  }

  /**
   * One field: on success the value is the stripped group of the leftmost
   * match, so it has no whitespace at either end and no line break; the
   * search fails exactly when the pattern matches at no position.
   */
  lemma ExtractFieldSpec(f: Field, text: string)
    ensures ExtractField(f, text).Success? ==>
              exists i, s :: LeftmostMatch(PatternOf(f), text, i, s)
                             && ExtractField(f, text).value == Strip(text[s.start..s.end])
    ensures ExtractField(f, text).Success? ==>
              var v := ExtractField(f, text).value;
              NoEdgeSpace(v) && '\n' !in v
    ensures ExtractField(f, text).Failure? <==>
              forall i, s :: 0 <= i <= |text| ==> !Matches(PatternOf(f), text, i, s)
  {
    var pat := PatternOf(f);
    SearchSpec(pat, text);
    match Search(pat, text)
    case None =>
    case Some(g) =>
      if '\n' in Strip(g) {
        StripKeeps(g, '\n');
      }
  }

  /**
   * The record succeeds exactly when every field does, and then holds each
   * field's own extraction; otherwise the error names the first field, in
   * search order, whose pattern is absent.
   */
  lemma ExtractInformationSpec(text: string)
    ensures ExtractInformation(text).Success? <==>
              forall f :: ExtractField(f, text).Success?
    ensures ExtractInformation(text).Success? ==>
              forall f :: ExtractInformation(text).value.Get(f) == ExtractField(f, text).value
    ensures ExtractInformation(text).Failure? ==>
              var f := ExtractInformation(text).error;
              && ExtractField(f, text).Failure?
              && (f != Region ==> ExtractField(Region, text).Success?)
              && (f == MonthlyTotal || f == CommencementDate ==> ExtractField(SiteNumber, text).Success?)
              && (f == CommencementDate ==> ExtractField(MonthlyTotal, text).Success?)
  {
    var a, b, c, d := ExtractField(Region, text), ExtractField(SiteNumber, text),
                      ExtractField(MonthlyTotal, text), ExtractField(CommencementDate, text);
    if a.Failure? {
      assert ExtractInformation(text) == Failure(Region);
    } else if b.Failure? {
      assert ExtractInformation(text) == Failure(SiteNumber);
    } else if c.Failure? {
      assert ExtractInformation(text) == Failure(MonthlyTotal);
    } else if d.Failure? {
      assert ExtractInformation(text) == Failure(CommencementDate);
    } else {
      var r := Record(a.value, b.value, c.value, d.value);
      assert ExtractInformation(text) == Success(r);
      forall f ensures ExtractField(f, text).Success? && r.Get(f) == ExtractField(f, text).value {
        match f
        case Region =>
        case SiteNumber =>
        case MonthlyTotal =>
        case CommencementDate =>
      }
    }
  }

  /**
   * A page in the documented format yields the value on the label's line: if
   * the pattern matches at i with group v, and no earlier position carries the
   * label's k-th character where the label would have it, the field is v
   * stripped.
   */
  lemma ExtractFieldFinds(f: Field, text: string, i: nat, s: Span, k: nat)
    requires i <= |text| && k < |PatternOf(f).prefix|
    requires Matches(PatternOf(f), text, i, s)
    requires forall j :: k <= j < i + k && j < |text| ==> text[j] != PatternOf(f).prefix[k]
    ensures s.start <= s.end <= |text|
    ensures ExtractField(f, text) == Success(Strip(text[s.start..s.end]))
  {
    SearchFinds(PatternOf(f), text, i, s, k);
    MatchAtComplete(PatternOf(f), text, i, s);
  }

  lemma NoEdgeStrip(v: string)
    requires NoEdgeSpace(v)
    ensures Strip(v) == v
  {
    assert [] + v + [] == v;
    StripUnique([], v, []);
  }

  /** A line-valued pattern matches at the start of "label, one blank, value, end of line". */
  lemma LineMatch(pat: Pattern, v: string, rest: string)
    requires !pat.SpaceThenLazyBeforeR?
    requires v != [] && NoEdgeSpace(v) && '\n' !in v
    requires rest == [] || rest[0] == '\n'
    ensures Matches(pat, pat.prefix + " " + v + rest, 0, Span(|pat.prefix| + 1, |pat.prefix| + 1 + |v|))
  {
    var lit := pat.prefix;
    var text := lit + " " + v + rest;
    var p := |lit|;
    var s := Span(p + 1, p + 1 + |v|);
    assert text[0..p] == lit;
    assert text[p] == ' ';
    assert forall k :: s.start <= k < s.end ==> text[k] == v[k - s.start];
    assert IsLineEnd(text, s.start, s.end);
    assert text[s.start] == v[0];
  }

  /**
   * A page that opens with a line-valued label, one blank and the value
   * yields exactly that value, whatever follows on later lines.
   */
  lemma LineAfterLabel(f: Field, v: string, rest: string)
    requires f != MonthlyTotal
    requires v != [] && NoEdgeSpace(v) && '\n' !in v
    requires rest == [] || rest[0] == '\n'
    ensures ExtractField(f, PatternOf(f).prefix + " " + v + rest) == Success(v)
  {
    var text := PatternOf(f).prefix + " " + v + rest;
    var s := Span(|PatternOf(f).prefix| + 1, |PatternOf(f).prefix| + 1 + |v|);
    LineMatch(PatternOf(f), v, rest);
    ExtractFieldFinds(f, text, 0, s, 0);
    assert text[s.start..s.end] == v;
    NoEdgeStrip(v);
  }

  /**
   * A page that opens with the monthly-total label, one blank, the amount and
   * " R" yields the amount, provided the amount itself holds no " R".
   */
  lemma TotalAfterLabel(v: string, rest: string)
    requires v != [] && NoEdgeSpace(v) && '\n' !in v
    requires forall e :: 0 < e < |v| - 1 ==> !(v[e] == ' ' && v[e + 1] == 'R')
    ensures ExtractField(MonthlyTotal, PatternOf(MonthlyTotal).prefix + " " + v + " R" + rest) == Success(v)
  {
    var lit := PatternOf(MonthlyTotal).prefix;
    var text := lit + " " + v + " R" + rest;
    var p := |lit|;
    var s := Span(p + 1, p + 1 + |v|);
    assert text[0..p] == lit;
    assert text[p] == ' ';
    assert text[s.start..s.end] == v;
    assert forall k :: s.start <= k < s.end ==> text[k] == v[k - s.start];
    assert text[s.end] == ' ' && text[s.end + 1] == 'R';
    assert Matches(PatternOf(MonthlyTotal), text, 0, s);
    ExtractFieldFinds(MonthlyTotal, text, 0, s, 0);
    NoEdgeStrip(v);
  }
}
