/**
 * Column resolution in process_excel: each field goes to the first header
 * cell that carries its column name, or, when the name is absent, to a fixed
 * offset past the end of the header snapshot. The header row itself is only
 * read.
 */
module Columns {
  import opened Wrappers
  import opened Sheets
  import opened Extraction

  /** The dashboard column each field is filed under. */
  function HeaderName(f: Field): string {
    match f
    case Region => "Region"
    case SiteNumber => "External Asset ID"
    case MonthlyTotal => "MinimumLeasePaymentaspercontract"
    case CommencementDate => "Current Lease Commencement Date"
  }

  /** How far past the header snapshot an absent field's column lies. */
  function Offset(f: Field): nat {
    match f
    case Region => 1
    case SiteNumber => 2
    case MonthlyTotal => 3
    case CommencementDate => 4
  }

  /** list.index: the first position holding v, None where Python raises ValueError. */
  function IndexOf(headers: seq<Value>, v: Value): Option<nat> {
    if headers == [] then None
    else if headers[0] == v then Some(0)
    else
      match IndexOf(headers[1..], v)
      case None => None
      case Some(i) => Some(i + 1)
  }

  /** IndexOf finds the first occurrence, and finds nothing exactly when v does not occur. */
  lemma {:induction false} IndexOfSpec(headers: seq<Value>, v: Value)
    ensures var r := IndexOf(headers, v);
            && (r.Some? ==> r.value < |headers| && headers[r.value] == v && v !in headers[..r.value])
            && (r.None? <==> v !in headers)
  {
    if headers != [] && headers[0] != v {
      IndexOfSpec(headers[1..], v);
      match IndexOf(headers[1..], v)
      case None =>
      case Some(i) =>
        assert headers[..i + 1] == [headers[0]] + headers[1..][..i];
    }
  }

  /**
   * The 1-based column for field f: the first header cell holding the
   * field's name, or len(headers) + Offset(f) when no header cell does.
   */
  function ColumnFor(headers: seq<Value>, f: Field): (col: nat)
    ensures 1 <= col
  {
    match IndexOf(headers, Text(HeaderName(f)))
    case Some(i) => i + 1
    case None => |headers| + Offset(f)
  }

  /** Where the column lies: at the first header cell naming the field, or Offset(f) past the headers when none does. */
  lemma ColumnForSpec(headers: seq<Value>, f: Field)
    ensures Text(HeaderName(f)) in headers <==> ColumnFor(headers, f) <= |headers|
    ensures ColumnFor(headers, f) <= |headers| ==>
              && headers[ColumnFor(headers, f) - 1] == Text(HeaderName(f))
              && Text(HeaderName(f)) !in headers[..ColumnFor(headers, f) - 1]
    ensures ColumnFor(headers, f) > |headers| ==> ColumnFor(headers, f) == |headers| + Offset(f)
  {
    IndexOfSpec(headers, Text(HeaderName(f)));
  }

  /** Two different fields never share a column, whatever the header row holds. */
  lemma ColumnsDistinct(headers: seq<Value>, f: Field, g: Field)
    requires f != g
    ensures ColumnFor(headers, f) != ColumnFor(headers, g)
  {
    ColumnForSpec(headers, f);
    ColumnForSpec(headers, g);
    var cf, cg := ColumnFor(headers, f), ColumnFor(headers, g);
    if cf <= |headers| && cg <= |headers| {
      assert HeaderName(f) != HeaderName(g) by {
        assert HeaderName(f)[0] != HeaderName(g)[0] || |HeaderName(f)| != |HeaderName(g)|;
      }
    }
  }

  /**
   * A sheet create_sheet has just made reads one empty header cell, so the
   * four fields land in columns 2 to 5.
   */
  lemma FreshSheetColumns(f: Field)
    ensures HeaderRow(EmptySheet) == [Blank]
    ensures ColumnFor(HeaderRow(EmptySheet), f) == Offset(f) + 1
  {
    assert HeaderRow(EmptySheet)[0] == Blank;
    ColumnForSpec(HeaderRow(EmptySheet), f);
  }
}
