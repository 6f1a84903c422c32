/**
 * The closed vocabulary of block types an analysed page is made of, each with
 * three capability flags fixed by the variant (utils/pdf_extract.py, BlockType).
 */
module BlockTypes {
  import opened Wrappers

  datatype BlockType =
    | KeyValueSet | Page | Line | Word | Table | Cell | SelectionElement
    | MergedCell | Title | Query | QueryResult | Signature | TableTitle | TableFooter
    | LayoutText | LayoutTitle | LayoutHeader | LayoutFooter | LayoutSectionHeader
    | LayoutPageNumber | LayoutList | LayoutFigure | LayoutTable | LayoutKeyValue

  /** Every variant, in declaration order. */
  const AllTypes: seq<BlockType> := [
    KeyValueSet, Page, Line, Word, Table, Cell, SelectionElement,
    MergedCell, Title, Query, QueryResult, Signature, TableTitle, TableFooter,
    LayoutText, LayoutTitle, LayoutHeader, LayoutFooter, LayoutSectionHeader,
    LayoutPageNumber, LayoutList, LayoutFigure, LayoutTable, LayoutKeyValue
  ]

  /** The member name, which is also the name the analysis service writes. */
  function Name(t: BlockType): string
  {
    match t
    case KeyValueSet => "KEY_VALUE_SET"
    case Page => "PAGE"
    case Line => "LINE"
    case Word => "WORD"
    case Table => "TABLE"
    case Cell => "CELL"
    case SelectionElement => "SELECTION_ELEMENT"
    case MergedCell => "MERGED_CELL"
    case Title => "TITLE"
    case Query => "QUERY"
    case QueryResult => "QUERY_RESULT"
    case Signature => "SIGNATURE"
    case TableTitle => "TABLE_TITLE"
    case TableFooter => "TABLE_FOOTER"
    case LayoutText => "LAYOUT_TEXT"
    case LayoutTitle => "LAYOUT_TITLE"
    case LayoutHeader => "LAYOUT_HEADER"
    case LayoutFooter => "LAYOUT_FOOTER"
    case LayoutSectionHeader => "LAYOUT_SECTION_HEADER"
    case LayoutPageNumber => "LAYOUT_PAGE_NUMBER"
    case LayoutList => "LAYOUT_LIST"
    case LayoutFigure => "LAYOUT_FIGURE"
    case LayoutTable => "LAYOUT_TABLE"
    case LayoutKeyValue => "LAYOUT_KEY_VALUE"
  }

  predicate IsLayout(t: BlockType)
  {
    t in {LayoutText, LayoutTitle, LayoutHeader, LayoutFooter, LayoutSectionHeader,
          LayoutPageNumber, LayoutList, LayoutFigure, LayoutTable, LayoutKeyValue}
  }

  predicate IsTable(t: BlockType)
  {
    t == MergedCell || t == TableTitle || t == TableFooter
  }

  predicate IsFigure(t: BlockType)
  {
    t == LayoutFigure || t == LayoutTable
  }

  /** A type with at least one capability flag: the only kind a part is made from. */
  predicate Flagged(t: BlockType)
  {
    IsLayout(t) || IsTable(t) || IsFigure(t)
  }

  /** `BlockType[name]`: the member with that name, or None where Python raises KeyError. */
  function FromName(name: string): (r: Option<BlockType>)
    ensures r.Some? ==> Name(r.value) == name
  {
    FindByName(AllTypes, name)
  }

  function FindByName(ts: seq<BlockType>, name: string): (r: Option<BlockType>)
    ensures r.Some? ==> r.value in ts && Name(r.value) == name
    ensures r.None? ==> forall i :: 0 <= i < |ts| ==> Name(ts[i]) != name
  {
    if ts == [] then None
    else if Name(ts[0]) == name then Some(ts[0])
    else FindByName(ts[1..], name)
  }

  predicate StartsWith(s: string, prefix: string)
  {
    |prefix| <= |s| && s[..|prefix|] == prefix
  }

  /** `is_layout` holds exactly for the members whose name starts with LAYOUT_. */
  lemma LayoutIffLayoutName(t: BlockType)
    ensures IsLayout(t) <==> StartsWith(Name(t), "LAYOUT_")
  {
    var n := Name(t);
    if IsLayout(t) {
      assert n[..7] == "LAYOUT_";
    } else if |n| >= 7 {
      assert n[0] != 'L';
      assert n[..7][0] != "LAYOUT_"[0];
    }
  }

  /** `is_table` holds exactly for MERGED_CELL, TABLE_TITLE and TABLE_FOOTER. */
  lemma TableFlagExactly(t: BlockType)
    ensures IsTable(t) <==> Name(t) in {"MERGED_CELL", "TABLE_TITLE", "TABLE_FOOTER"}
  {
  }

  /** `is_figure` holds exactly for LAYOUT_FIGURE and LAYOUT_TABLE, both of them layout types. */
  lemma FigureFlagExactly(t: BlockType)
    ensures IsFigure(t) <==> Name(t) in {"LAYOUT_FIGURE", "LAYOUT_TABLE"}
    ensures IsFigure(t) ==> IsLayout(t) && !IsTable(t)
  {
  }

  /** Looking a member up by its own name gives the member back. */
  lemma NameRoundTrip(t: BlockType)
    ensures FromName(Name(t)) == Some(t)
  {
    assert t in AllTypes;
    var i :| 0 <= i < |AllTypes| && AllTypes[i] == t;
    NamesDistinct();
    FindFirst(AllTypes, i);
  }

  lemma NamesDistinct()
    ensures forall i, j :: 0 <= i < j < |AllTypes| ==> Name(AllTypes[i]) != Name(AllTypes[j])
  {
  }

  lemma {:induction false} FindFirst(ts: seq<BlockType>, i: nat)
    requires i < |ts|
    requires forall j :: 0 <= j < i ==> Name(ts[j]) != Name(ts[i])
    ensures FindByName(ts, Name(ts[i])) == Some(ts[i])
  {
    if i > 0 {
      FindFirst(ts[1..], i - 1);
    }
  }
}
