/**
  The three fixed vocabularies of the reference-data coder and how a text
  cell is turned into an integer code.
 */
module SectorCoding {
  import opened Wrappers

  /** A parsed cell of the reference table: some text, or a missing value. */
  datatype Cell = Text(text: string) | Missing

  /**
    A lookup table. `names` maps the known category names to their
    non-negative codes; `nanKey` says whether the table also has a NaN key,
    which codes a missing cell as the sentinel.
   */
  datatype Coding = Coding(names: map<string, nat>, nanKey: bool)

  /** The code stored for "unknown or unmapped". */
  const Sentinel: int := -1

  /** Sector names, 0..10; the table's NaN key codes a missing sector as -1. */
  const SectorCodes: Coding := Coding(
    map[
      "Technology" := 0,
      "Industrials" := 1,
      "Energy" := 2,
      "Utilities" := 3,
      "Consumer Cyclical" := 4,
      "Healthcare" := 5,
      "Financial Services" := 6,
      "Basic Materials" := 7,
      "Consumer Defensive" := 8,
      "Real Estate" := 9,
      "Communication Services" := 10
    ],
    true)

  /** Exchange names, 0..6; no NaN key. */
  const ExchangeCodes: Coding := Coding(
    map[
      "NYSE" := 0,
      "NASDAQ" := 1,
      "NYSEMKT" := 2,
      "OTC" := 3,
      "NYSEARCA" := 4,
      "BATS" := 5,
      "AMEX" := 6
    ],
    false)

  /** Listing categories, 0..13; no NaN key. */
  const CategoryCodes: Coding := Coding(
    map[
      "Domestic Common Stock" := 0,
      "Canadian Common Stock" := 1,
      "Domestic Common Stock Primary Class" := 2,
      "Domestic Common Stock Secondary Class" := 3,
      "Canadian Common Stock Primary Class" := 4,
      "Domestic Preferred Stock" := 5,
      "Domestic Common Stock Warrant" := 6,
      "Canadian Common Stock Warrant" := 7,
      "Canadian Preferred Stock" := 8,
      "ADR Common Stock" := 9,
      "ADR Common Stock Primary Class" := 10,
      "ADR Common Stock Warrant" := 11,
      "ADR Preferred Stock" := 12,
      "ADR Common Stock Secondary Class" := 13
    ],
    false)

  /** The cell holds one of the table's known names. */
  predicate InVocabulary(c: Coding, v: Cell) {
    v.Text? && v.text in c.names
  }

  /**
    What pandas' `Series.map` with the table gives for one cell: the code of a
    known name, the sentinel for a missing cell when the table has a NaN key,
    and NaN (`None`) otherwise.
   */
  function MapCell(c: Coding, v: Cell): (r: Option<int>)
    ensures InVocabulary(c, v) ==> r == Some(c.names[v.text])
    ensures v.Text? && !InVocabulary(c, v) ==> r == None
    ensures v.Missing? ==> r == (if c.nanKey then Some(Sentinel) else None)
  {
    match v
    case Text(s) => if s in c.names then Some(c.names[s]) else None
    case Missing => if c.nanKey then Some(Sentinel) else None
  }

  /**
    The code stored for a cell once NaN is replaced by the sentinel: the
    sentinel exactly when the cell is not one of the known names.
   */
  function Code(c: Coding, v: Cell): (r: int)
    ensures r == Sentinel <==> !InVocabulary(c, v)
    ensures r >= 0 ==> InVocabulary(c, v) && c.names[v.text] == r
    ensures r >= Sentinel
  {
    MapCell(c, v).GetOr(Sentinel)
  }

  /** Every known name codes into `0..hi`. */
  ghost predicate NamesWithin(c: Coding, hi: int) {
    forall s :: s in c.names ==> c.names[s] <= hi
  }

  /** The sector table codes into 0..10 and a missing sector into the sentinel. */
  lemma SectorTableRange()
    ensures NamesWithin(SectorCodes, 10)
    ensures MapCell(SectorCodes, Missing) == Some(Sentinel)
  {
  }

  /** The exchange table codes into 0..6; a missing exchange maps to NaN. */
  lemma ExchangeTableRange()
    ensures NamesWithin(ExchangeCodes, 6)
    ensures MapCell(ExchangeCodes, Missing) == None
  {
  }

  /** The category table codes into 0..13; a missing category maps to NaN. */
  lemma CategoryTableRange()
    ensures NamesWithin(CategoryCodes, 13)
    ensures MapCell(CategoryCodes, Missing) == None
  {
  }
}
