/**
 * The parsed Wikipedia page, as much of it as the scraper reads: the `h1`
 * heading, the "infobox vcard" table as a sequence of rows, the category
 * boxes and the page's whole text.
 *
 * A row holds at most one header cell (`th`) and a list of data cells
 * (`td`); a cell keeps its `class` list, its text and the text of its first
 * link. Equality of rows is structural, as Beautiful Soup compares tags.
 */
module Page {
  import opened Wrappers
  import opened Text

  datatype Header = Header(text: string, classes: seq<string>)

  /** A `td`: its classes, its text and the text of its first `a`, if it has one. */
  datatype Cell = Cell(classes: seq<string>, text: string, link: Option<string>)

  /** A `tr`: its `th`, its own classes and its `td`s in document order. */
  datatype Row = Row(header: Option<Header>, classes: seq<string>, cells: seq<Cell>)

  /** The infobox table: its whole text and its rows. */
  datatype Infobox = Infobox(text: string, rows: seq<Row>)

  /**
   * What the scraper reads from a page: the `h1` text (if there is an `h1`),
   * the infobox (if there is one), the texts of the category boxes and the
   * text of the whole page.
   */
  datatype WikiPage = WikiPage(heading: Option<string>, infobox: Option<Infobox>, categories: seq<string>, text: string)

  /** The rows the table scans walk: those of the infobox, none without one. */
  function Rows(p: WikiPage): seq<Row> {
    if p.infobox.Some? then p.infobox.value.rows else []
  }

  /** The `td`s of a row with class `infobox-data`, in order: `row.find_all("td", class_="infobox-data")`. */
  function DataCells(cells: seq<Cell>): (r: seq<Cell>)
    ensures |r| <= |cells|
  {
    if cells == [] then []
    else if "infobox-data" in cells[0].classes then [cells[0]] + DataCells(cells[1..])
    else DataCells(cells[1..])
  }

  /** `row.find("td", class_="infobox-data")`: the first data cell. */
  function FirstDataCell(row: Row): Option<Cell> {
    var d := DataCells(row.cells);
    if d == [] then None else Some(d[0])
  }

  /** `find_all` keeps exactly the cells with class `infobox-data`, in their order. */
  lemma {:induction false} DataCellsKeepsDataCells(cells: seq<Cell>)
    ensures forall c :: c in DataCells(cells) <==> c in cells && "infobox-data" in c.classes
    decreases |cells|
  {
    if cells != [] {
      DataCellsKeepsDataCells(cells[1..]);
      assert cells == [cells[0]] + cells[1..];
    }
  }
}
