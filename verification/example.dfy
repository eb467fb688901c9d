/**
  A worked example of the whole pipeline on a three-row feed: one row lacks its
  title, one is listed with a price but no positive `G`, one passes.
 */
module Example {
  import opened JsValue
  import opened Feed
  import Search
  import Seqs
  import JsString

  const cols: seq<Column> := [Column("A"), Column("B"), Column("C"), Column("G")]

  const kindOfBlue: seq<Cell> := [Cell(Num(1.0)), Cell(Str("Kind of Blue")), Cell(Str("Miles Davis")), Cell(Num(1.0))]
  const untitled: seq<Cell> := [Cell(Num(2.0)), NullCell, Cell(Str("Unknown")), Cell(Num(1.0))]
  const soldOut: seq<Cell> := [Cell(Num(3.0)), Cell(Str("Blue Train")), Cell(Str("John Coltrane")), Cell(Num(0.0))]

  /** A four-cell row of this table reads `A`, `B`, `C` and `G` from its four cells in turn. */
  lemma ExampleFields(cells: seq<Cell>)
    requires |cells| == 4
    ensures Get(NormaliseRow(Headings(cols), cells), "A") == CellValue(cells[0])
    ensures Get(NormaliseRow(Headings(cols), cells), "B") == CellValue(cells[1])
    ensures Get(NormaliseRow(Headings(cols), cells), "C") == CellValue(cells[2])
    ensures Get(NormaliseRow(Headings(cols), cells), "G") == CellValue(cells[3])
  {
    assert DistinctIds(cols);
    ZipWithDistinctIds(cols, cells);
    assert cols[0].id == "A" && cols[1].id == "B" && cols[2].id == "C" && cols[3].id == "G";
  }

  /** A four-cell row of this table passes the inclusion rule exactly when its first
      and second cells are truthy and its fourth is greater than zero. */
  lemma ExampleKeep(cells: seq<Cell>)
    requires |cells| == 4
    ensures Keep(NormaliseRow(Headings(cols), cells)) <==>
              Truthy(CellValue(cells[0])) && Truthy(CellValue(cells[1])) && GreaterThanZero(CellValue(cells[3]))
  {
    ExampleFields(cells);
  }

  /** Of three rows, only the first passing the inclusion rule leaves a one-row catalogue. */
  lemma OnlyFirstOfThreeKept(t: Table)
    requires |t.rows| == 3
    requires Keep(Normalise(t)[0]) && !Keep(Normalise(t)[1]) && !Keep(Normalise(t)[2])
    ensures Catalogue(t) == [Normalise(t)[0]]
  {
    var n := Normalise(t);
    assert n[1..][1..] == [n[2]];
    assert Seqs.Filter(Keep, n[1..][1..]) == [];
    assert Seqs.Filter(Keep, n[1..]) == [];
    assert GetData(t) == [n[0]];
  }

  /** Only the row with a title and a positive `G` reaches the stored catalogue. */
  lemma ExampleCatalogue()
    ensures Catalogue(Table(cols, [kindOfBlue, untitled, soldOut])) == [NormaliseRow(Headings(cols), kindOfBlue)]
  {
    var t := Table(cols, [kindOfBlue, untitled, soldOut]);
    ExampleKeep(kindOfBlue);
    ExampleKeep(untitled);
    ExampleKeep(soldOut);
    OnlyFirstOfThreeKept(t);
  }

  /** "BLUE" occurs, case-insensitively, in "Kind of Blue". */
  lemma BlueInTitle()
    ensures JsString.OccursAt(JsString.Lower("Kind of Blue"), JsString.Lower("BLUE"), 8)
  {
    assert JsString.Lower("BLUE") == "blue";
    assert JsString.Lower("Kind of Blue")[8..12] == "blue";
  }

  /** A row titled "Kind of Blue" with a string artist is shown for the search "BLUE". */
  lemma TitleMatches(row: Row)
    requires Get(row, "B") == Str("Kind of Blue") && Get(row, "C").Str?
    ensures Search.Displayed(row, "BLUE")
  {
    BlueInTitle();
    Search.DisplayedIffMatches(row, "BLUE");
  }

  /** A one-row list whose row is shown survives the search unchanged. */
  lemma OneShownRow(row: Row, search: string)
    requires Search.Displayed(row, search)
    ensures Search.SearchFilter([row], search) == Normal([row])
  {
    assert [row][1..] == [];
    assert Search.Shown(search)(row);
    assert Seqs.Filter(Search.Shown(search), [row]) == [row];
  }

  /** "BLUE" does not occur, case-insensitively, in "Miles Davis": no character of it
      lowers to `b`. */
  lemma BlueNotInArtist()
    ensures !Search.Matches(Str("Miles Davis"), "BLUE")
  {
    var artist := "Miles Davis";
    var hay := JsString.Lower(artist);
    var needle := JsString.Lower("BLUE");
    assert needle[0] == 'b';
    assert 'b' !in artist && 'B' !in artist;
    forall i | 0 <= i < |hay|
      ensures hay[i] != 'b'
    {
      assert artist[i] in artist;
    }
    JsString.NoOccurrenceWithoutFirstChar(hay, needle);
  }

  /** Searching the example catalogue for "BLUE" keeps its one row, found through its
      title `B` although its artist `C` does not match. */
  lemma ExampleSearch()
    ensures Search.SearchFilter(Catalogue(Table(cols, [kindOfBlue, untitled, soldOut])), "BLUE")
            == Normal(Catalogue(Table(cols, [kindOfBlue, untitled, soldOut])))
    ensures Get(NormaliseRow(Headings(cols), kindOfBlue), "C") == Str("Miles Davis")
    ensures !Search.Matches(Str("Miles Davis"), "BLUE")
  {
    var t := Table(cols, [kindOfBlue, untitled, soldOut]);
    var row := NormaliseRow(Headings(cols), kindOfBlue);
    ExampleCatalogue();
    assert Catalogue(t) == [row];
    ExampleFields(kindOfBlue);
    TitleMatches(row);
    OneShownRow(row, "BLUE");
    BlueNotInArtist();
  }
}
