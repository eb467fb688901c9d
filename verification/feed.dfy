/**
  The catalogue loader: the spreadsheet table, already parsed from its response
  envelope, is turned into rows keyed by column id (`getData`, src/App.js:76-84),
  filtered by the inclusion rule (src/App.js:86) and reversed into most-recent-first
  order before it is stored as page state (src/App.js:99).
 */
module Feed {
  import opened JsValue
  import Seqs

  /** One cell of `table.rows[i].c`: `null`, or an object whose `v` is the value
      (`Absent` when the object has no `v`). */
  datatype Cell = NullCell | Cell(v: Value)

  /** A column descriptor of `table.cols`; only its `id` is read. */
  datatype Column = Column(id: string)

  /** The parsed `table` of the feed: column descriptors and, for each row, its cell list `c`. */
  datatype Table = Table(cols: seq<Column>, rows: seq<seq<Cell>>)

  /** A normalised row: an object from column id to value. */
  type Row = map<string, Value>

  /** `row[key]`: a key the object lacks reads as `undefined`. */
  function Get(row: Row, key: string): Value {
    if key in row then row[key] else Absent
  }

  /** `cell?.v`. */
  function CellValue(c: Cell): Value {
    match c
    case NullCell => Absent
    case Cell(v) => v
  }

  /** `headings = cols.map(item => item.id)`. */
  function Headings(cols: seq<Column>): (headings: seq<string>)
    ensures |headings| == |cols|
    ensures forall i :: 0 <= i < |cols| ==> headings[i] == cols[i].id
  {
    seq(|cols|, i requires 0 <= i < |cols| => cols[i].id)
  }

  /** The property key `headings[idx]` denotes: past the end of the column list it is
      `undefined`, which becomes the key "undefined". */
  function Key(headings: seq<string>, idx: nat): string {
    if idx < |headings| then headings[idx] else "undefined"
  }

  /** The object built by running `row[headings[idx]] = cell?.v` for `idx` in `0 .. n - 1`. */
  function Assign(headings: seq<string>, cells: seq<Cell>, n: nat): Row
    requires n <= |cells|
  {
    if n == 0 then map[]
    else Assign(headings, cells, n - 1)[Key(headings, n - 1) := CellValue(cells[n - 1])]
  }

  /** After the first `n` assignments the object has exactly the keys they wrote. */
  lemma {:induction false} AssignKeys(headings: seq<string>, cells: seq<Cell>, n: nat)
    requires n <= |cells|
    ensures forall k :: k in Assign(headings, cells, n) <==> exists idx :: 0 <= idx < n && Key(headings, idx) == k
  {
    if n > 0 {
      AssignKeys(headings, cells, n - 1);
      var row := Assign(headings, cells, n);
      forall k | k in row
        ensures exists idx :: 0 <= idx < n && Key(headings, idx) == k
      {
        if k != Key(headings, n - 1) {
          assert k in Assign(headings, cells, n - 1);
        }
      }
    }
  }

  /** After the first `n` assignments each key holds the value of the last assignment that wrote it. */
  lemma {:induction false} AssignValues(headings: seq<string>, cells: seq<Cell>, n: nat)
    requires n <= |cells|
    ensures forall idx :: 0 <= idx < n && LastWrite(headings, cells, n, idx) ==>
              Get(Assign(headings, cells, n), Key(headings, idx)) == CellValue(cells[idx])
  {
    if n > 0 {
      AssignValues(headings, cells, n - 1);
      var key := Key(headings, n - 1);
      forall idx | 0 <= idx < n && LastWrite(headings, cells, n, idx)
        ensures Get(Assign(headings, cells, n), Key(headings, idx)) == CellValue(cells[idx])
      {
        if idx < n - 1 {
          assert Key(headings, n - 1) != Key(headings, idx);
          assert LastWrite(headings, cells, n - 1, idx);
        }
      }
    }
  }

  /** No assignment after the one at `idx`, among the first `n`, writes the same key. */
  predicate LastWrite(headings: seq<string>, cells: seq<Cell>, n: nat, idx: nat) {
    forall j :: idx < j < n ==> Key(headings, j) != Key(headings, idx)
  }

  /** One normalised row: the cells zipped against the column ids, the later of two
      cells under the same id winning. */
  function NormaliseRow(headings: seq<string>, cells: seq<Cell>): Row {
    Assign(headings, cells, |cells|)
  }

  /** `table.rows.map(...)`: one normalised row per feed row, in feed order. */
  function Normalise(t: Table): (rows: seq<Row>)
    ensures |rows| == |t.rows|
    ensures forall i :: 0 <= i < |rows| ==> rows[i] == NormaliseRow(Headings(t.cols), t.rows[i])
  {
    var headings := Headings(t.cols);
    seq(|t.rows|, i requires 0 <= i < |t.rows| => NormaliseRow(headings, t.rows[i]))
  }

  /** The inclusion rule `o.A && o.B && o.G > 0`. */
  predicate Keep(row: Row)
  {
    Truthy(Get(row, "A")) && Truthy(Get(row, "B")) && GreaterThanZero(Get(row, "G"))
  }

  /** `getData` from the parsed table on: the normalised rows that pass the inclusion rule. */
  function GetData(t: Table): (data: seq<Row>)
    ensures |data| <= |t.rows|
    ensures forall i :: 0 <= i < |data| ==> Keep(data[i])
    ensures Seqs.IsSubseq(data, Normalise(t))
  {
    Seqs.Filter(Keep, Normalise(t))
  }

  /** The state `setData(data.reverse())` stores: the kept rows, most recent first. */
  function Catalogue(t: Table): (data: seq<Row>)
    ensures Seqs.Reverse(data) == GetData(t)
  {
    var kept := GetData(t);
    Seqs.ReverseInvolutive(kept);
    Seqs.Reverse(kept)
  }

  /** The heading `{!data.length && "Загрузка..."}`: the loading text while the list is
      empty, nothing otherwise. */
  function LoadingHeading(data: seq<Row>): (text: string)
    ensures text != "" <==> |data| == 0
  {
    if |data| == 0 then "Загрузка..." else ""
  }

  /** Every cell of every feed row lands under its column id in the normalised row of
      the same position, unless a later cell of that row writes the same id; and the
      normalised row has no key but those ids. */
  lemma NormaliseZips(t: Table, i: nat, idx: nat)
    requires i < |t.rows| && idx < |t.rows[i]|
    requires LastWrite(Headings(t.cols), t.rows[i], |t.rows[i]|, idx)
    ensures Get(Normalise(t)[i], Key(Headings(t.cols), idx)) == CellValue(t.rows[i][idx])
    ensures forall k :: k in Normalise(t)[i] ==>
              exists j :: 0 <= j < |t.rows[i]| && Key(Headings(t.cols), j) == k
  {
    AssignKeys(Headings(t.cols), t.rows[i], |t.rows[i]|);
    AssignValues(Headings(t.cols), t.rows[i], |t.rows[i]|);
  }

  /** The column ids are pairwise different. */
  predicate DistinctIds(cols: seq<Column>) {
    forall a, b :: 0 <= a < b < |cols| ==> cols[a].id != cols[b].id
  }

  /** With distinct column ids and no more cells than columns (the shape the feed
      delivers), the normalised row maps column `idx`'s id to cell `idx`'s value, and the
      id of a column the row has no cell for reads as `undefined`. */
  lemma {:induction false} ZipWithDistinctIds(cols: seq<Column>, cells: seq<Cell>)
    requires DistinctIds(cols) && |cells| <= |cols|
    ensures forall idx :: 0 <= idx < |cells| ==>
              Get(NormaliseRow(Headings(cols), cells), cols[idx].id) == CellValue(cells[idx])
    ensures forall idx :: |cells| <= idx < |cols| ==>
              Get(NormaliseRow(Headings(cols), cells), cols[idx].id) == Absent
  {
    var headings := Headings(cols);
    var row := NormaliseRow(headings, cells);
    AssignKeys(headings, cells, |cells|);
    AssignValues(headings, cells, |cells|);
    forall idx | 0 <= idx < |cells|
      ensures Get(row, cols[idx].id) == CellValue(cells[idx])
    {
      assert Key(headings, idx) == cols[idx].id;
      assert LastWrite(headings, cells, |cells|, idx);
    }
    forall idx | |cells| <= idx < |cols|
      ensures Get(row, cols[idx].id) == Absent
    {
      assert forall j :: 0 <= j < |cells| ==> Key(headings, j) == cols[j].id != cols[idx].id;
    }
  }

  /** The inclusion rule in the terms of the source: a kept row has truthy `A` and `B`
      and a `G` greater than zero, so a row missing `A` or `B`, or with no `G`, is dropped. */
  lemma KeepMeans(row: Row)
    ensures Keep(row) ==> Truthy(Get(row, "A")) && Truthy(Get(row, "B"))
    ensures "A" !in row || "B" !in row || "G" !in row ==> !Keep(row)
    ensures Get(row, "G").Num? ==> (Keep(row) ==> Get(row, "G").n > 0.0)
    ensures Get(row, "G") == Num(0.0) || Get(row, "A") == Num(0.0) || Get(row, "B") == Str("") ==> !Keep(row)
  {
  }

  /** `getData` keeps exactly the normalised rows that pass the inclusion rule, in feed
      order, each as often as it occurs, and never more rows than the feed has. */
  lemma GetDataFilters(t: Table)
    ensures |GetData(t)| <= |t.rows|
    ensures forall i :: 0 <= i < |GetData(t)| ==> Keep(GetData(t)[i])
    ensures forall i :: 0 <= i < |t.rows| ==> (Normalise(t)[i] in GetData(t) <==> Keep(Normalise(t)[i]))
    ensures forall r :: multiset(GetData(t))[r] == if Keep(r) then multiset(Normalise(t))[r] else 0
    ensures Seqs.IsSubseq(GetData(t), Normalise(t))
  {
  }

  /** The stored catalogue is `getData`'s result reversed: same rows, same length,
      element `i` is element `n - 1 - i` of the feed-ordered list. */
  lemma CatalogueReverses(t: Table)
    ensures |Catalogue(t)| == |GetData(t)| <= |t.rows|
    ensures forall i :: 0 <= i < |GetData(t)| ==>
              Catalogue(t)[i] == GetData(t)[|GetData(t)| - 1 - i]
    ensures multiset(Catalogue(t)) == multiset(GetData(t))
    ensures Seqs.Reverse(Catalogue(t)) == GetData(t)
  {
    var kept := GetData(t);
    assert Catalogue(t) == Seqs.Reverse(kept);
    Seqs.ReversePermutes(kept);
    Seqs.ReverseInvolutive(kept);
  }

  /** A feed row is in the stored catalogue exactly when it passes the inclusion rule;
      in particular a row whose `A` or `B` is falsy never is. */
  lemma CatalogueMembership(t: Table, i: nat)
    requires i < |t.rows|
    ensures Normalise(t)[i] in Catalogue(t) <==> Keep(Normalise(t)[i])
    ensures !Truthy(Get(Normalise(t)[i], "A")) || !Truthy(Get(Normalise(t)[i], "B"))
            ==> Normalise(t)[i] !in Catalogue(t)
  {
    Seqs.ReversePermutes(GetData(t));
    assert Normalise(t)[i] in Catalogue(t) <==> Normalise(t)[i] in multiset(Catalogue(t));
  }

  /** After the feed arrives the loading text stays up exactly when no feed row passes
      the inclusion rule. */
  lemma LoadingWhileNothingKept(t: Table)
    ensures LoadingHeading(Catalogue(t)) != "" <==> forall i :: 0 <= i < |t.rows| ==> !Keep(Normalise(t)[i])
  {
    if |Catalogue(t)| > 0 {
      var r := GetData(t)[0];
      assert r in Normalise(t);
    } else {
      forall i | 0 <= i < |t.rows|
        ensures !Keep(Normalise(t)[i])
      {
        assert Normalise(t)[i] in Normalise(t);
      }
    }
  }
}
