/** ItemCfValidator.ratingTable: the training records as a Guava
    ImmutableTable whose rows are items (ISBNs), whose columns are users and
    whose cells are integer ratings. The table is kept as its list of cells in
    insertion order, which is the order of rowKeySet, and of the row maps of
    a sparse table. */
module RatingTable {
  import opened Wrappers
  import opened Records
  import StringUtil

  datatype Cell = Cell(item: string, user: string, rating: int)

  datatype Table = Table(cells: seq<Cell>)

  /** A cell's (row, column) key. */
  function Key(c: Cell): (string, string) {
    (c.item, c.user)
  }

  /** The lower-cased (item, user) key of a record: the user id is token 0 and
      the item id token 1. */
  function RecordKey(tokens: Tokens): (string, string)
    requires |tokens| >= 2
  {
    (StringUtil.ToLower(tokens[1]), StringUtil.ToLower(tokens[0]))
  }

  /** No two cells share a (row, column) key. */
  predicate UniqueKeys(cells: seq<Cell>) {
    forall i, j :: 0 <= i < j < |cells| ==> Key(cells[i]) != Key(cells[j])
  }

  /** The cell one record puts into the builder. */
  function CellOf(tokens: Tokens): (r: Result<Cell, Exception>)
    ensures r.Failure? <==> !WellFormed(tokens)
    ensures r.Failure? ==> r.error == RatingValue(tokens).error
    ensures r.Success? ==> Key(r.value) == RecordKey(tokens) && r.value.rating == RatingValue(tokens).value
  {
    var rating :- RatingValue(tokens);
    var (item, user) := RecordKey(tokens);
    Success(Cell(item, user, rating))
  }

  /** The loop of ratingTable: one cell per record, in order, stopping at the
      first record that does not parse. */
  function Cells(data: seq<Tokens>): (r: Result<seq<Cell>, Exception>)
    ensures r.Success? <==> forall k :: 0 <= k < |data| ==> WellFormed(data[k])
    ensures r.Failure? ==> exists k :: FailsFirstAt(data, k, r.error)
    ensures r.Success? ==> |r.value| == |data|
    ensures r.Success? ==> forall k :: 0 <= k < |data| ==>
      Key(r.value[k]) == RecordKey(data[k]) && r.value[k].rating == RatingValue(data[k]).value
  {
    if |data| == 0 then Success([])
    else
      match CellOf(data[0])
      case Failure(e) =>
        assert FailsFirstAt(data, 0, e);
        Failure(e)
      case Success(c) =>
        var rest := Cells(data[1..]);
        if rest.Failure? then
          ShiftFailure(data, rest.error);
          Failure(rest.error)
        else
          CellsCons(data, c, rest.value);
          Success([c] + rest.value)
  }

  /** The cell of the first record in front of the cells of the others. */
  lemma CellsCons(data: seq<Tokens>, c: Cell, rest: seq<Cell>)
    requires |data| > 0 && CellOf(data[0]) == Success(c)
    requires |rest| == |data| - 1
    requires forall k :: 0 <= k < |rest| ==>
      && WellFormed(data[1..][k])
      && Key(rest[k]) == RecordKey(data[1..][k]) && rest[k].rating == RatingValue(data[1..][k]).value
    ensures forall k :: 0 <= k < |data| ==>
      && WellFormed(data[k])
      && Key(([c] + rest)[k]) == RecordKey(data[k]) && ([c] + rest)[k].rating == RatingValue(data[k]).value
  {
    forall k | 1 <= k < |data|
      ensures && WellFormed(data[k])
              && Key(([c] + rest)[k]) == RecordKey(data[k]) && ([c] + rest)[k].rating == RatingValue(data[k]).value
    {
      assert data[k] == data[1..][k - 1];
      assert ([c] + rest)[k] == rest[k - 1];
    }
  }

  lemma ShiftFailure(data: seq<Tokens>, e: Exception)
    requires |data| > 0 && WellFormed(data[0])
    requires exists k :: FailsFirstAt(data[1..], k, e)
    ensures exists k :: FailsFirstAt(data, k, e)
  {
    var k :| FailsFirstAt(data[1..], k, e);
    assert FailsFirstAt(data, k + 1, e) by {
      forall j | 0 <= j < k + 1 ensures WellFormed(data[j]) {
        if j > 0 {
          assert data[j] == data[1..][j - 1];
        }
      }
    }
  }

  /** ratingTable: the builder's table of lower-cased (item, user) keys and
      ratings. ImmutableTable.Builder.build throws IllegalArgumentException
      when two records have the same key. */
  function BuildTable(data: seq<Tokens>): (r: Result<Table, Exception>)
    ensures r.Success? <==>
      && (forall k :: 0 <= k < |data| ==> WellFormed(data[k]))
      && (forall i, j :: 0 <= i < j < |data| ==> RecordKey(data[i]) != RecordKey(data[j]))
    ensures r.Failure? ==>
      (exists k :: FailsFirstAt(data, k, r.error))
      || ((forall k :: 0 <= k < |data| ==> WellFormed(data[k])) && r.error == IllegalArgument)
    ensures r.Success? ==> UniqueKeys(r.value.cells) && |r.value.cells| == |data|
    ensures r.Success? ==> forall k :: 0 <= k < |data| ==>
      Key(r.value.cells[k]) == RecordKey(data[k]) && r.value.cells[k].rating == RatingValue(data[k]).value
  {
    match Cells(data)
    case Failure(e) => Failure(e)
    case Success(cells) =>
      if UniqueKeys(cells) then Success(Table(cells)) else Failure(IllegalArgument)
  }

  /* ---------------------------------------------------------------------- */
  /* Looking the table up                                                    */
  /* ---------------------------------------------------------------------- */

  /** table.get(item, user): the rating in that cell, if there is one. */
  function Lookup(cells: seq<Cell>, item: string, user: string): (r: Option<int>)
    ensures r.None? <==> forall k :: 0 <= k < |cells| ==> Key(cells[k]) != (item, user)
    ensures r.Some? ==> exists k :: 0 <= k < |cells| && Key(cells[k]) == (item, user) && cells[k].rating == r.value
  {
    if |cells| == 0 then None
    else if Key(cells[0]) == (item, user) then Some(cells[0].rating)
    else
      var rest := Lookup(cells[1..], item, user);
      assert forall k :: 1 <= k < |cells| ==> cells[k] == cells[1..][k - 1];
      if rest.Some? then
        var k :| 0 <= k < |cells[1..]| && Key(cells[1..][k]) == (item, user) && cells[1..][k].rating == rest.value;
        assert cells[k + 1] == cells[1..][k];
        rest
      else rest
  }

  /** With unique keys, every cell is found under its own key. */
  lemma LookupCell(cells: seq<Cell>, k: nat)
    requires UniqueKeys(cells) && k < |cells|
    ensures Lookup(cells, cells[k].item, cells[k].user) == Some(cells[k].rating)
  {
    var r := Lookup(cells, cells[k].item, cells[k].user);
    var j :| 0 <= j < |cells| && Key(cells[j]) == Key(cells[k]) && cells[j].rating == r.value;
    assert j == k;
  }

  /** Every training record can be looked up under its lower-cased key, and
      every rating in the table comes from a record. */
  lemma BuildTableLookup(data: seq<Tokens>, t: Table)
    requires BuildTable(data) == Success(t)
    ensures forall k :: 0 <= k < |data| ==>
      Lookup(t.cells, RecordKey(data[k]).0, RecordKey(data[k]).1) == Some(RatingValue(data[k]).value)
    ensures forall item, user :: Lookup(t.cells, item, user).Some? ==>
      exists k :: 0 <= k < |data| && RecordKey(data[k]) == (item, user)
        && RatingValue(data[k]).value == Lookup(t.cells, item, user).value
  {
    forall k | 0 <= k < |data|
      ensures Lookup(t.cells, RecordKey(data[k]).0, RecordKey(data[k]).1) == Some(RatingValue(data[k]).value)
    {
      LookupCell(t.cells, k);
    }
  }

  /** rowKeySet: the items, each once, in the order they first appear. */
  function ItemsOf(cells: seq<Cell>): (r: seq<string>)
    ensures forall x :: x in r <==> exists k :: 0 <= k < |cells| && cells[k].item == x
    ensures forall i, j :: 0 <= i < j < |r| ==> r[i] != r[j]
  {
    if |cells| == 0 then []
    else
      var init := cells[..|cells| - 1];
      var prev := ItemsOf(init);
      var c := cells[|cells| - 1];
      assert forall k :: 0 <= k < |init| ==> init[k] == cells[k];
      if c.item in prev then prev else prev + [c.item]
  }

  /** row(item).keySet(): the users who rated the item, in insertion order. */
  function RatersOf(cells: seq<Cell>, item: string): (r: seq<string>)
    ensures forall u :: u in r <==> exists k :: 0 <= k < |cells| && Key(cells[k]) == (item, u)
  {
    if |cells| == 0 then []
    else
      var init := cells[..|cells| - 1];
      var prev := RatersOf(init, item);
      var c := cells[|cells| - 1];
      assert forall k :: 0 <= k < |init| ==> init[k] == cells[k];
      if c.item == item then prev + [c.user] else prev
  }

  /** A user is among an item's raters exactly when the table has that cell. */
  lemma RatersLookup(cells: seq<Cell>, item: string, user: string)
    ensures user in RatersOf(cells, item) <==> Lookup(cells, item, user).Some?
  {
  }

  /** With unique keys, no user rates an item twice. */
  lemma {:induction false} RatersDistinct(cells: seq<Cell>, item: string)
    requires UniqueKeys(cells)
    ensures forall i, j :: 0 <= i < j < |RatersOf(cells, item)| ==> RatersOf(cells, item)[i] != RatersOf(cells, item)[j]
  {
    if |cells| > 0 {
      var init := cells[..|cells| - 1];
      var c := cells[|cells| - 1];
      assert UniqueKeys(init) by {
        forall i, j | 0 <= i < j < |init| ensures Key(init[i]) != Key(init[j]) {
          assert init[i] == cells[i] && init[j] == cells[j];
        }
      }
      RatersDistinct(init, item);
      forall k | 0 <= k < |init| ensures Key(init[k]) != Key(c) {
        assert init[k] == cells[k];
      }
    }
  }
}
