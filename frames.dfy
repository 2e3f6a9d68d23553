/** The table model: a pandas DataFrame as columns, an index and rows of
    cells, with the column rewrites and row filters the cleaners are built
    from. */
module Frames {

  datatype Option<+T> = None | Some(value: T)

  /** One cell. `Missing` stands for every pandas missing marker (NaN, NaT,
      None); `Date` holds a timestamp as pandas does, a count from the epoch. */
  datatype Value = Missing | Str(text: string) | Num(number: real) | Date(stamp: int) | Bool(flag: bool)

  type Row = map<string, Value>

  /** A row together with its index label (`index`). */
  datatype Record = Record(index: Value, cells: Row)

  /** A frame: the name of its index (None when unnamed), its columns in
      order, and its rows in order. */
  datatype Frame = Frame(indexName: Option<string>, columns: seq<string>, records: seq<Record>)

  /** The value of column `c` in a row; a row without the column reads as
      missing. */
  function Cell(r: Record, c: string): Value {
    if c in r.cells then r.cells[c] else Missing
  }

  /** The index labels of the rows, in order. */
  function Labels(rs: seq<Record>): (ls: seq<Value>)
    ensures |ls| == |rs|
    ensures forall i :: 0 <= i < |rs| ==> ls[i] == rs[i].index
  {
    if rs == [] then [] else Labels(rs[..|rs| - 1]) + [rs[|rs| - 1].index]
  }

  /** `xs` is `ys` with some elements left out, the rest in their order. */
  ghost predicate IsSubsequence<T>(xs: seq<T>, ys: seq<T>)
    decreases |ys|
  {
    if xs == [] then true
    else if ys == [] then false
    else (xs[|xs| - 1] == ys[|ys| - 1] && IsSubsequence(xs[..|xs| - 1], ys[..|ys| - 1]))
         || IsSubsequence(xs, ys[..|ys| - 1])
  }

  lemma {:induction false} SubsequenceLength<T>(xs: seq<T>, ys: seq<T>)
    requires IsSubsequence(xs, ys)
    ensures |xs| <= |ys|
    decreases |ys|
  {
    if xs != [] {
      if xs[|xs| - 1] == ys[|ys| - 1] && IsSubsequence(xs[..|xs| - 1], ys[..|ys| - 1]) {
        SubsequenceLength(xs[..|xs| - 1], ys[..|ys| - 1]);
      } else {
        SubsequenceLength(xs, ys[..|ys| - 1]);
      }
    }
  }

  lemma {:induction false} SubsequenceReflexive<T>(xs: seq<T>)
    ensures IsSubsequence(xs, xs)
    decreases |xs|
  {
    if xs != [] {
      SubsequenceReflexive(xs[..|xs| - 1]);
    }
  }

  lemma {:induction false} SubsequenceTransitive<T>(xs: seq<T>, ys: seq<T>, zs: seq<T>)
    requires IsSubsequence(xs, ys) && IsSubsequence(ys, zs)
    ensures IsSubsequence(xs, zs)
    decreases |zs|
  {
    if xs != [] {
      assert ys != [] && zs != [];
      var zs' := zs[..|zs| - 1];
      if ys[|ys| - 1] == zs[|zs| - 1] && IsSubsequence(ys[..|ys| - 1], zs') {
        if xs[|xs| - 1] == ys[|ys| - 1] && IsSubsequence(xs[..|xs| - 1], ys[..|ys| - 1]) {
          SubsequenceTransitive(xs[..|xs| - 1], ys[..|ys| - 1], zs');
        } else {
          SubsequenceTransitive(xs, ys[..|ys| - 1], zs');
        }
      } else {
        SubsequenceTransitive(xs, ys, zs');
      }
    }
  }

  /** Leaving rows out leaves their labels out in the same way. */
  lemma {:induction false} SubsequenceLabels(xs: seq<Record>, ys: seq<Record>)
    requires IsSubsequence(xs, ys)
    ensures IsSubsequence(Labels(xs), Labels(ys))
    decreases |ys|
  {
    if xs != [] {
      assert Labels(ys[..|ys| - 1]) == Labels(ys)[..|ys| - 1];
      if xs[|xs| - 1] == ys[|ys| - 1] && IsSubsequence(xs[..|xs| - 1], ys[..|ys| - 1]) {
        SubsequenceLabels(xs[..|xs| - 1], ys[..|ys| - 1]);
        assert Labels(xs[..|xs| - 1]) == Labels(xs)[..|xs| - 1];
      } else {
        SubsequenceLabels(xs, ys[..|ys| - 1]);
      }
    }
  }

  /** Column `c` rewritten cell by cell with `g` (`df[c] = g(df[c])` for a
      column that exists). */
  function MapColumn(f: Frame, c: string, g: Value -> Value): Frame
    requires c in f.columns
  {
    f.(records := seq(|f.records|, i requires 0 <= i < |f.records| => RewriteCell(f.records[i], c, g)))
  }

  function RewriteCell(r: Record, c: string, g: Value -> Value): Record {
    r.(cells := r.cells[c := g(Cell(r, c))])
  }

  /** Assigning a whole column (`df[c] = values`): an existing column keeps its
      place, a new one is appended after the others. */
  function SetColumn(f: Frame, c: string, values: seq<Value>): Frame
    requires |values| == |f.records|
  {
    f.(columns := if c in f.columns then f.columns else f.columns + [c],
       records := seq(|f.records|, i requires 0 <= i < |f.records|
                                    => f.records[i].(cells := f.records[i].cells[c := values[i]])))
  }

  /** The rewrite touches column `c` and nothing else of any row. */
  lemma MapColumnCells(f: Frame, c: string, g: Value -> Value)
    requires c in f.columns
    ensures var r := MapColumn(f, c, g);
      && r.columns == f.columns && r.indexName == f.indexName && |r.records| == |f.records|
      && forall i, d :: 0 <= i < |f.records| ==>
           && r.records[i].index == f.records[i].index
           && Cell(r.records[i], d) == if d == c then g(Cell(f.records[i], c)) else Cell(f.records[i], d)
  {
  }

  lemma SetColumnCells(f: Frame, c: string, values: seq<Value>)
    requires |values| == |f.records|
    ensures var r := SetColumn(f, c, values);
      && (c in f.columns ==> r.columns == f.columns)
      && (c !in f.columns ==> r.columns == f.columns + [c])
      && r.indexName == f.indexName && |r.records| == |f.records|
      && forall i, d :: 0 <= i < |f.records| ==>
           && r.records[i].index == f.records[i].index
           && Cell(r.records[i], d) == if d == c then values[i] else Cell(f.records[i], d)
  {
  }

  /** Some earlier row has exactly these cells. */
  predicate SeenBefore(rs: seq<Record>, cells: Row) {
    exists k :: 0 <= k < |rs| && rs[k].cells == cells
  }

  /** `drop_duplicates()`: a row is dropped when an earlier row has the same
      cells; the index label takes no part in the comparison. */
  function DropDuplicates(rs: seq<Record>): seq<Record> {
    if rs == [] then []
    else
      var init := rs[..|rs| - 1];
      var last := rs[|rs| - 1];
      if SeenBefore(init, last.cells) then DropDuplicates(init) else DropDuplicates(init) + [last]
  }

  /** Deduplication only drops rows: every kept row is an input row, no two kept
      rows are equal, and every input row has an equal kept row. */
  lemma DropDuplicatesRows(rs: seq<Record>)
    ensures forall x :: x in DropDuplicates(rs) ==> x in rs
    ensures forall x :: x in rs ==> exists y :: y in DropDuplicates(rs) && y.cells == x.cells
    ensures forall i, j :: 0 <= i < j < |DropDuplicates(rs)| ==> DropDuplicates(rs)[i].cells != DropDuplicates(rs)[j].cells
  {
    DropDuplicatesKept(rs);
    DropDuplicatesCovers(rs);
    DropDuplicatesDistinct(rs);
  }

  lemma {:induction false} DropDuplicatesKept(rs: seq<Record>)
    ensures forall x :: x in DropDuplicates(rs) ==> x in rs
    decreases |rs|
  {
    if rs != [] {
      var init := rs[..|rs| - 1];
      DropDuplicatesKept(init);
      assert forall x :: x in init ==> x in rs;
    }
  }

  lemma {:induction false} DropDuplicatesCovers(rs: seq<Record>)
    ensures forall x :: x in rs ==> exists y :: y in DropDuplicates(rs) && y.cells == x.cells
    decreases |rs|
  {
    if rs != [] {
      var init := rs[..|rs| - 1];
      var last := rs[|rs| - 1];
      DropDuplicatesCovers(init);
      var r := DropDuplicates(rs);
      assert forall x :: x in DropDuplicates(init) ==> x in r;
      forall x | x in rs ensures exists y :: y in r && y.cells == x.cells {
        if x != last {
          assert x in init;
        } else if SeenBefore(init, last.cells) {
          var k :| 0 <= k < |init| && init[k].cells == last.cells;
          assert init[k] in init;
        } else {
          assert last in r;
        }
      }
    }
  }

  lemma {:induction false} DropDuplicatesDistinct(rs: seq<Record>)
    ensures forall i, j :: 0 <= i < j < |DropDuplicates(rs)| ==> DropDuplicates(rs)[i].cells != DropDuplicates(rs)[j].cells
    decreases |rs|
  {
    if rs != [] {
      var init := rs[..|rs| - 1];
      var last := rs[|rs| - 1];
      DropDuplicatesDistinct(init);
      DropDuplicatesKept(init);
      var kept := DropDuplicates(init);
      if !SeenBefore(init, last.cells) {
        var r := kept + [last];
        forall i, j | 0 <= i < j < |r| ensures r[i].cells != r[j].cells {
          if j == |kept| {
            assert r[i] == kept[i] && kept[i] in init;
            var k :| 0 <= k < |init| && init[k] == kept[i];
          }
        }
      }
    }
  }

  /** Every row holds a cell for exactly the frame's columns, as the rows of
      a pandas DataFrame do. */
  ghost predicate RowsMatchColumns(f: Frame) {
    forall x :: x in f.records ==> x.cells.Keys == set c | c in f.columns
  }

  /** On rows that hold a cell for exactly the frame's columns, the duplicate
      test on whole cell maps is pandas' test: the two rows read the same in
      every column. */
  lemma DuplicateTestIsCellwise(f: Frame, x: Record, y: Record)
    requires RowsMatchColumns(f) && x in f.records && y in f.records
    ensures x.cells == y.cells <==> forall c :: c in f.columns ==> Cell(x, c) == Cell(y, c)
  {
    if forall c :: c in f.columns ==> Cell(x, c) == Cell(y, c) {
      assert forall c :: c in x.cells ==> c in f.columns;
      assert x.cells.Keys == y.cells.Keys;
      assert forall c :: c in x.cells ==> x.cells[c] == y.cells[c];
    }
  }

  /** Two rows with different cells both survive deduplication. */
  lemma DropDuplicatesDistinctPair(x0: Record, x1: Record)
    requires x0.cells != x1.cells
    ensures DropDuplicates([x0, x1]) == [x0, x1]
  {
    assert !SeenBefore([x0], x1.cells);
    assert [x0, x1][..1] == [x0] && [x0][..0] == [];
    assert DropDuplicates([x0]) == [x0];
  }

  /** Of two rows with equal cells only the first survives. */
  lemma DropDuplicatesEqualPair(y0: Record, y1: Record)
    requires y0.cells == y1.cells
    ensures DropDuplicates([y0, y1]) == [y0]
  {
    assert [y0][0].cells == y1.cells;
    assert SeenBefore([y0], y1.cells);
    assert [y0, y1][..1] == [y0] && [y0][..0] == [];
    assert DropDuplicates([y0]) == [y0];
  }

  /** The first row of a group of rows with equal cells. */
  ghost predicate FirstOfGroup(rs: seq<Record>, x: Record) {
    exists i :: 0 <= i < |rs| && rs[i] == x && !SeenBefore(rs[..i], x.cells)
  }

  /** Deduplication keeps rows in their order and keeps the first row of each
      group; every kept row is the first of its group. */
  lemma {:induction false} DropDuplicatesKeepsFirst(rs: seq<Record>)
    ensures IsSubsequence(DropDuplicates(rs), rs)
    ensures forall x :: x in DropDuplicates(rs) ==> FirstOfGroup(rs, x)
    ensures forall i :: 0 <= i < |rs| && !SeenBefore(rs[..i], rs[i].cells) ==> rs[i] in DropDuplicates(rs)
    decreases |rs|
  {
    if rs != [] {
      var init := rs[..|rs| - 1];
      var last := rs[|rs| - 1];
      DropDuplicatesKeepsFirst(init);
      var kept := DropDuplicates(init);
      assert forall i :: 0 <= i < |init| ==> rs[..i] == init[..i];
      assert rs[..|rs| - 1] == init;
      forall x | x in DropDuplicates(rs) ensures FirstOfGroup(rs, x) {
        if x in kept {
          var i :| 0 <= i < |init| && init[i] == x && !SeenBefore(init[..i], x.cells);
          assert rs[i] == x;
        }
      }
      if SeenBefore(init, last.cells) {
        SubsequenceKeep(kept, init, last);
      } else {
        assert (kept + [last])[..|kept|] == kept;
      }
    }
  }

  /** The input positions of the rows deduplication keeps. */
  function KeptPositions(rs: seq<Record>): seq<int> {
    if rs == [] then []
    else
      var init := rs[..|rs| - 1];
      if SeenBefore(init, rs[|rs| - 1].cells) then KeptPositions(init) else KeptPositions(init) + [|rs| - 1]
  }

  /** The kept rows are the input rows at increasing positions, and a position
      is kept exactly when no earlier row has the same cells. */
  lemma {:induction false} DropDuplicatesPositions(rs: seq<Record>)
    ensures var pos := KeptPositions(rs);
      && |pos| == |DropDuplicates(rs)|
      && (forall k :: 0 <= k < |pos| ==> 0 <= pos[k] < |rs| && DropDuplicates(rs)[k] == rs[pos[k]])
      && (forall k, l :: 0 <= k < l < |pos| ==> pos[k] < pos[l])
      && (forall j :: 0 <= j < |rs| ==> (j in pos <==> !SeenBefore(rs[..j], rs[j].cells)))
    decreases |rs|
  {
    if rs != [] {
      var init := rs[..|rs| - 1];
      var last := rs[|rs| - 1];
      DropDuplicatesPositions(init);
      var pos := KeptPositions(rs);
      forall j | 0 <= j < |init| ensures rs[..j] == init[..j] && rs[j] == init[j] {
      }
      assert rs[..|rs| - 1] == init;
      assert |rs| - 1 !in KeptPositions(init);
    }
  }

  /** The distinct cell maps of the rows. */
  function CellMaps(rs: seq<Record>): set<Row> {
    set x | x in rs :: x.cells
  }

  /** Deduplication keeps one row per distinct cell map, whatever the rows'
      labels. */
  lemma {:induction false} DropDuplicatesCount(rs: seq<Record>)
    ensures |DropDuplicates(rs)| == |CellMaps(rs)|
    decreases |rs|
  {
    if rs != [] {
      var init := rs[..|rs| - 1];
      var last := rs[|rs| - 1];
      DropDuplicatesCount(init);
      CellMapsAppend(init, last);
      assert rs == init + [last];
      if SeenBefore(init, last.cells) {
        var k :| 0 <= k < |init| && init[k].cells == last.cells;
        assert init[k] in init;
        assert CellMaps(rs) == CellMaps(init);
      } else {
        forall x | x in init ensures x.cells != last.cells {
          var k :| 0 <= k < |init| && init[k] == x;
        }
        assert last.cells !in CellMaps(init);
      }
    }
  }

  lemma CellMapsAppend(rs: seq<Record>, x: Record)
    ensures CellMaps(rs + [x]) == CellMaps(rs) + {x.cells}
  {
    forall m | m in CellMaps(rs + [x]) ensures m in CellMaps(rs) + {x.cells} {
      var y :| y in rs + [x] && y.cells == m;
      if y != x {
        assert y in rs;
      }
    }
    forall m | m in CellMaps(rs) ensures m in CellMaps(rs + [x]) {
      var y :| y in rs && y.cells == m;
      assert y in rs + [x];
    }
    assert x in rs + [x];
  }

  /** The input positions of the rows `dropna(subset=[key])` keeps. */
  function PresentPositions(rs: seq<Record>, key: string): seq<int> {
    if rs == [] then []
    else PresentPositions(rs[..|rs| - 1], key) + (if Cell(rs[|rs| - 1], key) == Missing then [] else [|rs| - 1])
  }

  /** The kept rows are the input rows at increasing positions, and a position
      is kept exactly when its `key` cell is present. */
  lemma {:induction false} WithoutMissingPositions(rs: seq<Record>, key: string)
    ensures var pos := PresentPositions(rs, key);
      && |pos| == |WithoutMissing(rs, key)|
      && (forall k :: 0 <= k < |pos| ==> 0 <= pos[k] < |rs| && WithoutMissing(rs, key)[k] == rs[pos[k]])
      && (forall k, l :: 0 <= k < l < |pos| ==> pos[k] < pos[l])
      && (forall j :: 0 <= j < |rs| ==> (j in pos <==> Cell(rs[j], key) != Missing))
    decreases |rs|
  {
    if rs != [] {
      var init := rs[..|rs| - 1];
      WithoutMissingPositions(init, key);
      assert |rs| - 1 !in PresentPositions(init, key);
    }
  }

  /** A subsequence of `ys` is one of `ys + [y]`. */
  lemma SubsequenceKeep<T>(xs: seq<T>, ys: seq<T>, y: T)
    requires IsSubsequence(xs, ys)
    ensures IsSubsequence(xs, ys + [y])
  {
    assert (ys + [y])[..|ys|] == ys;
  }

  /** `dropna(subset=[key])`: the rows whose `key` cell is present, in order. */
  function WithoutMissing(rs: seq<Record>, key: string): (r: seq<Record>)
    ensures |r| <= |rs|
  {
    if rs == [] then []
    else
      var last := rs[|rs| - 1];
      WithoutMissing(rs[..|rs| - 1], key) + (if Cell(last, key) == Missing then [] else [last])
  }

  /** The kept rows are exactly the input rows whose `key` cell is present. */
  lemma {:induction false} WithoutMissingMembers(rs: seq<Record>, key: string)
    ensures forall x :: x in WithoutMissing(rs, key) ==> x in rs && Cell(x, key) != Missing
    ensures forall x :: x in rs && Cell(x, key) != Missing ==> x in WithoutMissing(rs, key)
    decreases |rs|
  {
    if rs != [] {
      var init := rs[..|rs| - 1];
      var last := rs[|rs| - 1];
      WithoutMissingMembers(init, key);
      assert forall x :: x in rs ==> x in init || x == last;
      assert forall x :: x in init ==> x in rs;
    }
  }

  lemma {:induction false} WithoutMissingIsSubsequence(rs: seq<Record>, key: string)
    ensures IsSubsequence(WithoutMissing(rs, key), rs)
    decreases |rs|
  {
    if rs != [] {
      var init := rs[..|rs| - 1];
      var last := rs[|rs| - 1];
      WithoutMissingIsSubsequence(init, key);
      if Cell(last, key) == Missing {
        assert WithoutMissing(rs, key) == WithoutMissing(init, key);
        SubsequenceKeep(WithoutMissing(init, key), init, last);
      } else {
        var r := WithoutMissing(rs, key);
        assert r[..|r| - 1] == WithoutMissing(init, key);
      }
    }
  }

  /** A row with `key` present is never dropped, so with no missing key
      nothing is dropped. */
  lemma {:induction false} WithoutMissingNoneMissing(rs: seq<Record>, key: string)
    requires forall x :: x in rs ==> Cell(x, key) != Missing
    ensures WithoutMissing(rs, key) == rs
    decreases |rs|
  {
    if rs != [] {
      var init := rs[..|rs| - 1];
      assert forall x :: x in init ==> x in rs;
      WithoutMissingNoneMissing(init, key);
      assert rs[|rs| - 1] in rs;
      assert init + [rs[|rs| - 1]] == rs;
    }
  }

  /** The in-place view of a frame that a caller holds: the object the
      source's in-place assignments and `inplace=True` calls change. */
  class DataFrame {
    var indexName: Option<string>
    var columns: seq<string>
    var records: seq<Record>

    function Snapshot(): Frame
      reads this
    {
      Frame(indexName, columns, records)
    }

    constructor (f: Frame)
      ensures Snapshot() == f
    {
      indexName := f.indexName;
      columns := f.columns;
      records := f.records;
    }

    /** Replace the contents as a whole. */
    method Assign(f: Frame)
      modifies this
      ensures Snapshot() == f
    {
      indexName := f.indexName;
      columns := f.columns;
      records := f.records;
    }
  }
}
