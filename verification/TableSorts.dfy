/**
 The row cache, sorting it and putting the rows back (js/jquery.tablesorter.js:248-292, 322-352, 580-632). Rows of the
 document are known by number; which of them are child rows, and what the parsers make of their cells, is given.
 */
module TableSorts {
  import opened Options
  import opened Sequences
  import opened TableComparators

  type Node = nat

  lemma {:induction false} FlattenJoins(xs: seq<seq<Node>>, ys: seq<seq<Node>>)
    ensures Flatten(xs + ys) == Flatten(xs) + Flatten(ys)
    decreases |xs|
  {
    if |xs| == 0 {
      assert xs + ys == ys;
    } else {
      assert (xs + ys)[1..] == xs[1..] + ys;
      FlattenJoins(xs[1..], ys);
    }
  }

  lemma FlattenOne(x: seq<Node>)
    ensures Flatten([x]) == x
  {
    assert [x][1..] == [];
  }

  // ----- the cache

  /** `row`: the groups of a row and its child rows; `normalized`: their cells and positions, in any order once sorted. */
  datatype Cache = Cache(row: seq<seq<Node>>, normalized: seq<Row>)

  /** A table body: which rows are child rows, and the parsed cells of a row. */
  datatype Source = Source(isChild: Node -> bool, cell: (Node, nat) -> Cell, types: seq<ColumnType>)
  {
    ghost predicate Valid() {
      forall x: Node, j: nat | j < |types| :: Typed(cell(x, j), types[j])
    }

    function Cells(x: Node): seq<Cell> {
      seq(|types|, j requires 0 <= j => cell(x, j))
    }

    function NormalizedRow(x: Node, position: nat): Row {
      Cells(x) + [Num(position as real)]
    }

    /** A row that is no child row, and child rows after it. */
    predicate Group(g: seq<Node>) {
      |g| > 0 && !isChild(g[0]) && forall k :: 0 < k < |g| ==> isChild(g[k])
    }

    predicate Cached(rows: seq<Node>, c: Cache) {
      && Flatten(c.row) == rows
      && (forall i :: 0 <= i < |c.row| ==> Group(c.row[i]))
      && |c.normalized| == |c.row|
      && (forall i :: 0 <= i < |c.row| ==> c.normalized[i] == NormalizedRow(c.row[i][0], i))
    }
  }

  /** The inner loop of `buildCache`: what the parsers make of the cells of a row. */
  method ReadCells(src: Source, x: Node) returns (cols: seq<Cell>)
    ensures cols == src.Cells(x)
  {
    cols := [];
    for j := 0 to |src.types|
      invariant cols == seq(j, k requires 0 <= k => src.cell(x, k))
    {
      cols := cols + [src.cell(x, j)];
    }
  }

  /** `buildCache`; a child row with no row before it makes it throw. */
  method BuildCache(rows: seq<Node>, src: Source) returns (c: Option<Cache>)
    ensures c.None? <==> |rows| > 0 && src.isChild(rows[0])
    ensures c.Some? ==> src.Cached(rows, c.value)
  {
    hide Source.Cached;
    var row: seq<seq<Node>>, normalized: seq<Row> := [], [];
    NothingCached(src);
    for i := 0 to |rows|
      invariant if i > 0 then !src.isChild(rows[0]) && |row| > 0 else |row| == 0
      invariant src.Cached(rows[..i], Cache(row, normalized))
    {
      var x := rows[i];
      assert rows[..i + 1] == rows[..i] + [x];
      if src.isChild(x) {
        if |row| == 0 {
          return None;
        }
        var last := |row| - 1;
        ChildCached(src, rows[..i], Cache(row, normalized), x);
        row := row[last := row[last] + [x]];
      } else {
        var cols := ReadCells(src, x);
        RowCached(src, rows[..i], Cache(row, normalized), x);
        assert cols + [Num(|normalized| as real)] == src.NormalizedRow(x, |normalized|);
        row := row + [[x]];
        normalized := normalized + [cols + [Num(|normalized| as real)]];
      }
    }
    assert rows[..|rows|] == rows;
    c := Some(Cache(row, normalized));
  }

  lemma NothingCached(src: Source)
    ensures src.Cached([], Cache([], []))
  {
  }

  /** A child row joins the group before it. */
  lemma ChildCached(src: Source, rows: seq<Node>, c: Cache, x: Node)
    requires src.Cached(rows, c) && src.isChild(x) && |c.row| > 0
    ensures var last := |c.row| - 1;
            src.Cached(rows + [x], Cache(c.row[last := c.row[last] + [x]], c.normalized))
  {
    hide Source.NormalizedRow;
    GroupGrows(c.row, x);
  }

  /** Any other row starts a group, at the next position. */
  lemma RowCached(src: Source, rows: seq<Node>, c: Cache, x: Node)
    requires src.Cached(rows, c) && !src.isChild(x)
    ensures var n := |c.normalized|;
            src.Cached(rows + [x], Cache(c.row + [[x]], c.normalized + [src.NormalizedRow(x, n)]))
  {
    hide Source.NormalizedRow;
    FlattenJoins(c.row, [[x]]);
    FlattenOne([x]);
  }

  lemma GroupGrows(row: seq<seq<Node>>, x: Node)
    requires |row| > 0
    ensures var last := |row| - 1;
            Flatten(row[last := row[last] + [x]]) == Flatten(row) + [x]
  {
    var last := |row| - 1;
    var front := row[..last];
    assert row == front + [row[last]] && row[last := row[last] + [x]] == front + [row[last] + [x]];
    FlattenJoins(front, [row[last]]);
    FlattenJoins(front, [row[last] + [x]]);
    FlattenOne(row[last]);
    FlattenOne(row[last] + [x]);
  }

  // ----- sorting

  /** `Array.prototype.sort` for a comparator that orders totally: any correct sort gives this, by `SortIsUnique`. */
  function Insert(code: Code, r: Row, rows: seq<Row>): (s: seq<Row>)
    ensures multiset(s) == multiset(rows) + multiset{r}
  {
    if |rows| == 0 || Sign(Call(code, r, rows[0])) < 0 then [r] + rows
    else
      assert rows == [rows[0]] + rows[1..];
      [rows[0]] + Insert(code, r, rows[1..])
  }

  function Sort(code: Code, rows: seq<Row>): (s: seq<Row>)
    ensures multiset(s) == multiset(rows)
  {
    if |rows| == 0 then []
    else
      assert rows == [rows[0]] + rows[1..];
      Insert(code, rows[0], Sort(code, rows[1..]))
  }

  /** Rows of the right shape, no two with the same position; the order of the sequence does not matter. */
  ghost predicate Rows(rows: seq<Row>, types: seq<ColumnType>) {
    && (forall r :: r in rows ==> RowOf(r, types) && multiset(rows)[r] == 1)
    && (forall r, q :: r in rows && q in rows && r != q ==> RowOf(r, types) && RowOf(q, types) && Position(r) != Position(q))
  }

  lemma SameRows(rows: seq<Row>, other: seq<Row>, types: seq<ColumnType>)
    requires Rows(rows, types) && multiset(rows) == multiset(other)
    ensures Rows(other, types)
  {
    assert forall r :: r in other <==> r in multiset(other);
    assert forall r :: r in rows <==> r in multiset(rows);
  }

  /** A row with a position that none of the others has. */
  ghost predicate Apart(r: Row, rows: seq<Row>, types: seq<ColumnType>) {
    RowOf(r, types) && forall q :: q in rows ==> RowOf(q, types) && Position(q) != Position(r)
  }

  lemma ApartFromSame(r: Row, rows: seq<Row>, other: seq<Row>, types: seq<ColumnType>)
    requires Apart(r, rows, types) && multiset(rows) == multiset(other)
    ensures Apart(r, other, types)
  {
    assert forall q :: q in other <==> q in multiset(other);
  }

  lemma RowsTail(rows: seq<Row>, types: seq<ColumnType>)
    requires |rows| > 0 && Rows(rows, types)
    ensures Rows(rows[1..], types) && Apart(rows[0], rows[1..], types)
  {
    hide RowOf;
    assert rows == [rows[0]] + rows[1..];
    assert multiset(rows) == multiset{rows[0]} + multiset(rows[1..]);
    assert multiset(rows)[rows[0]] == 1 + multiset(rows[1..])[rows[0]];
    assert forall q :: q in rows[1..] <==> q in multiset(rows[1..]);
  }

  /** What a sort with this comparator promises: no later row compares less than an earlier one. */
  predicate InOrder(code: Code, rows: seq<Row>) {
    forall i, j :: 0 <= i < j < |rows| ==> Sign(Call(code, rows[i], rows[j])) <= 0
  }

  /** The order of the generated comparator on the rows of a cache. */
  predicate Less(keys: seq<Key>, types: seq<ColumnType>, r: Row, q: Row)
    requires KeysOf(keys, types)
  {
    Sign(Call(Comparator(keys, types), r, q)) < 0
  }

  lemma LessIsTotal(keys: seq<Key>, types: seq<ColumnType>, r: Row, q: Row)
    requires KeysOf(keys, types) && RowOf(r, types) && RowOf(q, types) && (r == q || Position(r) != Position(q))
    ensures Less(keys, types, r, q) <==> Before(keys, r, q)
    ensures Sign(Call(Comparator(keys, types), r, q)) <= 0 <==> r == q || Less(keys, types, r, q)
    ensures !(Less(keys, types, r, q) && Less(keys, types, q, r))
  {
    hide Before, RowOf, Comparator, Call, Sign;
    ComparatorMeans(keys, types, r, q);
    ComparatorMeans(keys, types, q, r);
    BeforeTotal(keys, types, r, q);
    SignRange(Call(Comparator(keys, types), r, q));
    SignRange(Call(Comparator(keys, types), q, r));
  }

  lemma SignRange(v: Value)
    ensures -1 <= Sign(v) <= 1
  {
  }

  lemma LessTransitive(keys: seq<Key>, types: seq<ColumnType>, r: Row, q: Row, p: Row)
    requires KeysOf(keys, types) && RowOf(r, types) && RowOf(q, types) && RowOf(p, types)
    requires Less(keys, types, r, q) && Less(keys, types, q, p)
    ensures Less(keys, types, r, p)
  {
    hide Before, RowOf, Comparator, Call, Sign;
    ComparatorMeans(keys, types, r, q);
    ComparatorMeans(keys, types, q, p);
    ComparatorMeans(keys, types, r, p);
    SignRange(Call(Comparator(keys, types), r, q));
    SignRange(Call(Comparator(keys, types), q, p));
    BeforeTransitive(keys, types, r, q, p);
  }

  predicate Rising(keys: seq<Key>, types: seq<ColumnType>, rows: seq<Row>)
    requires KeysOf(keys, types)
  {
    forall i, j :: 0 <= i < j < |rows| ==> Less(keys, types, rows[i], rows[j])
  }

  lemma {:induction false} InsertRises(keys: seq<Key>, types: seq<ColumnType>, r: Row, rows: seq<Row>)
    requires KeysOf(keys, types) && Rising(keys, types, rows) && Apart(r, rows, types)
    ensures Rising(keys, types, Insert(Comparator(keys, types), r, rows))
    decreases |rows|
  {
    hide RowOf, Comparator, Less, Call, Sign;
    var code := Comparator(keys, types);
    var s := Insert(code, r, rows);
    if |rows| > 0 {
      var first := rows[0];
      Compares(keys, types, r, first);
      if Less(keys, types, r, first) {
        forall j | 0 < j < |rows|
          ensures Less(keys, types, r, rows[j])
        {
          LessTransitive(keys, types, r, first, rows[j]);
        }
      } else {
        InsertRises(keys, types, r, rows[1..]);
        var rest := Insert(code, r, rows[1..]);
        forall q | q in rest
          ensures Less(keys, types, first, q)
        {
          assert q in multiset(rest);
          assert q == r || q in rows[1..];
        }
      }
    }
  }

  lemma Compares(keys: seq<Key>, types: seq<ColumnType>, r: Row, q: Row)
    requires KeysOf(keys, types) && RowOf(r, types) && RowOf(q, types) && Position(r) != Position(q)
    ensures Less(keys, types, r, q) <==> Sign(Call(Comparator(keys, types), r, q)) < 0
    ensures Less(keys, types, r, q) || Less(keys, types, q, r)
  {
    hide Before, RowOf, Comparator, Call, Sign;
    LessIsTotal(keys, types, r, q);
    LessIsTotal(keys, types, q, r);
    BeforeTotal(keys, types, r, q);
  }

  lemma {:induction false} SortRises(keys: seq<Key>, types: seq<ColumnType>, rows: seq<Row>)
    requires KeysOf(keys, types) && Rows(rows, types)
    ensures Rising(keys, types, Sort(Comparator(keys, types), rows))
    decreases |rows|
  {
    hide RowOf, Comparator, Less, Insert, Rows, Rising, Apart;
    if |rows| > 0 {
      RowsTail(rows, types);
      SortRises(keys, types, rows[1..]);
      var rest := Sort(Comparator(keys, types), rows[1..]);
      ApartFromSame(rows[0], rows[1..], rest, types);
      InsertRises(keys, types, rows[0], rest);
    } else {
      NoneRise(keys, types);
    }
  }

  lemma NoneRise(keys: seq<Key>, types: seq<ColumnType>)
    requires KeysOf(keys, types)
    ensures Rising(keys, types, [])
  {
  }

  /** No two rows come before each other. */
  ghost predicate Asymmetric(keys: seq<Key>, types: seq<ColumnType>, s: seq<Row>)
    requires KeysOf(keys, types)
  {
    forall r, q :: r in s && q in s ==> !(Less(keys, types, r, q) && Less(keys, types, q, r))
  }

  /** Two rising arrangements of the same rows are one. */
  lemma {:induction false} RisingIsUnique(keys: seq<Key>, types: seq<ColumnType>, s: seq<Row>, t: seq<Row>)
    requires KeysOf(keys, types) && Rising(keys, types, s) && Rising(keys, types, t) && multiset(s) == multiset(t)
    requires Asymmetric(keys, types, s)
    ensures s == t
    decreases |s|
  {
    hide Less, Rising, Asymmetric;
    assert |multiset(s)| == |s| && |multiset(t)| == |t|;
    if |s| > 0 {
      HeadsMeet(keys, types, s, t);
      TailsAgree(s, t);
      TailRises(keys, types, s);
      TailRises(keys, types, t);
      RisingIsUnique(keys, types, s[1..], t[1..]);
      assert s == [s[0]] + s[1..] && t == [t[0]] + t[1..];
    }
  }

  lemma TailsAgree(s: seq<Row>, t: seq<Row>)
    requires |s| > 0 && |t| > 0 && s[0] == t[0] && multiset(s) == multiset(t)
    ensures multiset(s[1..]) == multiset(t[1..])
  {
    assert s == [s[0]] + s[1..] && t == [t[0]] + t[1..];
    assert multiset(s[1..]) == multiset(s) - multiset{s[0]} == multiset(t[1..]);
  }

  lemma TailRises(keys: seq<Key>, types: seq<ColumnType>, s: seq<Row>)
    requires KeysOf(keys, types) && Rising(keys, types, s) && |s| > 0
    ensures Rising(keys, types, s[1..])
    ensures Asymmetric(keys, types, s) ==> Asymmetric(keys, types, s[1..])
  {
    hide Less;
  }

  lemma HeadsMeet(keys: seq<Key>, types: seq<ColumnType>, s: seq<Row>, t: seq<Row>)
    requires KeysOf(keys, types) && Rising(keys, types, s) && Rising(keys, types, t)
    requires multiset(s) == multiset(t) && |s| == |t| > 0
    requires Asymmetric(keys, types, s)
    ensures s[0] == t[0]
  {
    hide Less;
    assert s[0] in multiset(t) && t[0] in multiset(s);
    var k :| 0 <= k < |s| && s[k] == t[0];
    var m :| 0 <= m < |t| && t[m] == s[0];
  }

  lemma DifferentPlaces(rows: seq<Row>, i: nat, j: nat)
    requires i < j < |rows| && multiset(rows)[rows[i]] == 1
    ensures rows[i] != rows[j]
  {
    assert rows == rows[..j] + rows[j..];
    assert multiset(rows) == multiset(rows[..j]) + multiset(rows[j..]);
    assert rows[..j][i] in multiset(rows[..j]) && rows[j..][0] in multiset(rows[j..]);
  }

  /**
   Whatever order the rows were in, and however the sort is done, there is one result: any rearrangement in which no row
   compares less than one before it is the same.
   */
  lemma SortIsUnique(keys: seq<Key>, types: seq<ColumnType>, rows: seq<Row>, out: seq<Row>)
    requires KeysOf(keys, types) && Rows(rows, types) && multiset(out) == multiset(rows)
    ensures InOrder(Comparator(keys, types), out) <==> out == Sort(Comparator(keys, types), rows)
  {
    hide RowOf, Comparator, Less, Sort, Call, Sign, Insert;
    var code := Comparator(keys, types);
    var s := Sort(code, rows);
    SortRises(keys, types, rows);
    SameRows(rows, out, types);
    SameRows(rows, s, types);
    forall r, q | r in s && q in s
      ensures !(Less(keys, types, r, q) && Less(keys, types, q, r))
      ensures Sign(Call(code, r, q)) <= 0 <==> r == q || Less(keys, types, r, q)
    {
      assert r in multiset(s) && q in multiset(s);
      LessIsTotal(keys, types, r, q);
    }
    if InOrder(code, out) {
      forall i, j | 0 <= i < j < |out|
        ensures Less(keys, types, out[i], out[j])
      {
        assert out[i] in multiset(out) && out[j] in multiset(out);
        DifferentPlaces(out, i, j);
        assert Sign(Call(code, out[i], out[j])) <= 0;
      }
      RisingIsUnique(keys, types, s, out);
    }
  }

  /** Earlier sorts do not matter. */
  lemma EarlierSortsDoNotMatter(keys: seq<Key>, types: seq<ColumnType>, rows: seq<Row>, other: seq<Row>)
    requires KeysOf(keys, types) && Rows(rows, types) && multiset(rows) == multiset(other)
    ensures Sort(Comparator(keys, types), rows) == Sort(Comparator(keys, types), other)
  {
    hide Comparator, Sort, InOrder;
    SameRows(rows, other, types);
    var s := Sort(Comparator(keys, types), other);
    SortIsUnique(keys, types, other, s);
    SortIsUnique(keys, types, rows, s);
  }

  /**
   `multisort`: the comparator is written out for the sort list and handed to `sort`. It reads the length of the first
   cached row, and so throws on an empty cache.
   */
  method Multisort(keys: seq<Key>, types: seq<ColumnType>, c: Cache) returns (sorted: Option<Cache>)
    requires KeysOf(keys, types) && Rows(c.normalized, types)
    ensures sorted.None? <==> |c.normalized| == 0
    ensures sorted.Some? ==> sorted.value.row == c.row
    ensures sorted.Some? ==> forall out ::
              multiset(out) == multiset(c.normalized) && InOrder(Comparator(keys, types), out) <==> out == sorted.value.normalized
  {
    hide Sort, InOrder, Comparator, Rows;
    if |c.normalized| == 0 {
      return None;
    }
    var sortWrapper := WriteComparator(keys, types);
    var normalized := Sort(sortWrapper, c.normalized);
    sorted := Some(c.(normalized := normalized));
    forall out: seq<Row>
      ensures multiset(out) == multiset(c.normalized) && InOrder(Comparator(keys, types), out) <==> out == normalized
    {
      if multiset(out) == multiset(c.normalized) {
        SortIsUnique(keys, types, c.normalized, out);
      }
    }
  }

  // ----- putting the rows back

  function Without(rows: seq<Node>, x: Node): (r: seq<Node>) {
    if |rows| == 0 then []
    else if rows[0] == x then Without(rows[1..], x)
    else [rows[0]] + Without(rows[1..], x)
  }

  /** `appendChild` moves a node to the end, from wherever it was. */
  function MoveAll(rows: seq<Node>, xs: seq<Node>): seq<Node> {
    if |xs| == 0 then rows else Without(MoveAll(rows, xs[..|xs| - 1]), xs[|xs| - 1]) + [xs[|xs| - 1]]
  }

  /** The group that a sorted row stands for: its last cell is the place in the cache. */
  predicate Placed(r: Row, n: nat) {
    |r| > 0 && r[|r| - 1].Num? && 0 <= r[|r| - 1].n.Floor < n
  }

  predicate AllPlaced(c: Cache) {
    forall i :: 0 <= i < |c.normalized| ==> Placed(c.normalized[i], |c.row|) && |c.normalized[i]| == |c.normalized[0]|
  }

  function GroupAt(row: seq<seq<Node>>, r: Row): seq<Node> {
    if Placed(r, |row|) then row[r[|r| - 1].n.Floor] else []
  }

  /** The groups in the order of the sorted rows, end to end. */
  function Spread(row: seq<seq<Node>>, rows: seq<Row>): seq<Node> {
    if |rows| == 0 then [] else Spread(row, rows[..|rows| - 1]) + GroupAt(row, rows[|rows| - 1])
  }

  lemma {:induction false} MoveMore(rows: seq<Node>, xs: seq<Node>, ys: seq<Node>)
    ensures MoveAll(rows, xs + ys) == MoveAll(MoveAll(rows, xs), ys)
    decreases |ys|
  {
    if |ys| == 0 {
      assert xs + ys == xs;
    } else {
      assert (xs + ys)[..|xs + ys| - 1] == xs + ys[..|ys| - 1];
      MoveMore(rows, xs, ys[..|ys| - 1]);
    }
  }

  class Table {
    var rows: seq<Node>

    /** `appendChild` for each node of a group. */
    method AppendGroup(group: seq<Node>)
      modifies this
      ensures rows == MoveAll(old(rows), group)
    {
      for j := 0 to |group|
        invariant rows == MoveAll(old(rows), group[..j])
      {
        assert group[..j + 1][..j] == group[..j];
        rows := Without(rows, group[j]) + [group[j]];
      }
      assert group[..|group|] == group;
    }

    /** `appendToTable`, with no function in its place; it too throws on an empty cache, with nothing moved. */
    method AppendToTable(c: Cache) returns (groups: Option<seq<seq<Node>>>)
      requires AllPlaced(c)
      modifies this
      ensures groups.None? <==> |c.normalized| == 0
      ensures rows == MoveAll(old(rows), Spread(c.row, c.normalized))
      ensures groups.Some? ==>
                groups.value == seq(|c.normalized|, i requires 0 <= i < |c.normalized| => GroupAt(c.row, c.normalized[i]))
    {
      hide GroupAt, MoveAll, Spread;
      var r, n := c.row, c.normalized;
      NothingMoved(rows, r);
      if |n| == 0 {
        return None;
      }
      var checkCell := |n[0]| - 1;
      var spread: seq<seq<Node>> := [];
      for i := 0 to |n|
        invariant rows == MoveAll(old(rows), Spread(r, n[..i]))
        invariant spread == seq(i, k requires 0 <= k < i => GroupAt(r, n[k]))
      {
        var pos := n[i][checkCell].n.Floor;
        GroupIs(r, n[i]);
        spread := spread + [r[pos]];
        AppendGroup(r[pos]);
        SpreadNext(r, n, i);
        MoveMore(old(rows), Spread(r, n[..i]), r[pos]);
      }
      assert n[..|n|] == n;
      groups := Some(spread);
    }
  }

  lemma NothingMoved(rows: seq<Node>, row: seq<seq<Node>>)
    ensures MoveAll(rows, Spread(row, [])) == rows
  {
  }

  lemma SpreadNext(row: seq<seq<Node>>, rows: seq<Row>, i: nat)
    requires i < |rows|
    ensures Spread(row, rows[..i + 1]) == Spread(row, rows[..i]) + GroupAt(row, rows[i])
  {
    hide GroupAt;
    assert rows[..i + 1][..i] == rows[..i];
  }

  lemma GroupIs(row: seq<seq<Node>>, r: Row)
    requires Placed(r, |row|)
    ensures GroupAt(row, r) == row[r[|r| - 1].n.Floor]
  {
  }

  // ----- every row once

  predicate NoneTwice(xs: seq<Node>) {
    forall i, j :: 0 <= i < j < |xs| ==> xs[i] != xs[j]
  }

  lemma {:induction false} WithoutGone(rows: seq<Node>, x: Node)
    ensures forall y :: y in Without(rows, x) <==> y in rows && y != x
    decreases |rows|
  {
    if |rows| > 0 {
      WithoutGone(rows[1..], x);
      assert rows == [rows[0]] + rows[1..];
    }
  }

  lemma {:induction false} WithoutSame(rows: seq<Node>, x: Node)
    requires x !in rows
    ensures Without(rows, x) == rows
    decreases |rows|
  {
    if |rows| > 0 {
      WithoutSame(rows[1..], x);
    }
  }

  lemma {:induction false} WithoutJoins(a: seq<Node>, b: seq<Node>, x: Node)
    ensures Without(a + b, x) == Without(a, x) + Without(b, x)
    decreases |a|
  {
    if |a| == 0 {
      assert a + b == b;
    } else {
      assert (a + b)[1..] == a[1..] + b;
      WithoutJoins(a[1..], b, x);
    }
  }

  /** Moved nodes stand at the end in the order they were moved in; the others stay in front. */
  lemma {:induction false} Moved(rows: seq<Node>, xs: seq<Node>) returns (rest: seq<Node>)
    requires NoneTwice(xs)
    ensures MoveAll(rows, xs) == rest + xs
    ensures forall y :: y in rest <==> y in rows && y !in xs
    decreases |xs|
  {
    if |xs| == 0 {
      rest := rows;
      assert rest + xs == rest;
    } else {
      var k := |xs| - 1;
      var before := Moved(rows, xs[..k]);
      assert xs == xs[..k] + [xs[k]];
      assert xs[k] !in xs[..k];
      WithoutJoins(before, xs[..k], xs[k]);
      WithoutSame(xs[..k], xs[k]);
      WithoutGone(before, xs[k]);
      rest := Without(before, xs[k]);
      assert rest + xs[..k] + [xs[k]] == rest + xs;
    }
  }

  lemma {:induction false} SpreadJoins(row: seq<seq<Node>>, a: seq<Row>, b: seq<Row>)
    ensures Spread(row, a + b) == Spread(row, a) + Spread(row, b)
    decreases |b|
  {
    if |b| == 0 {
      assert a + b == a;
    } else {
      assert (a + b)[..|a + b| - 1] == a + b[..|b| - 1];
      SpreadJoins(row, a, b[..|b| - 1]);
    }
  }

  lemma SpreadOne(row: seq<seq<Node>>, r: Row)
    ensures Spread(row, [r]) == GroupAt(row, r)
  {
    assert [r][..0] == [];
  }

  /** Rearranging the rows rearranges the nodes. */
  lemma {:induction false} SpreadPermutes(row: seq<seq<Node>>, s: seq<Row>, t: seq<Row>)
    requires multiset(s) == multiset(t)
    ensures multiset(Spread(row, s)) == multiset(Spread(row, t))
    decreases |s|
  {
    hide GroupAt;
    assert |multiset(s)| == |s| && |multiset(t)| == |t|;
    if |s| > 0 {
      var x := s[0];
      assert x in multiset(t);
      var k :| 0 <= k < |t| && t[k] == x;
      var t1, t2 := t[..k], t[k + 1..];
      assert s == [x] + s[1..] && t == t1 + ([x] + t2);
      RestAgrees(s, t1, t2, x);
      SpreadPermutes(row, s[1..], t1 + t2);
      hide Spread;
      SpreadTakesOut(row, [], s[1..], x);
      SpreadTakesOut(row, t1, t2, x);
      assert [] + ([x] + s[1..]) == s && [] + s[1..] == s[1..];
    }
  }

  lemma SpreadTakesOut(row: seq<seq<Node>>, t1: seq<Row>, t2: seq<Row>, x: Row)
    ensures multiset(Spread(row, t1 + ([x] + t2))) == multiset(GroupAt(row, x)) + multiset(Spread(row, t1 + t2))
  {
    hide Spread, GroupAt;
    SpreadOne(row, x);
    SpreadJoins(row, t1, [x] + t2);
    SpreadJoins(row, [x], t2);
    SpreadJoins(row, t1, t2);
  }

  lemma RestAgrees(s: seq<Row>, t1: seq<Row>, t2: seq<Row>, x: Row)
    requires |s| > 0 && s[0] == x && multiset(s) == multiset(t1 + ([x] + t2))
    ensures multiset(s[1..]) == multiset(t1 + t2)
  {
    assert s == [x] + s[1..];
    assert multiset(s[1..]) == multiset(s) - multiset{x};
  }

  lemma {:induction false} FreshCacheSpreads(src: Source, row: seq<seq<Node>>, normalized: seq<Row>, n: nat)
    requires n <= |row| == |normalized|
    requires forall i :: 0 <= i < |row| ==> |row[i]| > 0 && normalized[i] == src.NormalizedRow(row[i][0], i)
    ensures Spread(row, normalized[..n]) == Flatten(row[..n])
    decreases n
  {
    hide GroupAt;
    if n > 0 {
      FreshCacheSpreads(src, row, normalized, n - 1);
      SpreadNext(row, normalized, n - 1);
      OwnGroup(src, row, n - 1);
      assert row[..n] == row[..n - 1] + [row[n - 1]];
      FlattenJoins(row[..n - 1], [row[n - 1]]);
      FlattenOne(row[n - 1]);
    }
  }

  lemma OwnGroup(src: Source, row: seq<seq<Node>>, i: nat)
    requires i < |row| && |row[i]| > 0
    ensures GroupAt(row, src.NormalizedRow(row[i][0], i)) == row[i]
  {
    assert (i as real).Floor == i;
  }

  lemma {:induction false} CountOnce(rows: seq<Row>, types: seq<ColumnType>)
    requires forall i :: 0 <= i < |rows| ==> RowOf(rows[i], types)
    requires forall i, j :: 0 <= i < j < |rows| ==> Position(rows[i]) != Position(rows[j])
    ensures Rows(rows, types)
    decreases |rows|
  {
    hide RowOf, Position;
    if |rows| > 0 {
      CountOnce(rows[1..], types);
      CountFirst(rows);
    }
  }

  lemma CountFirst(rows: seq<Row>)
    requires |rows| > 0 && forall j :: 0 < j < |rows| ==> rows[0] != rows[j]
    ensures multiset(rows)[rows[0]] == 1
    ensures forall q :: q in rows ==> q == rows[0] || (q in rows[1..] && multiset(rows)[q] == multiset(rows[1..])[q])
  {
    assert rows == [rows[0]] + rows[1..];
    assert rows[0] !in rows[1..];
    assert forall q :: multiset(rows)[q] == multiset{rows[0]}[q] + multiset(rows[1..])[q];
    assert forall q :: q in rows[1..] <==> q in multiset(rows[1..]);
  }

  lemma FreshRows(src: Source, rows: seq<Node>, c: Cache)
    requires src.Valid() && src.Cached(rows, c)
    ensures Rows(c.normalized, src.types) && AllPlaced(c)
  {
    forall i | 0 <= i < |c.normalized|
      ensures RowOf(c.normalized[i], src.types) && Position(c.normalized[i]) == i as real
      ensures Placed(c.normalized[i], |c.row|) && |c.normalized[i]| == |c.normalized[0]|
    {
      assert c.normalized[i] == src.NormalizedRow(c.row[i][0], i);
      assert (i as real).Floor == i;
    }
    CountOnce(c.normalized, src.types);
  }

  /**
   Sorting a cached table and putting the rows back: whatever order earlier sorts have left the cache and the table in,
   the table ends up as the groups in the one order that the sort list gives, each row with its child rows after it, and
   every row exactly once.
   */
  lemma SortedTable(src: Source, document: seq<Node>, c: Cache, keys: seq<Key>, normalized: seq<Row>, rows: seq<Node>)
    requires src.Valid() && src.Cached(document, c) && NoneTwice(document) && KeysOf(keys, src.types)
    requires multiset(normalized) == multiset(c.normalized) && multiset(rows) == multiset(document)
    ensures var sorted := Sort(Comparator(keys, src.types), normalized);
            && sorted == Sort(Comparator(keys, src.types), c.normalized)
            && MoveAll(rows, Spread(c.row, sorted)) == Spread(c.row, sorted)
            && multiset(Spread(c.row, sorted)) == multiset(document)
  {
    hide Comparator, Sort, MoveAll, Rows, RowOf, Spread, Source.Cached;
    var sorted := Sort(Comparator(keys, src.types), normalized);
    FreshRows(src, document, c);
    EarlierSortsDoNotMatter(keys, src.types, c.normalized, normalized);
    SpreadPermutes(c.row, sorted, c.normalized);
    FreshSpread(src, document, c);
    var xs := Spread(c.row, sorted);
    SamePlaces(document, xs);
    AllMoved(rows, xs);
  }

  lemma FreshSpread(src: Source, document: seq<Node>, c: Cache)
    requires src.Cached(document, c)
    ensures Spread(c.row, c.normalized) == document
  {
    hide Spread, Flatten;
    FreshCacheSpreads(src, c.row, c.normalized, |c.row|);
    assert c.normalized[..|c.row|] == c.normalized && c.row[..|c.row|] == c.row;
  }

  lemma AllMoved(rows: seq<Node>, xs: seq<Node>)
    requires NoneTwice(xs) && multiset(rows) == multiset(xs)
    ensures MoveAll(rows, xs) == xs
  {
    hide MoveAll;
    var rest := Moved(rows, xs);
    SameMembers(rows, xs);
    if rest != [] {
      HasMember(rest);
    }
    assert rest + xs == xs;
  }

  lemma SameMembers(xs: seq<Node>, ys: seq<Node>)
    requires multiset(xs) == multiset(ys)
    ensures forall y :: y in xs ==> y in ys
  {
    forall y | y in xs
      ensures y in ys
    {
      assert y in multiset(xs);
    }
  }

  lemma HasMember(xs: seq<Node>)
    requires xs != []
    ensures exists y :: y in xs
  {
    assert xs[0] in xs;
  }

  lemma SamePlaces(xs: seq<Node>, ys: seq<Node>)
    requires NoneTwice(xs) && multiset(xs) == multiset(ys)
    ensures NoneTwice(ys)
  {
    CountsOnce(xs);
    forall i, j | 0 <= i < j < |ys|
      ensures ys[i] != ys[j]
    {
      assert ys == ys[..j] + ys[j..];
      assert multiset(ys)[ys[j]] == multiset(ys[..j])[ys[j]] + multiset(ys[j..])[ys[j]];
      assert ys[j..][0] == ys[j] && ys[j] in multiset(ys[j..]);
      assert ys[..j][i] == ys[i] && ys[i] in multiset(ys[..j]);
    }
  }

  lemma {:induction false} CountsOnce(xs: seq<Node>)
    requires NoneTwice(xs)
    ensures forall x :: multiset(xs)[x] <= 1
    decreases |xs|
  {
    if |xs| > 0 {
      CountsOnce(xs[1..]);
      assert xs == [xs[0]] + xs[1..];
      assert xs[0] !in xs[1..];
      assert xs[0] !in multiset(xs[1..]);
    }
  }
}
