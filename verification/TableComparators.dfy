/**
 The comparators that `multisort` generates and evaluates (js/jquery.tablesorter.js:580-648): the code as a tree, what
 running it gives, and the order it stands for.
 */
module TableComparators {
  // ----- cells and rows

  /** What a parser's `format` gives for a cell; numbers are finite. */
  datatype Cell = Null | Num(n: real) | Text(t: string)

  /** A cached row: the cells of its columns, then its position in the document as a number. */
  type Row = seq<Cell>

  datatype ColumnType = TextColumn | NumericColumn

  predicate Typed(c: Cell, t: ColumnType) {
    c.Null? || (if t == TextColumn then c.Text? else c.Num?)
  }

  predicate RowOf(r: Row, types: seq<ColumnType>) {
    |r| == |types| + 1 && r[|types|].Num? && forall c :: 0 <= c < |types| ==> Typed(r[c], types[c])
  }

  function Position(r: Row): real {
    if |r| > 0 && r[|r| - 1].Num? then r[|r| - 1].n else 0.0
  }

  /** `a[c]` */
  function CellAt(r: Row, c: nat): Cell {
    if c < |r| then r[c] else Null
  }

  /** JavaScript's `<` on strings. */
  predicate TextLess(a: string, b: string) {
    if |b| == 0 then false
    else if |a| == 0 then true
    else a[0] < b[0] || (a[0] == b[0] && TextLess(a[1..], b[1..]))
  }

  // ----- the generated code

  datatype Value = NegativeInfinity | PositiveInfinity | Finite(r: real)

  datatype Operand = A(col: nat) | B(col: nat)

  datatype Test = Equal(x: Operand, y: Operand) | IsNull(x: Operand) | Below(x: Operand, y: Operand) | Both(t: Test, u: Test)

  datatype Expr = Constant(v: Value) | Minus(x: Operand, y: Operand) | If(test: Test, yes: Expr, no: Expr)

  /** `var e = ...; if (e) { return e; } else { ... }`, ending in a `return`. */
  datatype Code = Try(e: Expr, rest: Code) | Return(e: Expr)

  function Look(o: Operand, a: Row, b: Row): Cell {
    match o
    case A(c) => CellAt(a, c)
    case B(c) => CellAt(b, c)
  }

  predicate Holds(t: Test, a: Row, b: Row) {
    match t
    case Equal(x, y) => Look(x, a, b) == Look(y, a, b)
    case IsNull(x) => Look(x, a, b).Null?
    case Below(x, y) =>
      var p, q := Look(x, a, b), Look(y, a, b);
      p.Text? && q.Text? && TextLess(p.t, q.t)
    case Both(u, v) => Holds(u, a, b) && Holds(v, a, b)
  }

  function Eval(e: Expr, a: Row, b: Row): Value {
    match e
    case Constant(v) => v
    case Minus(x, y) =>
      var p, q := Look(x, a, b), Look(y, a, b);
      if p.Num? && q.Num? then Finite(p.n - q.n) else Finite(0.0)
    case If(test, yes, no) => if Holds(test, a, b) then Eval(yes, a, b) else Eval(no, a, b)
  }

  function Call(code: Code, a: Row, b: Row): Value {
    match code
    case Return(e) => Eval(e, a, b)
    case Try(e, rest) => if Eval(e, a, b) != Finite(0.0) then Eval(e, a, b) else Call(rest, a, b)
  }

  /** What `sort` looks at. */
  function Sign(v: Value): int {
    match v
    case NegativeInfinity => -1
    case PositiveInfinity => 1
    case Finite(r) => if r < 0.0 then -1 else if r > 0.0 then 1 else 0
  }

  /** The part that all four variants share. */
  function NullsLast(c: nat, rest: Expr): Expr {
    If(IsNull(A(c)), Constant(PositiveInfinity), If(IsNull(B(c)), Constant(NegativeInfinity), rest))
  }

  /** `makeSortFunction` */
  function SortFunction(columnType: ColumnType, ascending: bool, c: nat): Expr {
    match columnType
    case TextColumn =>
      var below := if ascending then Below(A(c), B(c)) else Below(B(c), A(c));
      If(Equal(A(c), B(c)), Constant(Finite(0.0)), NullsLast(c, If(below, Constant(Finite(-1.0)), Constant(Finite(1.0)))))
    case NumericColumn =>
      If(Both(IsNull(A(c)), IsNull(B(c))), Constant(Finite(0.0)),
         NullsLast(c, if ascending then Minus(A(c), B(c)) else Minus(B(c), A(c))))
  }

  /** A sort list entry: the column, and 0 for ascending order. */
  type Key = (nat, int)

  function KeyFunction(k: Key, types: seq<ColumnType>): Expr
    requires k.0 < |types|
  {
    SortFunction(types[k.0], k.1 == 0, k.0)
  }

  predicate KeysOf(keys: seq<Key>, types: seq<ColumnType>) {
    forall i :: 0 <= i < |keys| ==> keys[i].0 < |types|
  }

  /** The whole comparator: the keys in turn, then the position. */
  function Comparator(keys: seq<Key>, types: seq<ColumnType>): Code
    requires KeysOf(keys, types)
  {
    if |keys| == 0 then Return(Minus(A(|types|), B(|types|)))
    else Try(KeyFunction(keys[0], types), Comparator(keys[1..], types))
  }

  /** The loops of `multisort` that write the comparator: an opening for each key, the last `return`, then the closings. */
  method WriteComparator(keys: seq<Key>, types: seq<ColumnType>) returns (code: Code)
    requires KeysOf(keys, types)
    ensures code == Comparator(keys, types)
  {
    hide KeyFunction;
    var es: seq<Expr> := [];
    for i := 0 to |keys|
      invariant es == seq(i, j requires 0 <= j < i => KeyFunction(keys[j], types))
    {
      es := es + [KeyFunction(keys[i], types)];
    }
    code := Return(Minus(A(|types|), B(|types|)));
    assert keys[|keys|..] == [];
    for i := |keys| downto 0
      invariant code == Comparator(keys[i..], types)
    {
      assert keys[i..][0] == keys[i] && keys[i..][1..] == keys[i + 1..];
      code := Try(es[i], code);
    }
    assert keys[0..] == keys;
  }

  // ----- the order

  /** Nulls come last in either direction; between values the column's own order, turned round for descending. */
  predicate Precedes(ascending: bool, x: Cell, y: Cell) {
    if x.Null? || y.Null? then !x.Null?
    else
      var p, q := if ascending then x else y, if ascending then y else x;
      (p.Num? && q.Num? && p.n < q.n) || (p.Text? && q.Text? && TextLess(p.t, q.t))
  }

  /** Lexicographic by the keys, ties by position. */
  predicate Before(keys: seq<Key>, a: Row, b: Row) {
    if |keys| == 0 then Position(a) < Position(b)
    else
      var (x, y) := (CellAt(a, keys[0].0), CellAt(b, keys[0].0));
      (x != y && Precedes(keys[0].1 == 0, x, y)) || (x == y && Before(keys[1..], a, b))
  }

  // ----- the generated comparator means that order

  lemma {:induction false} TextIrreflexive(a: string)
    ensures !TextLess(a, a)
    decreases |a|
  {
    if |a| > 0 {
      TextIrreflexive(a[1..]);
    }
  }

  /** `i` is the first place where the strings differ, and the character of `a` there is the smaller one. */
  predicate SmallerAt(a: string, b: string, i: nat) {
    i < |a| && i < |b| && a[..i] == b[..i] && a[i] < b[i]
  }

  /** `a < b` exactly when `a` is a proper prefix of `b` or has the smaller character at the first place where they differ. */
  lemma {:induction false} TextLessIff(a: string, b: string)
    ensures TextLess(a, b) <==> (|a| < |b| && a == b[..|a|]) || exists i: nat :: SmallerAt(a, b, i)
    decreases |a| + |b|
  {
    if |a| > 0 && |b| > 0 {
      TextLessIff(a[1..], b[1..]);
      if a[0] == b[0] {
        PrefixShifts(a, b);
        if i: nat :| SmallerAt(a[1..], b[1..], i) {
          PlaceShifts(a, b, i);
        }
        if i: nat :| SmallerAt(a, b, i) {
          PlaceShifts(a, b, i - 1);
        }
      } else if a[0] < b[0] {
        assert SmallerAt(a, b, 0);
      } else {
        assert forall i: nat :: i > 0 && i < |a| && i < |b| ==> a[..i][0] == a[0] && b[..i][0] == b[0];
      }
    }
  }

  lemma PrefixShifts(a: string, b: string)
    requires |a| > 0 && |b| > 0 && a[0] == b[0]
    ensures (|a| < |b| && a == b[..|a|]) <==> (|a| - 1 < |b| - 1 && a[1..] == b[1..][..|a| - 1])
  {
    if |a| < |b| {
      assert a == [a[0]] + a[1..] && b[..|a|] == [b[0]] + b[1..][..|a| - 1];
    }
  }

  lemma PlaceShifts(a: string, b: string, i: nat)
    requires |a| > 0 && |b| > 0 && a[0] == b[0]
    ensures SmallerAt(a[1..], b[1..], i) <==> SmallerAt(a, b, i + 1)
  {
    if i + 1 < |a| && i + 1 < |b| {
      assert a[..i + 1] == [a[0]] + a[1..][..i] && b[..i + 1] == [b[0]] + b[1..][..i];
      assert a[1..][..i] == a[..i + 1][1..] && b[1..][..i] == b[..i + 1][1..];
    }
  }

  lemma {:induction false} TextTotal(a: string, b: string)
    ensures a == b || TextLess(a, b) || TextLess(b, a)
    ensures !(TextLess(a, b) && TextLess(b, a))
    decreases |a| + |b|
  {
    if |a| > 0 && |b| > 0 {
      TextTotal(a[1..], b[1..]);
      assert a[0] == b[0] && a[1..] == b[1..] ==> a == [a[0]] + a[1..] == b;
    }
  }

  lemma {:induction false} TextTransitive(a: string, b: string, c: string)
    requires TextLess(a, b) && TextLess(b, c)
    ensures TextLess(a, c)
    decreases |b|
  {
    if |a| > 0 && a[0] == b[0] == c[0] {
      TextTransitive(a[1..], b[1..], c[1..]);
    }
  }

  /** In both directions an empty cell comes after any other; numbers and texts change places with the direction. */
  lemma Directions(ascending: bool, x: Cell, y: Cell)
    ensures !Precedes(ascending, Null, y) && (!x.Null? ==> Precedes(ascending, x, Null))
    ensures x.Num? && y.Num? ==> (Precedes(ascending, x, y) <==> if ascending then x.n < y.n else x.n > y.n)
    ensures x.Text? && y.Text? ==> (Precedes(ascending, x, y) <==> if ascending then TextLess(x.t, y.t) else TextLess(y.t, x.t))
  {
    hide TextLess;
  }

  /** Key `i` is the first one in whose column the rows differ. */
  predicate FirstDifference(keys: seq<Key>, a: Row, b: Row, i: nat) {
    && i < |keys| && CellAt(a, keys[i].0) != CellAt(b, keys[i].0)
    && forall j :: 0 <= j < i ==> CellAt(a, keys[j].0) == CellAt(b, keys[j].0)
  }

  /**
   A row comes before another exactly when the first key in whose column they differ puts it there, or they differ in no
   such column and it stood before the other in the document.
   */
  lemma {:induction false} BeforeIff(keys: seq<Key>, a: Row, b: Row)
    ensures Before(keys, a, b) <==>
              (exists i: nat :: FirstDifference(keys, a, b, i) &&
                                Precedes(keys[i].1 == 0, CellAt(a, keys[i].0), CellAt(b, keys[i].0)))
              || ((forall i :: 0 <= i < |keys| ==> CellAt(a, keys[i].0) == CellAt(b, keys[i].0)) && Position(a) < Position(b))
    decreases |keys|
  {
    hide Precedes, CellAt, Position;
    if |keys| > 0 {
      BeforeIff(keys[1..], a, b);
      if CellAt(a, keys[0].0) == CellAt(b, keys[0].0) {
        forall i: nat
          ensures FirstDifference(keys[1..], a, b, i) <==> FirstDifference(keys, a, b, i + 1)
        {
          NextDifference(keys, a, b, i);
        }
        assert forall i: nat :: FirstDifference(keys, a, b, i) ==> i > 0 && FirstDifference(keys[1..], a, b, i - 1);
        assert forall i :: 0 < i < |keys| ==> keys[i] == keys[1..][i - 1];
      } else {
        assert FirstDifference(keys, a, b, 0);
      }
    }
  }

  lemma NextDifference(keys: seq<Key>, a: Row, b: Row, i: nat)
    requires |keys| > 0 && CellAt(a, keys[0].0) == CellAt(b, keys[0].0)
    ensures FirstDifference(keys[1..], a, b, i) <==> FirstDifference(keys, a, b, i + 1)
  {
    hide CellAt;
    if FirstDifference(keys[1..], a, b, i) {
      assert forall j :: 0 < j < i + 1 ==> keys[j] == keys[1..][j - 1];
    }
    if FirstDifference(keys, a, b, i + 1) {
      assert forall j :: 0 <= j < i ==> keys[1..][j] == keys[j + 1];
    }
  }

  lemma CellsOrdered(ascending: bool, x: Cell, y: Cell, t: ColumnType)
    requires Typed(x, t) && Typed(y, t)
    ensures !Precedes(ascending, x, x)
    ensures x == y || Precedes(ascending, x, y) || Precedes(ascending, y, x)
    ensures !(Precedes(ascending, x, y) && Precedes(ascending, y, x))
  {
    if x.Text? {
      TextIrreflexive(x.t);
      if y.Text? {
        TextTotal(x.t, y.t);
      }
    }
  }

  lemma CellsTransitive(ascending: bool, x: Cell, y: Cell, z: Cell, t: ColumnType)
    requires Typed(x, t) && Typed(y, t) && Typed(z, t)
    requires Precedes(ascending, x, y) && Precedes(ascending, y, z)
    ensures Precedes(ascending, x, z)
  {
    if x.Text? && y.Text? && z.Text? {
      if ascending {
        TextTransitive(x.t, y.t, z.t);
      } else {
        TextTransitive(z.t, y.t, x.t);
      }
    }
  }

  lemma EvalNullsLast(c: nat, rest: Expr, a: Row, b: Row)
    requires c < |a| && c < |b|
    ensures Eval(NullsLast(c, rest), a, b) ==
            if a[c].Null? then PositiveInfinity else if b[c].Null? then NegativeInfinity else Eval(rest, a, b)
  {
    hide Eval;
    EvalIf(IsNull(A(c)), Constant(PositiveInfinity), If(IsNull(B(c)), Constant(NegativeInfinity), rest), a, b);
    EvalIf(IsNull(B(c)), Constant(NegativeInfinity), rest, a, b);
    EvalConstant(PositiveInfinity, a, b);
    EvalConstant(NegativeInfinity, a, b);
  }

  lemma EvalIf(test: Test, yes: Expr, no: Expr, a: Row, b: Row)
    ensures Eval(If(test, yes, no), a, b) == if Holds(test, a, b) then Eval(yes, a, b) else Eval(no, a, b)
  {
  }

  lemma EvalConstant(v: Value, a: Row, b: Row)
    ensures Eval(Constant(v), a, b) == v
  {
  }

  lemma EvalText(ascending: bool, c: nat, a: Row, b: Row)
    requires c < |a| && c < |b| && Typed(a[c], TextColumn) && Typed(b[c], TextColumn)
    ensures Eval(SortFunction(TextColumn, ascending, c), a, b) ==
            if a[c] == b[c] then Finite(0.0)
            else if a[c].Null? then PositiveInfinity
            else if b[c].Null? then NegativeInfinity
            else if Precedes(ascending, a[c], b[c]) then Finite(-1.0) else Finite(1.0)
  {
    hide Eval, NullsLast;
    var below := if ascending then Below(A(c), B(c)) else Below(B(c), A(c));
    var rest := If(below, Constant(Finite(-1.0)), Constant(Finite(1.0)));
    EvalIf(Equal(A(c), B(c)), Constant(Finite(0.0)), NullsLast(c, rest), a, b);
    EvalNullsLast(c, rest, a, b);
    EvalIf(below, Constant(Finite(-1.0)), Constant(Finite(1.0)), a, b);
    EvalConstant(Finite(0.0), a, b);
    EvalConstant(Finite(1.0), a, b);
    EvalConstant(Finite(-1.0), a, b);
  }

  lemma EvalNumeric(ascending: bool, c: nat, a: Row, b: Row)
    requires c < |a| && c < |b| && Typed(a[c], NumericColumn) && Typed(b[c], NumericColumn)
    ensures Eval(SortFunction(NumericColumn, ascending, c), a, b) ==
            if a[c].Null? && b[c].Null? then Finite(0.0)
            else if a[c].Null? then PositiveInfinity
            else if b[c].Null? then NegativeInfinity
            else if ascending then Finite(a[c].n - b[c].n) else Finite(b[c].n - a[c].n)
  {
    var rest := if ascending then Minus(A(c), B(c)) else Minus(B(c), A(c));
    assert a[c].Num? && b[c].Num? ==> Eval(rest, a, b) == if ascending then Finite(a[c].n - b[c].n) else Finite(b[c].n - a[c].n);
    EvalConstant(Finite(0.0), a, b);
    hide Eval, NullsLast;
    EvalIf(Both(IsNull(A(c)), IsNull(B(c))), Constant(Finite(0.0)), NullsLast(c, rest), a, b);
    EvalNullsLast(c, rest, a, b);
  }

  /** One generated expression: zero for equal cells, otherwise the sign of the order of the column. */
  lemma KeyMeans(k: Key, types: seq<ColumnType>, a: Row, b: Row)
    requires k.0 < |types| && RowOf(a, types) && RowOf(b, types)
    ensures var v := Eval(KeyFunction(k, types), a, b);
            var x, y := a[k.0], b[k.0];
            && (v == Finite(0.0) <==> x == y) && (Sign(v) == 0 <==> x == y)
            && (Sign(v) == -1 <==> x != y && Precedes(k.1 == 0, x, y))
            && (Sign(v) == 1 <==> x != y && Precedes(k.1 == 0, y, x))
  {
    hide TextLess, Eval, SortFunction;
    CellsOrdered(k.1 == 0, a[k.0], b[k.0], types[k.0]);
    if types[k.0] == TextColumn {
      EvalText(k.1 == 0, k.0, a, b);
    } else {
      EvalNumeric(k.1 == 0, k.0, a, b);
    }
  }

  /**
   For every sort list, running the generated code gives the sign of the lexicographic order by the keys, nulls last in
   both directions, with ties by position.
   */
  lemma {:induction false} ComparatorMeans(keys: seq<Key>, types: seq<ColumnType>, a: Row, b: Row)
    requires KeysOf(keys, types) && RowOf(a, types) && RowOf(b, types)
    ensures Sign(Call(Comparator(keys, types), a, b)) == -1 <==> Before(keys, a, b)
    ensures Sign(Call(Comparator(keys, types), a, b)) == 1 <==> Before(keys, b, a)
    decreases |keys|
  {
    hide KeyFunction, Precedes;
    if |keys| > 0 {
      KeyMeans(keys[0], types, a, b);
      ComparatorMeans(keys[1..], types, a, b);
    }
  }

  // ----- a strict total order

  lemma {:induction false} BeforeTotal(keys: seq<Key>, types: seq<ColumnType>, a: Row, b: Row)
    requires KeysOf(keys, types) && RowOf(a, types) && RowOf(b, types)
    ensures !Before(keys, a, a) && !(Before(keys, a, b) && Before(keys, b, a))
    ensures Position(a) != Position(b) ==> Before(keys, a, b) || Before(keys, b, a)
    decreases |keys|
  {
    hide Precedes;
    if |keys| > 0 {
      CellsOrdered(keys[0].1 == 0, a[keys[0].0], b[keys[0].0], types[keys[0].0]);
      BeforeTotal(keys[1..], types, a, b);
    }
  }

  lemma {:induction false} BeforeTransitive(keys: seq<Key>, types: seq<ColumnType>, a: Row, b: Row, c: Row)
    requires KeysOf(keys, types) && RowOf(a, types) && RowOf(b, types) && RowOf(c, types)
    requires Before(keys, a, b) && Before(keys, b, c)
    ensures Before(keys, a, c)
    decreases |keys|
  {
    hide Precedes;
    if |keys| > 0 {
      var i, up := keys[0].0, keys[0].1 == 0;
      CellsOrdered(up, a[i], b[i], types[i]);
      CellsOrdered(up, b[i], c[i], types[i]);
      CellsOrdered(up, a[i], c[i], types[i]);
      if a[i] == b[i] && b[i] == c[i] {
        BeforeTransitive(keys[1..], types, a, b, c);
      } else if a[i] != b[i] && b[i] != c[i] {
        CellsTransitive(up, a[i], b[i], c[i], types[i]);
      }
    }
  }
}
