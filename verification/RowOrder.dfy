/** The ORDER BY comparator: when it is a total order, and exactly when it is not. */
module RowOrder {
  import opened Wrappers
  import opened Text
  import opened Predicates
  import Sorting

  datatype Direction = Asc | Desc

  datatype OrderBy = OrderBy(field: string, direction: Direction)

  // ----- The comparator -----

  function Or<T>(value: Option<T>, default: T): T
  {
    if value.Some? then value.value else default
  }

  function Directed(direction: Direction, o: Ordering): Ordering
  {
    if direction == Asc then o else o.Reverse()
  }

  /** The comparison on the ORDER BY field, already canonical. */
  function Primary(tables: Tables, field: string, direction: Direction, a: Row, b: Row): Ordering
  {
    var na, nb := FieldNum(a, field), FieldNum(b, field);
    var sa, sb := ResolvedStr(tables, a, field), ResolvedStr(tables, b, field);
    if na.Some? && nb.Some? then Directed(direction, CmpInt(na.value, nb.value))
    else if na.Some? != nb.Some? && sa.None? && sb.None? then (if na.Some? then Less else Greater)
    else Directed(direction, CmpStr(Or(sa, ""), Or(sb, "")))
  }

  function Then(first: Ordering, second: Ordering): Ordering
  {
    if first == Equal then second else first
  }

  function TieBreak(a: Row, b: Row): Ordering
  {
    Then(CmpStr(Or(FieldStr(a, "name"), ""), Or(FieldStr(b, "name"), "")),
    Then(CmpInt(Or(FieldNum(a, "line"), 0), Or(FieldNum(b, "line"), 0)),
    Then(CmpStr(Or(FieldStr(a, "path"), ""), Or(FieldStr(b, "path"), "")),
         CmpStr(Or(FieldStr(a, "fql_kind"), ""), Or(FieldStr(b, "fql_kind"), "")))))
  }

  function OrderOn(tables: Tables, field: string, direction: Direction, a: Row, b: Row): Ordering
  {
    Then(Primary(tables, field, direction, a, b), TieBreak(a, b))
  }

  /** `order_cmp`. */
  function OrderCmp(tables: Tables, orderBy: Option<OrderBy>, a: Row, b: Row): Ordering
  {
    match orderBy
    case Some(o) => OrderOn(tables, tables.canonical(o.field), o.direction, a, b)
    case None => TieBreak(a, b)
  }

  // ----- What the order means -----

  /** Ties go by name, then line, then path, then kind, all ascending, with missing values read
      as empty or zero. */
  predicate TieAscends(a: Row, b: Row)
  {
    var nameA, nameB := Or(FieldStr(a, "name"), ""), Or(FieldStr(b, "name"), "");
    var lineA, lineB := Or(FieldNum(a, "line"), 0), Or(FieldNum(b, "line"), 0);
    var pathA, pathB := Or(FieldStr(a, "path"), ""), Or(FieldStr(b, "path"), "");
    var kindA, kindB := Or(FieldStr(a, "fql_kind"), ""), Or(FieldStr(b, "fql_kind"), "");
    || StrBefore(nameA, nameB)
    || (nameA == nameB && (
          || lineA < lineB
          || (lineA == lineB && (
                || StrBefore(pathA, pathB)
                || (pathA == pathB && StrUpTo(kindA, kindB))))))
  }

  /** By two numbers: ascending or descending, ties aside. */
  predicate NumbersInPlace(direction: Direction, x: int, y: int, tie: bool)
  {
    (if direction == Asc then x < y else y < x) || (x == y && tie)
  }

  predicate TextsInPlace(direction: Direction, x: string, y: string, tie: bool)
  {
    (if direction == Asc then StrBefore(x, y) else StrBefore(y, x)) || (x == y && tie)
  }

  /** `a` may stand before `b`.  Two numbers go by size, in the direction asked for.  A number
      without text goes before a row with neither, in both directions.  Everything else goes by
      text, in the direction asked for, with a missing one read as empty. */
  predicate InPlace(tables: Tables, orderBy: Option<OrderBy>, a: Row, b: Row)
  {
    if orderBy.None? then TieAscends(a, b)
    else
      var field, direction := tables.canonical(orderBy.value.field), orderBy.value.direction;
      var numA, numB := FieldNum(a, field), FieldNum(b, field);
      var textA, textB := ResolvedStr(tables, a, field), ResolvedStr(tables, b, field);
      if numA.Some? && numB.Some? then NumbersInPlace(direction, numA.value, numB.value, TieAscends(a, b))
      else if numA.Some? && textA.None? && textB.None? then true
      else if numB.Some? && textA.None? && textB.None? then false
      else TextsInPlace(direction, Or(textA, ""), Or(textB, ""), TieAscends(a, b))
  }

  lemma TieBreakMeans(a: Row, b: Row)
    ensures TieBreak(a, b) != Greater <==> TieAscends(a, b)
  {
    CmpStrMeans(Or(FieldStr(a, "name"), ""), Or(FieldStr(b, "name"), ""));
    CmpStrMeans(Or(FieldStr(a, "path"), ""), Or(FieldStr(b, "path"), ""));
    CmpStrMeans(Or(FieldStr(a, "fql_kind"), ""), Or(FieldStr(b, "fql_kind"), ""));
    hide StrBefore, CmpStr;
  }

  lemma PrimaryMeans(tables: Tables, field: string, direction: Direction, a: Row, b: Row, tie: bool)
    requires var numA, numB := FieldNum(a, field), FieldNum(b, field);
      var textA, textB := ResolvedStr(tables, a, field), ResolvedStr(tables, b, field);
      !(numA.Some? && numB.Some?) && !(numA.Some? != numB.Some? && textA.None? && textB.None?)
    ensures var o := Primary(tables, field, direction, a, b);
      (o == Less || (o == Equal && tie)) <==>
      TextsInPlace(direction, Or(ResolvedStr(tables, a, field), ""), Or(ResolvedStr(tables, b, field), ""), tie)
  {
    var x, y := Or(ResolvedStr(tables, a, field), ""), Or(ResolvedStr(tables, b, field), "");
    CmpStrMeans(x, y);
    CmpStrMeans(y, x);
    CmpStrFlips(x, y);
    hide StrBefore, CmpStr, ResolvedStr;
  }

  /** The comparator says exactly what may stand before what. */
  lemma OrderMeans(tables: Tables, orderBy: Option<OrderBy>, a: Row, b: Row)
    ensures OrderCmp(tables, orderBy, a, b) != Greater <==> InPlace(tables, orderBy, a, b)
  {
    TieBreakMeans(a, b);
    hide TieBreak, TieAscends, ResolvedStr, StrBefore, CmpStr;
    if orderBy.Some? {
      var field := tables.canonical(orderBy.value.field);
      var numA, numB := FieldNum(a, field), FieldNum(b, field);
      var textA, textB := ResolvedStr(tables, a, field), ResolvedStr(tables, b, field);
      if !(numA.Some? && numB.Some?) && !(numA.Some? != numB.Some? && textA.None? && textB.None?) {
        PrimaryMeans(tables, field, orderBy.value.direction, a, b, TieAscends(a, b));
        hide Primary;
      }
    }
  }

  // ----- Row shapes -----

  /** How a row answers the ORDER BY field: by number, by text, by both, by an empty string,
      or not at all. */
  datatype Shape = NumOnly | NumText | NumEmpty | TextOnly | Empty | Absent

  function ShapeOf(tables: Tables, field: string, row: Row): Shape
  {
    var s := ResolvedStr(tables, row, field);
    if FieldNum(row, field).Some? then
      (if s.None? then NumOnly else if s.value == "" then NumEmpty else NumText)
    else
      (if s.None? then Absent else if s.value == "" then Empty else TextOnly)
  }

  /** No two shapes, or in ascending order no three, that can form a cycle. */
  predicate Homogeneous(direction: Direction, shapes: set<Shape>)
  {
    && !(NumText in shapes && TextOnly in shapes)
    && !(NumEmpty in shapes && (Empty in shapes || Absent in shapes))
    && !(NumOnly in shapes && Empty in shapes)
    && !(direction == Asc && NumOnly in shapes && NumText in shapes && Absent in shapes)
  }

  function IsNumber(shape: Shape): bool
  {
    shape == NumOnly || shape == NumText || shape == NumEmpty
  }

  /** The group a row sorts into, before its value is looked at. */
  function GroupOf(direction: Direction, shapes: set<Shape>, shape: Shape): int
  {
    match direction
    case Asc => if IsNumber(shape) then (if NumText in shapes then 2 else 0) else if shape == TextOnly then 2 else 1
    case Desc => if IsNumber(shape) then 1 else if shape == TextOnly then 0 else 2
  }

  /** The same comparison by group first, then by number or by text. */
  function KeyCmp(tables: Tables, field: string, direction: Direction, shapes: set<Shape>, a: Row, b: Row): Ordering
  {
    var ga := GroupOf(direction, shapes, ShapeOf(tables, field, a));
    var gb := GroupOf(direction, shapes, ShapeOf(tables, field, b));
    if ga != gb then CmpInt(ga, gb)
    else if FieldNum(a, field).Some? && FieldNum(b, field).Some? then
      Directed(direction, CmpInt(FieldNum(a, field).value, FieldNum(b, field).value))
    else
      Directed(direction, CmpStr(Or(ResolvedStr(tables, a, field), ""), Or(ResolvedStr(tables, b, field), "")))
  }

  lemma PrimaryIsKeyCmp(tables: Tables, field: string, direction: Direction, shapes: set<Shape>, a: Row, b: Row)
    requires Homogeneous(direction, shapes)
    requires ShapeOf(tables, field, a) in shapes && ShapeOf(tables, field, b) in shapes
    ensures Primary(tables, field, direction, a, b) == KeyCmp(tables, field, direction, shapes, a, b)
  {
  }

  /** Two orderings in a row of the same comparison, and what they give for the ends. */
  ghost predicate Chains(ab: Ordering, bc: Ordering, ac: Ordering)
  {
    && (ab != Greater && bc != Greater ==> ac != Greater)
    && (ab != Greater && bc != Greater && ac == Equal ==> ab == Equal && bc == Equal)
  }

  lemma CmpStrChains(a: string, b: string, c: string)
    ensures Chains(CmpStr(a, b), CmpStr(b, c), CmpStr(a, c))
    ensures Chains(CmpStr(a, b).Reverse(), CmpStr(b, c).Reverse(), CmpStr(a, c).Reverse())
  {
    CmpStrFlips(a, b);
    CmpStrFlips(b, c);
    CmpStrFlips(a, c);
    if CmpStr(a, b) != Greater && CmpStr(b, c) != Greater {
      CmpStrTransitive(a, b, c);
    }
    if CmpStr(c, b) != Greater && CmpStr(b, a) != Greater {
      CmpStrTransitive(c, b, a);
    }
  }

  lemma KeyCmpChains(tables: Tables, field: string, direction: Direction, shapes: set<Shape>, a: Row, b: Row, c: Row)
    requires Homogeneous(direction, shapes)
    requires ShapeOf(tables, field, a) in shapes && ShapeOf(tables, field, b) in shapes &&
        ShapeOf(tables, field, c) in shapes
    ensures Chains(KeyCmp(tables, field, direction, shapes, a, b),
                   KeyCmp(tables, field, direction, shapes, b, c),
                   KeyCmp(tables, field, direction, shapes, a, c))
  {
    CmpStrChains(Or(ResolvedStr(tables, a, field), ""), Or(ResolvedStr(tables, b, field), ""),
        Or(ResolvedStr(tables, c, field), ""));
  }

  // ----- What always holds -----

  lemma TieBreakFlips(a: Row, b: Row)
    ensures TieBreak(b, a) == TieBreak(a, b).Reverse()
  {
    CmpStrFlips(Or(FieldStr(a, "name"), ""), Or(FieldStr(b, "name"), ""));
    CmpStrFlips(Or(FieldStr(a, "path"), ""), Or(FieldStr(b, "path"), ""));
    CmpStrFlips(Or(FieldStr(a, "fql_kind"), ""), Or(FieldStr(b, "fql_kind"), ""));
  }

  /** The four fields a row is told apart by, with missing values defaulted. */
  function TieKey(row: Row): (string, int, string, string)
  {
    (Or(FieldStr(row, "name"), ""), Or(FieldNum(row, "line"), 0),
     Or(FieldStr(row, "path"), ""), Or(FieldStr(row, "fql_kind"), ""))
  }

  lemma TieBreakEqual(a: Row, b: Row)
    ensures TieBreak(a, b) == Equal <==> TieKey(a) == TieKey(b)
  {
    CmpStrEqual(Or(FieldStr(a, "name"), ""), Or(FieldStr(b, "name"), ""));
    CmpStrEqual(Or(FieldStr(a, "path"), ""), Or(FieldStr(b, "path"), ""));
    CmpStrEqual(Or(FieldStr(a, "fql_kind"), ""), Or(FieldStr(b, "fql_kind"), ""));
  }

  lemma TieBreakChains(a: Row, b: Row, c: Row)
    ensures Chains(TieBreak(a, b), TieBreak(b, c), TieBreak(a, c))
  {
    CmpStrChains(TieKey(a).0, TieKey(b).0, TieKey(c).0);
    CmpStrChains(TieKey(a).2, TieKey(b).2, TieKey(c).2);
    CmpStrChains(TieKey(a).3, TieKey(b).3, TieKey(c).3);
    forall x: string, y: string ensures CmpStr(x, y) == Equal <==> x == y { CmpStrEqual(x, y); }
  }

  lemma PrimaryFlips(tables: Tables, field: string, direction: Direction, a: Row, b: Row)
    ensures Primary(tables, field, direction, b, a) == Primary(tables, field, direction, a, b).Reverse()
  {
    CmpStrFlips(Or(ResolvedStr(tables, a, field), ""), Or(ResolvedStr(tables, b, field), ""));
  }

  /** Swapping the rows reverses the answer, for any mix of shapes. */
  lemma OrderFlips(tables: Tables, orderBy: Option<OrderBy>, a: Row, b: Row)
    ensures OrderCmp(tables, orderBy, b, a) == OrderCmp(tables, orderBy, a, b).Reverse()
  {
    hide TieBreak, Primary;
    TieBreakFlips(a, b);
    if orderBy.Some? {
      PrimaryFlips(tables, tables.canonical(orderBy.value.field), orderBy.value.direction, a, b);
    }
  }

  /** Equal rows agree on name, line, path and kind, for any mix of shapes. */
  lemma EqualRowsShareTieKey(tables: Tables, orderBy: Option<OrderBy>, a: Row, b: Row)
    requires OrderCmp(tables, orderBy, a, b) == Equal
    ensures TieKey(a) == TieKey(b)
  {
    TieBreakEqual(a, b);
  }

  // ----- When it is transitive -----

  lemma OrderOnChains(tables: Tables, field: string, direction: Direction, shapes: set<Shape>, a: Row, b: Row, c: Row)
    requires Homogeneous(direction, shapes)
    requires ShapeOf(tables, field, a) in shapes && ShapeOf(tables, field, b) in shapes &&
        ShapeOf(tables, field, c) in shapes
    ensures OrderOn(tables, field, direction, a, b) != Greater && OrderOn(tables, field, direction, b, c) != Greater
            ==> OrderOn(tables, field, direction, a, c) != Greater
  {
    PrimaryIsKeyCmp(tables, field, direction, shapes, a, b);
    PrimaryIsKeyCmp(tables, field, direction, shapes, b, c);
    PrimaryIsKeyCmp(tables, field, direction, shapes, a, c);
    KeyCmpChains(tables, field, direction, shapes, a, b, c);
    TieBreakChains(a, b, c);
    hide Primary, TieBreak, KeyCmp;
  }

  /** On rows of these shapes, whatever else they hold, the comparator is transitive. */
  ghost predicate TransitiveOn(tables: Tables, direction: Direction, shapes: set<Shape>)
  {
    forall field: string, a: Row, b: Row, c: Row ::
      && ShapeOf(tables, field, a) in shapes && ShapeOf(tables, field, b) in shapes &&
          ShapeOf(tables, field, c) in shapes
      && OrderOn(tables, field, direction, a, b) != Greater && OrderOn(tables, field, direction, b, c) != Greater
      ==> OrderOn(tables, field, direction, a, c) != Greater
  }

  /** A row of the given shape under the field "metric". */
  function Sample(name: string, num: Option<int>, text: Option<string>): Row
  {
    Row(if text.Some? then map["name" := name, "metric" := text.value] else map["name" := name],
        if num.Some? then map["metric" := num.value] else map[], None, false)
  }

  /** 9 < 10 as numbers, but "10" < "5x" < "9" as text. */
  lemma NumbersAndTextCycle(tables: Tables, direction: Direction)
    ensures !TransitiveOn(tables, direction, {NumText, TextOnly})
  {
    var nine, ten := Sample("", Some(9), Some("9")), Sample("", Some(10), Some("10"));
    var word := Sample("", None, Some("5x"));
    assert CmpStr("10", "5x") == Less && CmpStr("5x", "9") == Less && CmpStr("9", "5x") == Greater &&
        CmpStr("5x", "10") == Greater;
    if direction == Asc {
      assert OrderOn(tables, "metric", direction, ten, word) == Less;
      assert OrderOn(tables, "metric", direction, word, nine) == Less;
      assert OrderOn(tables, "metric", direction, ten, nine) == Greater;
    } else {
      assert OrderOn(tables, "metric", direction, nine, word) == Less;
      assert OrderOn(tables, "metric", direction, word, ten) == Less;
      assert OrderOn(tables, "metric", direction, nine, ten) == Greater;
    }
  }

  /** Rows with a number but no text, and a row that reads as the empty string: the second
      ties with every number, so names decide, against the numbers. */
  lemma EmptyTextCycle(tables: Tables, direction: Direction, number: Option<string>, other: Option<string>)
    requires number == None || number == Some("")
    requires other == None || other == Some("")
    requires number == None ==> other == Some("")
    ensures !TransitiveOn(tables, direction,
              {if number == None then NumOnly else NumEmpty, if other == None then Absent else Empty})
  {
    var five, six := Sample("a", Some(5), number), Sample("a", Some(6), number);
    var five', six' := Sample("c", Some(5), number), Sample("c", Some(6), number);
    var between := Sample("b", None, other);
    assert CmpStr("a", "b") == Less && CmpStr("b", "c") == Less && CmpStr("", "") == Equal;
    if direction == Asc {
      assert OrderOn(tables, "metric", direction, six, between) == Less;
      assert OrderOn(tables, "metric", direction, between, five') == Less;
      assert OrderOn(tables, "metric", direction, six, five') == Greater;
    } else {
      assert OrderOn(tables, "metric", direction, five, between) == Less;
      assert OrderOn(tables, "metric", direction, between, six') == Less;
      assert OrderOn(tables, "metric", direction, five, six') == Greater;
    }
  }

  /** Ascending, a row without the field sorts after a bare number but before a number that
      also reads as text, whatever the numbers are. */
  lemma AbsentBetweenNumbersCycle(tables: Tables)
    ensures !TransitiveOn(tables, Asc, {NumOnly, NumText, Absent})
  {
    var ten, none, five := Sample("", Some(10), None), Sample("", None, None), Sample("", Some(5), Some("5"));
    assert OrderOn(tables, "metric", Asc, ten, none) == Less;
    assert OrderOn(tables, "metric", Asc, none, five) == Less;
    assert OrderOn(tables, "metric", Asc, ten, five) == Greater;
  }

  lemma FewerShapes(tables: Tables, direction: Direction, few: set<Shape>, many: set<Shape>)
    requires few <= many && TransitiveOn(tables, direction, many)
    ensures TransitiveOn(tables, direction, few)
  {
  }

  /** The comparator is transitive on rows of the given shapes exactly when the shapes are
      homogeneous. */
  lemma TransitiveExactlyWhenHomogeneous(tables: Tables, direction: Direction, shapes: set<Shape>)
    ensures TransitiveOn(tables, direction, shapes) <==> Homogeneous(direction, shapes)
  {
    if Homogeneous(direction, shapes) {
      forall field: string, a: Row, b: Row, c: Row |
        && ShapeOf(tables, field, a) in shapes && ShapeOf(tables, field, b) in shapes &&
            ShapeOf(tables, field, c) in shapes
        && OrderOn(tables, field, direction, a, b) != Greater && OrderOn(tables, field, direction, b, c) != Greater
        ensures OrderOn(tables, field, direction, a, c) != Greater
      {
        OrderOnChains(tables, field, direction, shapes, a, b, c);
      }
    } else if TransitiveOn(tables, direction, shapes) {
      if NumText in shapes && TextOnly in shapes {
        FewerShapes(tables, direction, {NumText, TextOnly}, shapes);
        NumbersAndTextCycle(tables, direction);
      } else if NumEmpty in shapes && Empty in shapes {
        FewerShapes(tables, direction, {NumEmpty, Empty}, shapes);
        EmptyTextCycle(tables, direction, Some(""), Some(""));
      } else if NumEmpty in shapes && Absent in shapes {
        FewerShapes(tables, direction, {NumEmpty, Absent}, shapes);
        EmptyTextCycle(tables, direction, Some(""), None);
      } else if NumOnly in shapes && Empty in shapes {
        FewerShapes(tables, direction, {NumOnly, Empty}, shapes);
        EmptyTextCycle(tables, direction, None, Some(""));
      } else {
        FewerShapes(tables, Asc, {NumOnly, NumText, Absent}, shapes);
        AbsentBetweenNumbersCycle(tables);
      }
    }
  }

  /** The two kinds of field a row type has.  An open field's number is read from its own text,
      so no number comes without one; a number the row stores has no text beside it. */
  lemma FieldsOfOneKind(tables: Tables, direction: Direction, shapes: set<Shape>)
    ensures shapes <= {NumText, TextOnly, Empty, Absent} ==>
              (TransitiveOn(tables, direction, shapes) <==> !(NumText in shapes && TextOnly in shapes))
    ensures shapes <= {NumOnly, Absent} ==> TransitiveOn(tables, direction, shapes)
  {
    hide TransitiveOn;
    TransitiveExactlyWhenHomogeneous(tables, direction, shapes);
  }

  // ----- What sorting gets -----

  function Shapes(tables: Tables, field: string, rows: set<Row>): set<Shape>
  {
    set row | row in rows :: ShapeOf(tables, field, row)
  }

  predicate Orderable(tables: Tables, orderBy: Option<OrderBy>, rows: set<Row>)
  {
    orderBy.Some? ==>
      Homogeneous(orderBy.value.direction, Shapes(tables, tables.canonical(orderBy.value.field), rows))
  }

  /** No two different rows share name, line, path and kind. */
  ghost predicate Deduplicated(rows: set<Row>)
  {
    forall a, b :: a in rows && b in rows && TieKey(a) == TieKey(b) ==> a == b
  }

  function Comparator(tables: Tables, orderBy: Option<OrderBy>): (Row, Row) -> Ordering
  {
    (a: Row, b: Row) => OrderCmp(tables, orderBy, a, b)
  }

  /** On homogeneous rows the comparator is a total preorder; on deduplicated ones it tells
      every two rows apart. */
  lemma OrderIsTotal(tables: Tables, orderBy: Option<OrderBy>, rows: set<Row>)
    requires Orderable(tables, orderBy, rows)
    ensures Sorting.TotalOn(Comparator(tables, orderBy), rows)
    ensures Deduplicated(rows) ==> Sorting.TellsApart(Comparator(tables, orderBy), rows)
  {
    var cmp := Comparator(tables, orderBy);
    forall a, b | a in rows && b in rows ensures cmp(b, a) == cmp(a, b).Reverse() {
      OrderFlips(tables, orderBy, a, b);
    }
    forall a, b, c | a in rows && b in rows && c in rows && cmp(a, b) != Greater && cmp(b, c) != Greater
      ensures cmp(a, c) != Greater
    {
      OrderIsTransitive(tables, orderBy, rows, a, b, c);
    }
    if Deduplicated(rows) {
      forall a, b | a in rows && b in rows && cmp(a, b) == Equal ensures a == b {
        EqualRowsShareTieKey(tables, orderBy, a, b);
      }
    }
  }

  lemma OrderIsTransitive(tables: Tables, orderBy: Option<OrderBy>, rows: set<Row>, a: Row, b: Row, c: Row)
    requires Orderable(tables, orderBy, rows) && a in rows && b in rows && c in rows
    requires OrderCmp(tables, orderBy, a, b) != Greater && OrderCmp(tables, orderBy, b, c) != Greater
    ensures OrderCmp(tables, orderBy, a, c) != Greater
  {
    hide TieBreak, Primary, ShapeOf;
    match orderBy
    case None => TieBreakChains(a, b, c);
    case Some(o) =>
      var field := tables.canonical(o.field);
      OrderOnChains(tables, field, o.direction, Shapes(tables, field, rows), a, b, c);
  }
}
