/** The clause pipeline every list query runs through: IN, EXCLUDE, WHERE, GROUP BY, HAVING,
    ORDER BY with its top-K shortcut, OFFSET and LIMIT. */
module Pipeline {
  import opened Wrappers
  import opened Predicates
  import opened RowOrder
  import opened Sorting

  datatype Clauses = Clauses(
    wherePredicates: seq<Predicate>,
    havingPredicates: seq<Predicate>,
    inGlob: Option<string>,
    excludeGlobs: seq<string>,
    orderBy: Option<OrderBy>,
    groupBy: Option<string>,
    limit: Option<nat>,
    offset: Option<nat>)

  const TOPK_THRESHOLD: nat := 1_000

  // ----- GROUP BY -----

  function GroupKey(tables: Tables, field: string, row: Row): string
  {
    Or(ResolvedStr(tables, row, field), "")
  }

  function SetCount(row: Row, n: nat): Row
  {
    if row.counted then row.(nums := row.nums["count" := n]) else row
  }

  function Keys(tables: Tables, field: string, rows: seq<Row>): (keys: seq<string>)
    ensures |keys| == |rows|
  {
    seq(|rows|, i requires 0 <= i < |rows| => GroupKey(tables, field, rows[i]))
  }

  /** The rows GROUP BY keeps from the first `n`: each key's first row, carrying the number
      of rows of the whole list that share its key. */
  function Collapsed(rows: seq<Row>, keys: seq<string>, n: nat): seq<Row>
    requires n <= |rows| == |keys|
  {
    if n == 0 then []
    else
      Collapsed(rows, keys, n - 1)
      + (if keys[n - 1] in keys[..n - 1] then [] else [SetCount(rows[n - 1], multiset(keys)[keys[n - 1]])])
  }

  function Grouped(tables: Tables, groupBy: Option<string>, rows: seq<Row>): seq<Row>
  {
    if groupBy.None? then rows
    else Collapsed(rows, Keys(tables, tables.canonical(groupBy.value), rows), |rows|)
  }

  lemma CountStep(keys: seq<string>, i: nat)
    requires i < |keys|
    ensures multiset(keys[..i + 1]) == multiset(keys[..i]) + multiset{keys[i]}
    ensures forall key :: key in keys[..i + 1] <==> key in keys[..i] || key == keys[i]
  {
    assert keys[..i + 1] == keys[..i] + [keys[i]];
  }

  /** The first pass of `apply_group_by`. */
  method CountKeys(tables: Tables, field: string, rows: seq<Row>) returns (counts: map<string, nat>)
    ensures var keys := Keys(tables, field, rows);
      && (forall key :: key in counts <==> key in keys)
      && (forall key :: key in counts ==> counts[key] == multiset(keys)[key])
  {
    ghost var keys := Keys(tables, field, rows);
    counts := map[];
    for i := 0 to |rows|
      invariant forall key :: key in counts <==> key in keys[..i]
      invariant forall key :: key in counts ==> counts[key] == multiset(keys[..i])[key]
    {
      var key := GroupKey(tables, field, rows[i]);
      CountStep(keys, i);
      assert key !in counts ==> multiset(keys[..i])[key] == 0;
      counts := counts[key := (if key in counts then counts[key] else 0) + 1];
    }
    assert keys[..|rows|] == keys;
  }

  method ApplyGroupBy(tables: Tables, rows: seq<Row>, groupBy: Option<string>) returns (out: seq<Row>)
    ensures out == Grouped(tables, groupBy, rows)
    ensures if groupBy.None? then out == rows
            else exists firsts :: GroupsByValue(tables, tables.canonical(groupBy.value), rows, out, firsts)
  {
    if groupBy.None? {
      return rows;
    }
    out := CollapseGroups(tables, tables.canonical(groupBy.value), rows);
    hide GroupsByValue;
    ghost var firsts := GroupedByValue(tables, rows, groupBy.value);
  }

  /** The two passes of `apply_group_by`. */
  method CollapseGroups(tables: Tables, field: string, rows: seq<Row>) returns (out: seq<Row>)
    ensures out == Collapsed(rows, Keys(tables, field, rows), |rows|)
  {
    hide Keys;
    ghost var keys := Keys(tables, field, rows);
    var counts := CountKeys(tables, field, rows);
    out := [];
    var seen: set<string> := {};
    for i := 0 to |rows|
      invariant forall key :: key in seen <==> key in keys[..i]
      invariant out == Collapsed(rows, keys, i)
    {
      var item := rows[i];
      var key := GroupKey(tables, field, item);
      CountStep(keys, i);
      KeyAt(tables, field, rows, i);
      if key !in seen {
        seen := seen + {key};
        if key in counts {
          item := SetCount(item, counts[key]);
        }
        out := out + [item];
      }
    }
  }

  lemma KeyAt(tables: Tables, field: string, rows: seq<Row>, i: nat)
    requires i < |rows|
    ensures Keys(tables, field, rows)[i] == GroupKey(tables, field, rows[i])
    ensures GroupKey(tables, field, rows[i]) in Keys(tables, field, rows)
  {
  }

  // ----- Groups are values of the field -----

  /** The rows that read the same as `like` for the field, a missing value read as empty. */
  function ReadingLike(tables: Tables, field: string, rows: seq<Row>, like: Row): seq<Row>
  {
    Retain(rows, (row: Row) => Or(ResolvedStr(tables, row, field), "") == Or(ResolvedStr(tables, like, field), ""))
  }

  /** `out` holds one row for each value of the field, at the place the value is first met: that
      first row, with the number of rows that read so if the row keeps a count. */
  ghost predicate GroupsByValue(tables: Tables, field: string, rows: seq<Row>, out: seq<Row>, firsts: seq<nat>)
  {
    && |firsts| == |out|
    && (forall k, m :: 0 <= k < m < |firsts| ==> firsts[k] < firsts[m])
    && (forall k :: 0 <= k < |firsts| ==>
          && firsts[k] < |rows|
          && out[k] == (var row := rows[firsts[k]];
                        if row.counted then row.(nums := row.nums["count" := |ReadingLike(tables, field, rows, row)|])
                        else row))
    && (forall i :: 0 <= i < |rows| ==>
          (i in firsts <==> forall j :: 0 <= j < i ==>
             Or(ResolvedStr(tables, rows[j], field), "") != Or(ResolvedStr(tables, rows[i], field), "")))
  }

  /** Where each key is first met. */
  function FirstPlaces(keys: seq<string>, n: nat): (firsts: seq<nat>)
    requires n <= |keys|
    ensures forall k :: 0 <= k < |firsts| ==> firsts[k] < n
    ensures forall k, m :: 0 <= k < m < |firsts| ==> firsts[k] < firsts[m]
    ensures forall i :: 0 <= i < n ==> (i in firsts <==> keys[i] !in keys[..i])
  {
    if n == 0 then []
    else
      var before := FirstPlaces(keys, n - 1);
      assert forall k :: 0 <= k < |before| ==> before[k] in before;
      if keys[n - 1] in keys[..n - 1] then before else before + [n - 1]
  }

  /** The row kept for the key met at `i`. */
  function KeptAt(rows: seq<Row>, keys: seq<string>, i: nat): Row
    requires i < |rows| == |keys|
  {
    SetCount(rows[i], multiset(keys)[keys[i]])
  }

  lemma CollapsedSnoc(rows: seq<Row>, keys: seq<string>, n: nat)
    requires 0 < n <= |rows| == |keys|
    ensures Collapsed(rows, keys, n)
            == Collapsed(rows, keys, n - 1) + (if keys[n - 1] in keys[..n - 1] then [] else [KeptAt(rows, keys, n - 1)])
  {
  }

  lemma FirstPlacesSnoc(keys: seq<string>, n: nat)
    requires 0 < n <= |keys|
    ensures FirstPlaces(keys, n) == FirstPlaces(keys, n - 1) + (if keys[n - 1] in keys[..n - 1] then [] else [n - 1])
  {
  }

  lemma {:induction false} CollapsedAtFirsts(rows: seq<Row>, keys: seq<string>, n: nat)
    requires n <= |rows| == |keys|
    ensures Aligned(rows, keys, Collapsed(rows, keys, n), FirstPlaces(keys, n))
  {
    if n > 0 {
      hide Collapsed, FirstPlaces, KeptAt, Aligned;
      CollapsedAtFirsts(rows, keys, n - 1);
      CollapsedSnoc(rows, keys, n);
      FirstPlacesSnoc(keys, n);
      AlignedSnoc(rows, keys, Collapsed(rows, keys, n - 1), FirstPlaces(keys, n - 1), n - 1);
      if keys[n - 1] in keys[..n - 1] {
        assert Collapsed(rows, keys, n) == Collapsed(rows, keys, n - 1);
        assert FirstPlaces(keys, n) == FirstPlaces(keys, n - 1);
      }
    }
  }

  /** `kept` holds the rows kept at the given places. */
  predicate Aligned(rows: seq<Row>, keys: seq<string>, kept: seq<Row>, places: seq<nat>)
    requires |rows| == |keys|
  {
    && |kept| == |places|
    && forall k :: 0 <= k < |places| ==> places[k] < |rows| && kept[k] == KeptAt(rows, keys, places[k])
  }

  lemma AlignedSnoc(rows: seq<Row>, keys: seq<string>, kept: seq<Row>, places: seq<nat>, i: nat)
    requires i < |rows| == |keys| && Aligned(rows, keys, kept, places)
    ensures Aligned(rows, keys, kept + [KeptAt(rows, keys, i)], places + [i])
  {
    hide KeptAt;
  }

  lemma KeysSnoc(tables: Tables, field: string, rows: seq<Row>, row: Row)
    ensures Keys(tables, field, rows + [row]) == Keys(tables, field, rows) + [GroupKey(tables, field, row)]
  {
  }

  lemma {:induction false} CountIsReadingLike(tables: Tables, field: string, rows: seq<Row>, like: Row)
    ensures multiset(Keys(tables, field, rows))[GroupKey(tables, field, like)]
            == |ReadingLike(tables, field, rows, like)|
  {
    if rows == [] {
      assert Keys(tables, field, rows) == [];
    } else {
      var init, last := rows[..|rows| - 1], rows[|rows| - 1];
      assert rows == init + [last];
      CountIsReadingLike(tables, field, init, like);
      KeysSnoc(tables, field, init, last);
      RetainSplit(init, [last],
        (row: Row) => Or(ResolvedStr(tables, row, field), "") == Or(ResolvedStr(tables, like, field), ""));
      hide ResolvedStr, Keys;
    }
  }

  lemma KeptIsCounted(tables: Tables, field: string, rows: seq<Row>, i: nat)
    requires i < |rows|
    ensures KeptAt(rows, Keys(tables, field, rows), i) ==
      var row := rows[i];
      if row.counted then row.(nums := row.nums["count" := |ReadingLike(tables, field, rows, row)|]) else row
  {
    CountIsReadingLike(tables, field, rows, rows[i]);
    hide ReadingLike, ResolvedStr;
  }

  lemma NewKeyIsNewValue(tables: Tables, field: string, rows: seq<Row>, i: nat)
    requires i < |rows|
    ensures Keys(tables, field, rows)[i] !in Keys(tables, field, rows)[..i] <==>
      forall j :: 0 <= j < i ==>
        Or(ResolvedStr(tables, rows[j], field), "") != Or(ResolvedStr(tables, rows[i], field), "")
  {
    hide ResolvedStr;
    var keys := Keys(tables, field, rows);
    forall j | 0 <= j < i
      ensures keys[..i][j] == keys[i] <==>
        Or(ResolvedStr(tables, rows[j], field), "") == Or(ResolvedStr(tables, rows[i], field), "")
    {
      assert keys[j] == GroupKey(tables, field, rows[j]) && keys[i] == GroupKey(tables, field, rows[i]);
    }
    hide Keys;
    if forall j :: 0 <= j < i ==>
      Or(ResolvedStr(tables, rows[j], field), "") != Or(ResolvedStr(tables, rows[i], field), "")
    {
      forall j | 0 <= j < i ensures keys[..i][j] != keys[i] {
        assert Or(ResolvedStr(tables, rows[j], field), "") != Or(ResolvedStr(tables, rows[i], field), "");
      }
    }
  }

  lemma GroupedByValue(tables: Tables, rows: seq<Row>, name: string) returns (firsts: seq<nat>)
    ensures GroupsByValue(tables, tables.canonical(name), rows, Grouped(tables, Some(name), rows), firsts)
  {
    var field := tables.canonical(name);
    var keys, out := Keys(tables, field, rows), Grouped(tables, Some(name), rows);
    assert out == Collapsed(rows, keys, |rows|);
    hide ReadingLike, Collapsed, ResolvedStr, Keys, KeptAt, Grouped;
    firsts := FirstPlaces(keys, |rows|);
    CollapsedAtFirsts(rows, keys, |rows|);
    forall i | 0 <= i < |rows|
      ensures KeptAt(rows, keys, i) == (var row := rows[i];
        if row.counted then row.(nums := row.nums["count" := |ReadingLike(tables, field, rows, row)|]) else row)
    {
      KeptIsCounted(tables, field, rows, i);
    }
    forall i | 0 <= i < |rows|
      ensures i in firsts <==> forall j :: 0 <= j < i ==>
        Or(ResolvedStr(tables, rows[j], field), "") != Or(ResolvedStr(tables, rows[i], field), "")
    {
      NewKeyIsNewValue(tables, field, rows, i);
    }
  }

  // ----- What grouping keeps -----

  /** Distinct keys in order of first appearance. */
  function FirstSeen(keys: seq<string>): seq<string>
  {
    if keys == [] then []
    else
      var init, last := keys[..|keys| - 1], keys[|keys| - 1];
      FirstSeen(init) + (if last in init then [] else [last])
  }

  function FirstIndex(keys: seq<string>, key: string): (i: nat)
    requires key in keys
    ensures i < |keys| && keys[i] == key && key !in keys[..i]
  {
    if keys[0] == key then 0
    else
      assert keys == [keys[0]] + keys[1..];
      var i := FirstIndex(keys[1..], key);
      assert keys[..i + 1] == [keys[0]] + keys[1..][..i];
      i + 1
  }

  lemma FirstIndexIs(keys: seq<string>, i: nat)
    requires i < |keys| && keys[i] !in keys[..i]
    ensures FirstIndex(keys, keys[i]) == i
  {
    var j := FirstIndex(keys, keys[i]);
    forall k | 0 <= k < j ensures keys[k] != keys[i] {
      assert keys[..j][k] == keys[k];
    }
    forall k | 0 <= k < i ensures keys[k] != keys[i] {
      assert keys[..i][k] == keys[k];
    }
  }

  lemma {:induction false} FirstSeenMembers(keys: seq<string>)
    ensures forall key :: key in FirstSeen(keys) <==> key in keys
    ensures forall i, j :: 0 <= i < j < |FirstSeen(keys)| ==> FirstSeen(keys)[i] != FirstSeen(keys)[j]
  {
    if keys != [] {
      FirstSeenMembers(keys[..|keys| - 1]);
      assert keys == keys[..|keys| - 1] + [keys[|keys| - 1]];
    }
  }

  /** One row per key, in order of first appearance: the first row with that key, carrying the
      number of rows that had it. */
  lemma {:induction false} GroupsAreFirstRows(rows: seq<Row>, keys: seq<string>, n: nat)
    requires n <= |rows| == |keys|
    ensures var firsts := FirstSeen(keys[..n]);
      && |Collapsed(rows, keys, n)| == |firsts|
      && forall i :: 0 <= i < |firsts| ==>
           && firsts[i] in keys
           && Collapsed(rows, keys, n)[i] == SetCount(rows[FirstIndex(keys, firsts[i])], multiset(keys)[firsts[i]])
  {
    if n > 0 {
      GroupsAreFirstRows(rows, keys, n - 1);
      assert keys[..n][..n - 1] == keys[..n - 1];
      var last := keys[n - 1];
      if last !in keys[..n - 1] {
        FirstIndexIs(keys, n - 1);
      }
    }
  }

  function CountTotal(all: multiset<string>, firsts: seq<string>): nat
  {
    if firsts == [] then 0 else CountTotal(all, firsts[..|firsts| - 1]) + all[firsts[|firsts| - 1]]
  }

  lemma {:induction false} CountTotalSplits(a: multiset<string>, b: multiset<string>, firsts: seq<string>)
    ensures CountTotal(a + b, firsts) == CountTotal(a, firsts) + CountTotal(b, firsts)
  {
    if firsts != [] {
      CountTotalSplits(a, b, firsts[..|firsts| - 1]);
    }
  }

  lemma {:induction false} CountTotalOfOne(key: string, firsts: seq<string>)
    requires forall i, j :: 0 <= i < j < |firsts| ==> firsts[i] != firsts[j]
    ensures CountTotal(multiset{key}, firsts) == if key in firsts then 1 else 0
  {
    if firsts != [] {
      var init := firsts[..|firsts| - 1];
      CountTotalOfOne(key, init);
      assert firsts == init + [firsts[|firsts| - 1]];
    }
  }

  lemma {:induction false} CountTotalOfPrefix(keys: seq<string>, firsts: seq<string>, n: nat)
    requires n <= |keys|
    requires forall i, j :: 0 <= i < j < |firsts| ==> firsts[i] != firsts[j]
    requires forall key :: key in keys ==> key in firsts
    ensures CountTotal(multiset(keys[..n]), firsts) == n
  {
    if n == 0 {
      NoCounts(firsts);
    } else {
      CountTotalOfPrefix(keys, firsts, n - 1);
      assert keys[..n] == keys[..n - 1] + [keys[n - 1]];
      CountTotalSplits(multiset(keys[..n - 1]), multiset{keys[n - 1]}, firsts);
      CountTotalOfOne(keys[n - 1], firsts);
      assert multiset(keys[..n]) == multiset(keys[..n - 1]) + multiset{keys[n - 1]};
    }
  }

  lemma {:induction false} NoCounts(firsts: seq<string>)
    ensures CountTotal(multiset([]), firsts) == 0
  {
    if firsts != [] {
      NoCounts(firsts[..|firsts| - 1]);
    }
  }

  /** The counts GROUP BY writes add up to the rows that went in. */
  lemma CountsAddUp(keys: seq<string>)
    ensures CountTotal(multiset(keys), FirstSeen(keys)) == |keys|
  {
    FirstSeenMembers(keys);
    CountTotalOfPrefix(keys, FirstSeen(keys), |keys|);
    assert keys[..|keys|] == keys;
  }

  /** The `count` fields of some rows, added up. */
  function CountFields(rows: seq<Row>): int
  {
    if rows == [] then 0
    else CountFields(rows[..|rows| - 1]) + Or(FieldNum(rows[|rows| - 1], "count"), 0)
  }

  lemma CountFieldsSnoc(rows: seq<Row>, row: Row)
    ensures CountFields(rows + [row]) == CountFields(rows) + Or(FieldNum(row, "count"), 0)
  {
    assert (rows + [row])[..|rows|] == rows;
  }

  lemma CountTotalSnoc(all: multiset<string>, firsts: seq<string>, key: string)
    ensures CountTotal(all, firsts + [key]) == CountTotal(all, firsts) + all[key]
  {
    assert (firsts + [key])[..|firsts|] == firsts;
  }

  lemma FirstSeenSnoc(keys: seq<string>, key: string)
    ensures FirstSeen(keys + [key]) == if key in keys then FirstSeen(keys) else FirstSeen(keys) + [key]
  {
    assert (keys + [key])[..|keys|] == keys;
  }

  lemma CollapsedStep(rows: seq<Row>, keys: seq<string>, n: nat)
    requires 0 < n <= |rows| == |keys| && rows[n - 1].counted
    ensures CountFields(Collapsed(rows, keys, n))
            == CountFields(Collapsed(rows, keys, n - 1))
               + (if keys[n - 1] in keys[..n - 1] then 0 else multiset(keys)[keys[n - 1]])
  {
    var init := Collapsed(rows, keys, n - 1);
    if keys[n - 1] in keys[..n - 1] {
      assert init + [] == init;
    } else {
      CountFieldsSnoc(init, SetCount(rows[n - 1], multiset(keys)[keys[n - 1]]));
    }
  }

  lemma FirstSeenCounts(keys: seq<string>, n: nat)
    requires 0 < n <= |keys|
    ensures CountTotal(multiset(keys), FirstSeen(keys[..n]))
            == CountTotal(multiset(keys), FirstSeen(keys[..n - 1]))
               + (if keys[n - 1] in keys[..n - 1] then 0 else multiset(keys)[keys[n - 1]])
  {
    var before, key := keys[..n - 1], keys[n - 1];
    assert keys[..n] == before + [key];
    FirstSeenSnoc(before, key);
    CountTotalSnoc(multiset(keys), FirstSeen(before), key);
  }

  lemma {:induction false} CollapsedCounts(rows: seq<Row>, keys: seq<string>, n: nat)
    requires n <= |rows| == |keys| && forall row :: row in rows ==> row.counted
    ensures CountFields(Collapsed(rows, keys, n)) == CountTotal(multiset(keys), FirstSeen(keys[..n]))
  {
    if n > 0 {
      hide CountFields, CountTotal, FirstSeen, Collapsed;
      assert rows[n - 1] in rows;
      CollapsedCounts(rows, keys, n - 1);
      CollapsedStep(rows, keys, n);
      FirstSeenCounts(keys, n);
    }
  }

  /** On rows that store counts, the `count` fields after GROUP BY add up to the rows that went
      in. */
  lemma GroupCountsAddUp(tables: Tables, rows: seq<Row>, field: string)
    requires forall row :: row in rows ==> row.counted
    ensures CountFields(Grouped(tables, Some(field), rows)) == |rows|
  {
    var keys := Keys(tables, tables.canonical(field), rows);
    CollapsedCounts(rows, keys, |rows|);
    CountsAddUp(keys);
    assert keys[..|keys|] == keys;
  }

  // ----- ORDER BY, OFFSET, LIMIT -----

  function RowSet(rows: seq<Row>): set<Row>
  {
    set row | row in rows
  }

  /** The whole answer, in the order pages are cut from. */
  function Ordered(tables: Tables, rows: seq<Row>, orderBy: Option<OrderBy>, defaultSort: bool): seq<Row>
  {
    if defaultSort || orderBy.Some? then SortBy(Comparator(tables, orderBy), rows) else rows
  }

  function Page(rows: seq<Row>, offset: nat, limit: Option<nat>): seq<Row>
  {
    var rest := rows[Min(offset, |rows|)..];
    if limit.Some? then rest[..Min(limit.value, |rest|)] else rest
  }

  function PageLength(total: nat, offset: nat, limit: Option<nat>): nat
  {
    var rest := if offset < total then total - offset else 0;
    if limit.Some? then Min(limit.value, rest) else rest
  }

  /** Every row of the page may stand before every later one. */
  predicate AnswerInOrder(tables: Tables, orderBy: Option<OrderBy>, page: seq<Row>)
  {
    forall i, j :: 0 <= i < j < |page| ==> InPlace(tables, orderBy, page[i], page[j])
  }

  lemma SortedIsInOrder(tables: Tables, orderBy: Option<OrderBy>, rows: seq<Row>)
    requires Sorted(Comparator(tables, orderBy), rows)
    ensures AnswerInOrder(tables, orderBy, rows)
  {
    hide InPlace, Sorted;
    forall i, j | 0 <= i < j < |rows| ensures InPlace(tables, orderBy, rows[i], rows[j]) {
      SortedPairs(Comparator(tables, orderBy), rows, i, j);
      OrderMeans(tables, orderBy, rows[i], rows[j]);
    }
  }

  lemma PageIsInOrder(tables: Tables, orderBy: Option<OrderBy>, rows: seq<Row>, offset: nat, limit: Option<nat>)
    requires AnswerInOrder(tables, orderBy, rows)
    ensures AnswerInOrder(tables, orderBy, Page(rows, offset, limit))
  {
    hide InPlace;
    var skip, page := Min(offset, |rows|), Page(rows, offset, limit);
    assert forall i :: 0 <= i < |page| ==> page[i] == rows[skip + i];
  }

  /** Whether the answer is cut by selection instead of by sorting. */
  predicate WantsTopK(clauses: Clauses)
  {
    && clauses.orderBy.Some? && clauses.groupBy.None? && Or(clauses.offset, 0) == 0
    && clauses.limit.Some? && clauses.limit.value <= TOPK_THRESHOLD
  }

  /** The page is the head of some sorted arrangement of the rows. */
  ghost predicate HeadsSorted(cmp: (Row, Row) -> Ordering, page: seq<Row>, rows: seq<Row>)
  {
    exists rest :: multiset(page + rest) == multiset(rows) && Sorted(cmp, page + rest)
  }

  lemma DeduplicatedTellsApart(tables: Tables, orderBy: Option<OrderBy>, rows: set<Row>)
    requires Deduplicated(rows)
    ensures TellsApart(Comparator(tables, orderBy), rows)
  {
    forall a, b | a in rows && b in rows && Comparator(tables, orderBy)(a, b) == Equal ensures a == b {
      EqualRowsShareTieKey(tables, orderBy, a, b);
    }
  }

  /** `apply_ordering`, wherever the comparator is total on the rows at hand.  The sorting path
      cuts its page from the sorted rows; the top-K path returns the head of a sorted
      arrangement, and the very same page once no two rows share the tie-break key. */
  method ApplyOrdering(tables: Tables, rows: seq<Row>, clauses: Clauses, defaultSort: bool)
    returns (page: seq<Row>, matched: nat)
    requires TotalOn(Comparator(tables, clauses.orderBy), RowSet(rows))
    ensures matched == |rows|
    ensures |page| == PageLength(|rows|, Or(clauses.offset, 0), clauses.limit)
    ensures defaultSort || clauses.orderBy.Some? ==> AnswerInOrder(tables, clauses.orderBy, page)
    ensures !defaultSort && clauses.orderBy.None? ==> page == Page(rows, Or(clauses.offset, 0), clauses.limit)
    ensures WantsTopK(clauses) ==> HeadsSorted(Comparator(tables, clauses.orderBy), page, rows)
    ensures !WantsTopK(clauses) || Deduplicated(RowSet(rows)) ==>
              page == Page(Ordered(tables, rows, clauses.orderBy, defaultSort), Or(clauses.offset, 0), clauses.limit)
  {
    matched := |rows|;
    hide SortBy, TotalOn, TellsApart, Sorted, Deduplicated, AnswerInOrder;
    var cmp := Comparator(tables, clauses.orderBy);
    if WantsTopK(clauses) {
      if Deduplicated(RowSet(rows)) {
        DeduplicatedTellsApart(tables, clauses.orderBy, RowSet(rows));
      }
      assert (set row | row in rows) == RowSet(rows);
      page := CollectTopK(rows, clauses.limit.value, cmp);
      SortedIsInOrder(tables, clauses.orderBy, page);
      ghost var sorted := SortBy(cmp, rows);
      assert sorted[0..] == sorted;
      return;
    }
    page := rows;
    if defaultSort || clauses.orderBy.Some? {
      page := SortBy(cmp, rows);
      SortBySorts(cmp, rows, RowSet(rows));
      SortedIsInOrder(tables, clauses.orderBy, page);
      PageIsInOrder(tables, clauses.orderBy, page, Or(clauses.offset, 0), clauses.limit);
    }
    var skip := Or(clauses.offset, 0);
    if skip > 0 {
      page := page[Min(skip, |page|)..];
    }
    if clauses.limit.Some? {
      page := page[..Min(clauses.limit.value, |page|)];
    }
  }

  /** Pages 0 … n-1 of the given size, one after another. */
  function Pages(rows: seq<Row>, size: nat, n: nat): seq<Row>
  {
    if n == 0 then [] else Pages(rows, size, n - 1) + Page(rows, (n - 1) * size, Some(size))
  }

  lemma {:induction false} PagesArePrefix(rows: seq<Row>, size: nat, n: nat)
    ensures Pages(rows, size, n) == rows[..Min(n * size, |rows|)]
  {
    if n > 0 {
      PagesArePrefix(rows, size, n - 1);
      var at := (n - 1) * size;
      assert n * size == at + size;
      PageExtends(rows, at, size);
    }
  }

  lemma PageExtends(rows: seq<Row>, at: nat, size: nat)
    ensures rows[..Min(at, |rows|)] + Page(rows, at, Some(size)) == rows[..Min(at + size, |rows|)]
  {
  }

  /** Reading page after page, from OFFSET 0 on, gives the unpaged answer: nothing is lost
      between two pages and nothing comes twice. */
  lemma PagesConcatenateToAnswer(tables: Tables, rows: seq<Row>, orderBy: Option<OrderBy>, defaultSort: bool,
      size: nat, n: nat)
    requires |rows| <= n * size
    ensures Pages(Ordered(tables, rows, orderBy, defaultSort), size, n) == Ordered(tables, rows, orderBy, defaultSort)
    ensures multiset(Pages(Ordered(tables, rows, orderBy, defaultSort), size, n)) == multiset(rows)
  {
    var all := Ordered(tables, rows, orderBy, defaultSort);
    PagesArePrefix(all, size, n);
    assert all[..|all|] == all;
  }

  // ----- The whole pipeline -----

  predicate InGlob(tables: Tables, glob: Option<string>, row: Row)
  {
    glob.None? || (row.path.Some? && tables.globMatches(row.path.value, glob.value))
  }

  predicate NotExcluded(tables: Tables, globs: seq<string>, row: Row)
  {
    row.path.None? || forall glob :: glob in globs ==> !tables.globMatches(row.path.value, glob)
  }

  /** The rows before GROUP BY. */
  function Selected(tables: Tables, rows: seq<Row>, clauses: Clauses): seq<Row>
  {
    Retain(rows, row =>
      && InGlob(tables, clauses.inGlob, row)
      && NotExcluded(tables, clauses.excludeGlobs, row)
      && BatchKeepsAll(tables, clauses.wherePredicates, row))
  }

  /** The rows the answer is cut from. */
  function Surviving(tables: Tables, rows: seq<Row>, clauses: Clauses): seq<Row>
  {
    Retain(Grouped(tables, clauses.groupBy, Selected(tables, rows, clauses)),
           row => PassesAll(tables, clauses.havingPredicates, row))
  }

  method ApplyGlobs(tables: Tables, rows: seq<Row>, clauses: Clauses) returns (out: seq<Row>)
    ensures out == Retain(rows, row => InGlob(tables, clauses.inGlob, row) &&
        NotExcluded(tables, clauses.excludeGlobs, row))
    ensures forall row :: row in out <==>
      && row in rows
      && (clauses.inGlob.Some? ==> row.path.Some? && tables.globMatches(row.path.value, clauses.inGlob.value))
      && (row.path.Some? ==> forall glob :: glob in clauses.excludeGlobs ==> !tables.globMatches(row.path.value, glob))
  {
    out := rows;
    RetainAll(rows, row => true);
    if clauses.inGlob.Some? {
      out := Retain(out, row => InGlob(tables, clauses.inGlob, row));
    } else {
      RetainAll(rows, row => InGlob(tables, clauses.inGlob, row));
    }
    ghost var inGlob := (row: Row) => InGlob(tables, clauses.inGlob, row);
    ghost var kept := (n: nat) requires n <= |clauses.excludeGlobs| =>
      (row: Row) => InGlob(tables, clauses.inGlob, row) && NotExcluded(tables, clauses.excludeGlobs[..n], row);
    RetainSame(rows, inGlob, kept(0));
    for i := 0 to |clauses.excludeGlobs|
      invariant out == Retain(rows, kept(i))
    {
      var glob := clauses.excludeGlobs[i];
      var keep := (row: Row) => row.path.None? || !tables.globMatches(row.path.value, glob);
      out := Retain(out, keep);
      assert clauses.excludeGlobs[..i + 1] == clauses.excludeGlobs[..i] + [glob];
      RetainTwice(rows, kept(i), keep, kept(i + 1));
    }
    assert clauses.excludeGlobs[..|clauses.excludeGlobs|] == clauses.excludeGlobs;
    RetainSame(rows, kept(|clauses.excludeGlobs|),
      row => InGlob(tables, clauses.inGlob, row) && NotExcluded(tables, clauses.excludeGlobs, row));
    forall row ensures row in out <==>
      row in rows && InGlob(tables, clauses.inGlob, row) && NotExcluded(tables, clauses.excludeGlobs, row)
    {
      RetainKeepsMembers(rows,
        r => InGlob(tables, clauses.inGlob, r) && NotExcluded(tables, clauses.excludeGlobs, r), row);
    }
  }

  lemma PassesAllMeans(tables: Tables, ps: seq<Predicate>, row: Row)
    ensures PassesAll(tables, ps, row) <==> forall p :: p in ps ==> Satisfies(tables, row, p)
  {
    hide Eval, Satisfies;
    forall p | p in ps ensures Eval(tables, row, p) <==> Satisfies(tables, row, p) {
      EvalMeans(tables, row, p);
    }
  }

  method ApplyHaving(tables: Tables, rows: seq<Row>, ps: seq<Predicate>) returns (out: seq<Row>)
    ensures out == Retain(rows, row => PassesAll(tables, ps, row))
    ensures forall row :: row in out <==> row in rows && forall p :: p in ps ==> Satisfies(tables, row, p)
  {
    hide Eval, Satisfies;
    out := rows;
    RetainAll(rows, row => PassesAll(tables, [], row));
    for i := 0 to |ps|
      invariant out == Retain(rows, row => PassesAll(tables, ps[..i], row))
    {
      out := RetainPassing(tables, out, ps[i]);
      assert ps[..i + 1] == ps[..i] + [ps[i]];
      RetainTwice(rows, row => PassesAll(tables, ps[..i], row), row => Eval(tables, row, ps[i]),
                  row => PassesAll(tables, ps[..i + 1], row));
    }
    assert ps[..|ps|] == ps;
    forall row ensures row in out <==> row in rows && forall p :: p in ps ==> Satisfies(tables, row, p) {
      RetainKeepsMembers(rows, row => PassesAll(tables, ps, row), row);
      PassesAllMeans(tables, ps, row);
    }
  }

  /** A row of the list query is about: inside the glob, under no excluded one, and passing every
      WHERE predicate. */
  ghost predicate Asked(tables: Tables, clauses: Clauses, row: Row)
  {
    && (clauses.inGlob.Some? ==> row.path.Some? && tables.globMatches(row.path.value, clauses.inGlob.value))
    && (row.path.Some? ==> forall glob :: glob in clauses.excludeGlobs ==> !tables.globMatches(row.path.value, glob))
    && (forall p :: p in clauses.wherePredicates ==> Selects(tables, p, row))
  }

  ghost predicate Had(tables: Tables, clauses: Clauses, row: Row)
  {
    forall p :: p in clauses.havingPredicates ==> Satisfies(tables, row, p)
  }

  lemma SelectedMeans(tables: Tables, rows: seq<Row>, clauses: Clauses, row: Row)
    ensures row in Selected(tables, rows, clauses) <==> row in rows && Asked(tables, clauses, row)
  {
    hide BatchKeeps, Selects;
    RetainKeepsMembers(rows, r =>
      && InGlob(tables, clauses.inGlob, r)
      && NotExcluded(tables, clauses.excludeGlobs, r)
      && BatchKeepsAll(tables, clauses.wherePredicates, r), row);
    BatchMeansAll(tables, clauses.wherePredicates, row);
  }

  /** The rows an answer is cut from, stage by stage: WHERE and the globs look at the rows as
      they come, GROUP BY counts what those keep, and HAVING looks at the groups and their
      counts. */
  lemma SurvivingMeans(tables: Tables, rows: seq<Row>, clauses: Clauses)
    ensures var selected, answer := Selected(tables, rows, clauses), Surviving(tables, rows, clauses);
      && (forall row :: row in selected <==> row in rows && Asked(tables, clauses, row))
      && (clauses.groupBy.None? ==> forall row :: row in answer <==> row in selected && Had(tables, clauses, row))
      && (clauses.groupBy.Some? ==> exists groups, firsts ::
            && GroupsByValue(tables, tables.canonical(clauses.groupBy.value), selected, groups, firsts)
            && forall row :: row in answer <==> row in groups && Had(tables, clauses, row))
  {
    var selected := Selected(tables, rows, clauses);
    var groups := Grouped(tables, clauses.groupBy, selected);
    forall row ensures row in selected <==> row in rows && Asked(tables, clauses, row) {
      SelectedMeans(tables, rows, clauses, row);
    }
    forall row ensures row in Surviving(tables, rows, clauses) <==> row in groups && Had(tables, clauses, row) {
      RetainKeepsMembers(groups, r => PassesAll(tables, clauses.havingPredicates, r), row);
      PassesAllMeans(tables, clauses.havingPredicates, row);
    }
    hide GroupsByValue, Asked, Had, Selected, Surviving;
    if clauses.groupBy.Some? {
      var firsts := GroupedByValue(tables, selected, clauses.groupBy.value);
    }
  }

  /** `apply_clauses_inner`.  `total` is the size of the answer, whatever page is cut. */
  method ApplyClauses(tables: Tables, rows: seq<Row>, clauses: Clauses, defaultSort: bool)
    returns (page: seq<Row>, total: nat)
    requires TotalOn(Comparator(tables, clauses.orderBy), RowSet(Surviving(tables, rows, clauses)))
    ensures total == |Surviving(tables, rows, clauses)|
    ensures |page| == PageLength(total, Or(clauses.offset, 0), clauses.limit)
    ensures defaultSort || clauses.orderBy.Some? ==> AnswerInOrder(tables, clauses.orderBy, page)
    ensures WantsTopK(clauses) ==>
              HeadsSorted(Comparator(tables, clauses.orderBy), page, Surviving(tables, rows, clauses))
    ensures var answer := Surviving(tables, rows, clauses);
      !WantsTopK(clauses) || Deduplicated(RowSet(answer)) ==>
        page == Page(Ordered(tables, answer, clauses.orderBy, defaultSort), Or(clauses.offset, 0), clauses.limit)
  {
    var results := ApplyGlobs(tables, rows, clauses);
    results := ApplyWherePredicates(tables, results, clauses.wherePredicates);
    RetainTwice(rows, row => InGlob(tables, clauses.inGlob, row) && NotExcluded(tables, clauses.excludeGlobs, row),
                row => BatchKeepsAll(tables, clauses.wherePredicates, row),
                row => InGlob(tables, clauses.inGlob, row) && NotExcluded(tables, clauses.excludeGlobs, row)
                       && BatchKeepsAll(tables, clauses.wherePredicates, row));
    results := ApplyGroupBy(tables, results, clauses.groupBy);
    results := ApplyHaving(tables, results, clauses.havingPredicates);
    page, total := ApplyOrdering(tables, results, clauses, defaultSort);
  }

  /** The clauses of page `k`. */
  function AtPage(clauses: Clauses, size: nat, k: nat): Clauses
  {
    clauses.(limit := Some(size), offset := Some(k * size))
  }

  /** The surviving rows depend on nothing that only chooses a page. */
  lemma SurvivingIgnoresPaging(tables: Tables, rows: seq<Row>, clauses: Clauses, size: nat, k: nat)
    ensures Surviving(tables, rows, AtPage(clauses, size, k)) == Surviving(tables, rows, clauses)
  {
    var other := AtPage(clauses, size, k);
    RetainSame(rows,
      row => InGlob(tables, clauses.inGlob, row) && NotExcluded(tables, clauses.excludeGlobs, row)
             && BatchKeepsAll(tables, clauses.wherePredicates, row),
      row => InGlob(tables, other.inGlob, row) && NotExcluded(tables, other.excludeGlobs, row)
             && BatchKeepsAll(tables, other.wherePredicates, row));
  }

  /** Asking for page after page, each through the whole pipeline, gives the unpaged answer,
      and every page reports its size. */
  method ReadPages(tables: Tables, rows: seq<Row>, clauses: Clauses, defaultSort: bool, size: nat, n: nat)
    returns (all: seq<Row>)
    requires TotalOn(Comparator(tables, clauses.orderBy), RowSet(Surviving(tables, rows, clauses)))
    requires Deduplicated(RowSet(Surviving(tables, rows, clauses)))
    requires |Surviving(tables, rows, clauses)| <= n * size
    ensures all == Ordered(tables, Surviving(tables, rows, clauses), clauses.orderBy, defaultSort)
    ensures multiset(all) == multiset(Surviving(tables, rows, clauses))
  {
    hide TotalOn, Deduplicated, Surviving, SortBy, Page, HeadsSorted, Sorted;
    ghost var answer := Surviving(tables, rows, clauses);
    ghost var whole := Ordered(tables, answer, clauses.orderBy, defaultSort);
    all := [];
    for k := 0 to n
      invariant all == Pages(whole, size, k)
    {
      SurvivingIgnoresPaging(tables, rows, clauses, size, k);
      var page, total := ApplyClauses(tables, rows, AtPage(clauses, size, k), defaultSort);
      assert total == |answer|;
      assert page == Page(whole, k * size, Some(size));
      all := all + page;
    }
    PagesConcatenateToAnswer(tables, answer, clauses.orderBy, defaultSort, size, n);
  }
}
