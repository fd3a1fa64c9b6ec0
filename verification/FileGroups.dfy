/** Limiting a list of occurrence rows by whole files instead of by rows. */
module FileGroups {
  import opened Wrappers
  import opened Predicates

  datatype Withheld = Limit | Ceiling

  // ----- Grouping -----

  /** The files of the rows, in order of first appearance.  Rows without a path form one
      group of their own. */
  function Files(rows: seq<Row>): seq<Option<string>>
  {
    if rows == [] then []
    else
      var init, last := rows[..|rows| - 1], rows[|rows| - 1];
      Files(init) + (if last.path in Files(init) then [] else [last.path])
  }

  function RowsOf(rows: seq<Row>, file: Option<string>): seq<Row>
  {
    Retain(rows, (row: Row) => row.path == file)
  }

  /** Every file with all its rows. */
  function Groups(rows: seq<Row>): (groups: seq<seq<Row>>)
    ensures |groups| == |Files(rows)|
  {
    var files := Files(rows);
    seq(|files|, i requires 0 <= i < |files| => RowsOf(rows, files[i]))
  }

  function Flatten(groups: seq<seq<Row>>): seq<Row>
  {
    if groups == [] then [] else Flatten(groups[..|groups| - 1]) + groups[|groups| - 1]
  }

  lemma {:induction false} FilesAreDistinct(rows: seq<Row>)
    ensures forall i, j :: 0 <= i < j < |Files(rows)| ==> Files(rows)[i] != Files(rows)[j]
    ensures forall row :: row in rows ==> row.path in Files(rows)
    ensures forall file :: file in Files(rows) ==> RowsOf(rows, file) != []
  {
    if rows != [] {
      var init, last := rows[..|rows| - 1], rows[|rows| - 1];
      FilesAreDistinct(init);
      assert rows == init + [last];
      forall file | file in Files(rows) ensures RowsOf(rows, file) != [] {
        RetainSplit(init, [last], (row: Row) => row.path == file);
      }
    }
  }

  lemma RowsOfStep(rows: seq<Row>, row: Row, file: Option<string>)
    ensures RowsOf(rows + [row], file) == RowsOf(rows, file) + (if row.path == file then [row] else [])
  {
    RetainSplit(rows, [row], (r: Row) => r.path == file);
  }

  lemma FilesStep(rows: seq<Row>, row: Row)
    ensures Files(rows + [row]) == Files(rows) + (if row.path in Files(rows) then [] else [row.path])
  {
    assert (rows + [row])[..|rows|] == rows;
  }

  lemma GroupAt(rows: seq<Row>, i: nat)
    requires i < |Groups(rows)|
    ensures Groups(rows)[i] == RowsOf(rows, Files(rows)[i])
  {
  }

  /** Grouping one more row of a file already seen. */
  lemma GroupsGrow(rows: seq<Row>, row: Row, slot: nat)
    requires slot < |Files(rows)| && Files(rows)[slot] == row.path
    ensures Files(rows + [row]) == Files(rows)
    ensures Groups(rows + [row]) == Groups(rows)[slot := Groups(rows)[slot] + [row]]
  {
    FilesStep(rows, row);
    FilesAreDistinct(rows);
    var files, after := Files(rows), Groups(rows)[slot := Groups(rows)[slot] + [row]];
    assert files + [] == files;
    hide Groups, Files, RowsOf;
    forall i | 0 <= i < |files| ensures Groups(rows + [row])[i] == after[i] {
      GroupAt(rows, i);
      GroupAt(rows + [row], i);
      RowsOfStep(rows, row, files[i]);
      assert i != slot ==> files[i] != row.path;
    }
  }

  /** Grouping the first row of a file. */
  lemma GroupsStart(rows: seq<Row>, row: Row)
    requires row.path !in Files(rows)
    ensures Files(rows + [row]) == Files(rows) + [row.path]
    ensures Groups(rows + [row]) == Groups(rows) + [[row]]
  {
    FilesStep(rows, row);
    NoRowsElsewhere(rows, row.path);
    var files, after := Files(rows), Groups(rows) + [[row]];
    hide Groups, Files, RowsOf;
    forall i | 0 <= i <= |files| ensures Groups(rows + [row])[i] == after[i] {
      GroupAt(rows + [row], i);
      if i < |files| { GroupAt(rows, i); }
      RowsOfStep(rows, row, (files + [row.path])[i]);
      assert i < |files| ==> files[i] in files;
    }
  }

  lemma NoRowsElsewhere(rows: seq<Row>, file: Option<string>)
    requires file !in Files(rows)
    ensures RowsOf(rows, file) == []
  {
    FilesAreDistinct(rows);
    RetainNothing(rows, (row: Row) => row.path == file);
  }

  // ----- Selecting -----

  /** How many of the candidate files are rendered: the first always, then as long as the
      next one fits under the ceiling. */
  function Taken(candidates: seq<seq<Row>>, ceiling: nat, taken: nat, rendered: nat): (n: nat)
    requires taken <= |candidates|
    ensures taken <= n <= |candidates|
    decreases |candidates| - taken
  {
    if taken == |candidates| then taken
    else if taken > 0 && rendered + |candidates[taken]| > ceiling then taken
    else Taken(candidates, ceiling, taken + 1, rendered + |candidates[taken]|)
  }

  function Candidates(rows: seq<Row>, offset: nat, limit: nat): seq<seq<Row>>
  {
    var rest := Groups(rows)[Min(offset, |Groups(rows)|)..];
    rest[..Min(limit, |rest|)]
  }

  function Answer(rows: seq<Row>, offset: nat, limit: nat, ceiling: nat): (seq<Row>, Option<Withheld>)
  {
    var candidates := Candidates(rows, offset, limit);
    var taken := Taken(candidates, ceiling, 0, 0);
    (Flatten(candidates[..taken]),
     if taken < |candidates| then Some(Ceiling)
     else if |Groups(rows)| > offset + |candidates| then Some(Limit) else None)
  }

  /** The first loop of `take_file_groups`. */
  method GroupByFile(rows: seq<Row>) returns (groups: seq<seq<Row>>)
    ensures groups == Groups(rows)
  {
    var slotOf: map<Option<string>, nat> := map[];
    groups := [];
    for i := 0 to |rows|
      invariant groups == Groups(rows[..i])
      invariant forall file :: file in slotOf <==> file in Files(rows[..i])
      invariant forall file :: file in slotOf ==> slotOf[file] < |groups| && Files(rows[..i])[slotOf[file]] == file
    {
      var item := rows[i];
      assert rows[..i + 1] == rows[..i] + [item];
      if item.path !in slotOf {
        GroupsStart(rows[..i], item);
        assert [] + [item] == [item];
        assert (groups + [[]])[|groups| := [item]] == groups + [[item]];
        slotOf := slotOf[item.path := |groups|];
        groups := groups + [[]];
      } else {
        GroupsGrow(rows[..i], item, slotOf[item.path]);
      }
      var slot := slotOf[item.path];
      groups := groups[slot := groups[slot] + [item]];
    }
    assert rows[..|rows|] == rows;
  }

  method TakeFileGroups(rows: seq<Row>, offset: nat, limit: nat, ceiling: nat)
    returns (out: seq<Row>, withheld: Option<Withheld>)
    ensures (out, withheld) == Answer(rows, offset, limit, ceiling)
  {
    hide Groups;
    var groups := GroupByFile(rows);
    var matched := |groups|;
    var candidates := groups[Min(offset, |groups|)..];
    candidates := candidates[..Min(limit, |candidates|)];
    assert candidates == Candidates(rows, offset, limit);
    var overLimit := (if matched > offset then matched - offset else 0) > |candidates|;
    hide Candidates;
    out := [];
    for taken := 0 to |candidates|
      invariant out == Flatten(candidates[..taken])
      invariant Taken(candidates, ceiling, taken, |out|) == Taken(candidates, ceiling, 0, 0)
    {
      var group := candidates[taken];
      if taken > 0 && |out| + |group| > ceiling {
        return out, Some(Ceiling);
      }
      assert candidates[..taken + 1][..taken] == candidates[..taken];
      out := out + group;
    }
    assert candidates[..|candidates|] == candidates;
    withheld := if overLimit then Some(Limit) else None;
  }

  // ----- What a response shows -----

  /** The number of files a response renders. */
  function Shown(rows: seq<Row>, offset: nat, limit: nat, ceiling: nat): nat
  {
    Taken(Candidates(rows, offset, limit), ceiling, 0, 0)
  }

  lemma {:induction false} TakenIsGreedy(candidates: seq<seq<Row>>, ceiling: nat, taken: nat)
    requires taken <= |candidates|
    requires taken > 1 ==> |Flatten(candidates[..taken])| <= ceiling
    ensures var n := Taken(candidates, ceiling, taken, |Flatten(candidates[..taken])|);
      && (n > 1 ==> |Flatten(candidates[..n])| <= ceiling)
      && (n < |candidates| ==> n > 0 && |Flatten(candidates[..n])| + |candidates[n]| > ceiling)
    decreases |candidates| - taken
  {
    if taken < |candidates| && !(taken > 0 && |Flatten(candidates[..taken])| + |candidates[taken]| > ceiling) {
      assert candidates[..taken + 1][..taken] == candidates[..taken];
      TakenIsGreedy(candidates, ceiling, taken + 1);
    }
  }

  lemma {:induction false} FlattenLength(groups: seq<seq<Row>>, n: nat, m: nat)
    requires n <= m <= |groups|
    ensures |Flatten(groups[..n])| <= |Flatten(groups[..m])|
    ensures n < m && groups[n] != [] ==> |Flatten(groups[..n])| + |groups[n]| <= |Flatten(groups[..m])|
    decreases m
  {
    if n < m {
      assert groups[..m][..m - 1] == groups[..m - 1];
      FlattenLength(groups, n, m - 1);
      if n == m - 1 {
        assert groups[..m][m - 1] == groups[n];
      }
    }
  }

  /** The rows of `m` consecutive files. */
  function Span(rows: seq<Row>, from: nat, m: nat): seq<Row>
    requires from + m <= |Groups(rows)|
  {
    Flatten(Groups(rows)[from..from + m])
  }

  lemma LongerRunOverflows(candidates: seq<seq<Row>>, ceiling: nat, m: nat)
    requires Taken(candidates, ceiling, 0, 0) < m <= |candidates|
    requires [] !in candidates
    ensures |Flatten(candidates[..m])| > ceiling
  {
    var n := Taken(candidates, ceiling, 0, 0);
    TakenIsGreedy(candidates, ceiling, 0);
    assert candidates[n] in candidates;
    FlattenLength(candidates, n, m);
  }

  lemma NoEmptyGroup(rows: seq<Row>)
    ensures [] !in Groups(rows)
  {
    FilesAreDistinct(rows);
  }

  lemma LongerSpanOverflows(rows: seq<Row>, offset: nat, limit: nat, ceiling: nat, m: nat)
    requires Shown(rows, offset, limit, ceiling) < m <= limit
    requires Min(offset, |Groups(rows)|) + m <= |Groups(rows)|
    ensures |Span(rows, Min(offset, |Groups(rows)|), m)| > ceiling
  {
    var candidates, from := Candidates(rows, offset, limit), Min(offset, |Groups(rows)|);
    NoEmptyGroup(rows);
    hide Groups, Taken, Flatten;
    assert forall g :: g in candidates ==> g in Groups(rows);
    assert candidates[..m] == Groups(rows)[from..from + m];
    LongerRunOverflows(candidates, ceiling, m);
  }

  lemma CandidatesAreSpan(rows: seq<Row>, offset: nat, limit: nat, n: nat)
    requires n <= |Candidates(rows, offset, limit)|
    ensures var from := Min(offset, |Groups(rows)|);
      from + n <= |Groups(rows)| && Candidates(rows, offset, limit)[..n] == Groups(rows)[from..from + n]
  {
    hide Groups;
  }

  /** A response shows whole files only: a run of consecutive groups from `offset`, at most
      `limit` of them.  It stays under the ceiling unless it is a single file, and no longer
      run of candidates would.  `withheld` is empty exactly when no file from `offset` on was
      left out, and otherwise names the bound that stopped the run. */
  lemma ResponseShowsWholeFiles(rows: seq<Row>, offset: nat, limit: nat, ceiling: nat)
    ensures var groups := Groups(rows);
      var n := Shown(rows, offset, limit, ceiling);
      var (out, withheld) := Answer(rows, offset, limit, ceiling);
      var from := Min(offset, |groups|);
      && from + n <= |groups| && n <= limit
      && out == Span(rows, from, n)
      && (n > 1 ==> |out| <= ceiling)
      && (forall m :: n < m <= limit && from + m <= |groups| ==> |Span(rows, from, m)| > ceiling)
      && (n == 0 <==> limit == 0 || offset >= |groups|)
      && (withheld.None? <==> from + n == |groups|)
      && (withheld == Some(Limit) <==> from + n < |groups| && n == limit)
      && (withheld == Some(Ceiling) <==> from + n < |groups| && n < limit)
  {
    var groups, candidates := Groups(rows), Candidates(rows, offset, limit);
    var n, from := Shown(rows, offset, limit, ceiling), Min(offset, |groups|);
    TakenIsGreedy(candidates, ceiling, 0);
    CandidatesAreSpan(rows, offset, limit, n);
    forall m | n < m <= limit && from + m <= |groups| ensures |Span(rows, from, m)| > ceiling {
      LongerSpanOverflows(rows, offset, limit, ceiling, m);
    }
  }

  /** Every row is in the group of its file and in no other, so paging by files neither splits
      nor repeats one. */
  lemma GroupsPartitionRows(rows: seq<Row>, row: Row, i: nat)
    requires i < |Groups(rows)|
    ensures row in Groups(rows)[i] <==> row in rows && row.path == Files(rows)[i]
    ensures row in rows ==> row.path in Files(rows)
    ensures forall j :: 0 <= j < |Groups(rows)| && j != i ==> Files(rows)[j] != Files(rows)[i]
  {
    FilesAreDistinct(rows);
    RetainKeepsMembers(rows, (r: Row) => r.path == Files(rows)[i], row);
  }

  lemma {:induction false} FlattenConcat(a: seq<seq<Row>>, b: seq<seq<Row>>)
    ensures Flatten(a + b) == Flatten(a) + Flatten(b)
    decreases |b|
  {
    if b == [] {
      assert a + b == a;
      assert Flatten(a) + [] == Flatten(a);
    } else {
      var init, last := b[..|b| - 1], b[|b| - 1];
      assert (a + b)[..|a + b| - 1] == a + init;
      FlattenConcat(a, init);
      assert Flatten(a) + (Flatten(init) + last) == (Flatten(a) + Flatten(init)) + last;
    }
  }

  lemma FlattenUpdate(groups: seq<seq<Row>>, slot: nat, row: Row)
    requires slot < |groups|
    ensures multiset(Flatten(groups[slot := groups[slot] + [row]])) == multiset(Flatten(groups)) + multiset{row}
  {
    var a, g, b := groups[..slot], groups[slot], groups[slot + 1..];
    assert groups == a + ([g] + b);
    assert groups[slot := g + [row]] == a + ([g + [row]] + b);
    FlattenConcat(a, [g] + b);
    FlattenConcat([g], b);
    FlattenConcat(a, [g + [row]] + b);
    FlattenConcat([g + [row]], b);
    FlattenOne(g);
    FlattenOne(g + [row]);
  }

  lemma FlattenOne(g: seq<Row>)
    ensures Flatten([g]) == g
  {
    assert [g][..0] == [];
  }

  /** The groups hold every row, each once. */
  lemma {:induction false} GroupsKeepEveryRow(rows: seq<Row>)
    ensures multiset(Flatten(Groups(rows))) == multiset(rows)
  {
    if rows == [] {
      assert Groups(rows) == [];
    } else {
      var init, last := rows[..|rows| - 1], rows[|rows| - 1];
      assert rows == init + [last];
      GroupsKeepEveryRow(init);
      if last.path in Files(init) {
        var slot :| 0 <= slot < |Files(init)| && Files(init)[slot] == last.path;
        GroupsGrow(init, last, slot);
        FlattenUpdate(Groups(init), slot, last);
      } else {
        GroupsStart(init, last);
        FlattenConcat(Groups(init), [[last]]);
        FlattenOne([last]);
      }
    }
  }

  lemma SpansConcatenate(rows: seq<Row>, offset: nat, n: nat, m: nat)
    requires offset + n + m <= |Groups(rows)|
    ensures Span(rows, offset, n) + Span(rows, offset + n, m) == Span(rows, offset, n + m)
  {
    var groups := Groups(rows);
    hide Groups, Flatten;
    FlattenConcat(groups[offset..offset + n], groups[offset + n..offset + n + m]);
    assert groups[offset..offset + n] + groups[offset + n..offset + n + m] == groups[offset..offset + (n + m)];
  }

  lemma ResponseIsSpan(rows: seq<Row>, offset: nat, limit: nat, ceiling: nat)
    requires offset <= |Groups(rows)|
    ensures offset + Shown(rows, offset, limit, ceiling) <= |Groups(rows)|
    ensures Answer(rows, offset, limit, ceiling).0 == Span(rows, offset, Shown(rows, offset, limit, ceiling))
  {
    ResponseShowsWholeFiles(rows, offset, limit, ceiling);
  }

  /** The response at the offset where the last one stopped goes on where it stopped: shown
      together they are one longer run of whole files. */
  lemma ResponsesContinue(rows: seq<Row>, offset: nat, limit: nat, ceiling: nat)
    requires offset <= |Groups(rows)|
    ensures var next := offset + Shown(rows, offset, limit, ceiling);
      && next + Shown(rows, next, limit, ceiling) <= |Groups(rows)|
      && Answer(rows, offset, limit, ceiling).0 + Answer(rows, next, limit, ceiling).0
         == Span(rows, offset, Shown(rows, offset, limit, ceiling) + Shown(rows, next, limit, ceiling))
  {
    hide Groups, Shown, Answer, Span;
    var next := offset + Shown(rows, offset, limit, ceiling);
    ResponseIsSpan(rows, offset, limit, ceiling);
    ResponseIsSpan(rows, next, limit, ceiling);
    SpansConcatenate(rows, offset, Shown(rows, offset, limit, ceiling), Shown(rows, next, limit, ceiling));
  }

  /** The rows of all responses from `offset` on, asked for until nothing is withheld. */
  function Followed(rows: seq<Row>, offset: nat, limit: nat, ceiling: nat): seq<Row>
    requires limit > 0 && offset <= |Groups(rows)|
    decreases |Groups(rows)| - offset
  {
    var (out, withheld) := Answer(rows, offset, limit, ceiling);
    ResponseShowsWholeFiles(rows, offset, limit, ceiling);
    if withheld.None? then out
    else out + Followed(rows, offset + Shown(rows, offset, limit, ceiling), limit, ceiling)
  }

  lemma FollowedStep(rows: seq<Row>, offset: nat, limit: nat, ceiling: nat)
    requires limit > 0 && offset <= |Groups(rows)|
    ensures var n := Shown(rows, offset, limit, ceiling);
      && offset + n <= |Groups(rows)|
      && (offset + n == |Groups(rows)| || n > 0)
      && Followed(rows, offset, limit, ceiling)
         == (if offset + n == |Groups(rows)| then Span(rows, offset, n)
             else Span(rows, offset, n) + Followed(rows, offset + n, limit, ceiling))
  {
    ResponseShowsWholeFiles(rows, offset, limit, ceiling);
    hide Groups, Shown, Answer, Span;
  }

  lemma {:induction false} FollowedIsRest(rows: seq<Row>, offset: nat, limit: nat, ceiling: nat)
    requires limit > 0 && offset <= |Groups(rows)|
    ensures Followed(rows, offset, limit, ceiling) == Span(rows, offset, |Groups(rows)| - offset)
    decreases |Groups(rows)| - offset
  {
    hide Groups, Shown, Answer, Span, Followed;
    var n, total := Shown(rows, offset, limit, ceiling), |Groups(rows)|;
    FollowedStep(rows, offset, limit, ceiling);
    if offset + n < total {
      FollowedIsRest(rows, offset + n, limit, ceiling);
      SpansConcatenate(rows, offset, n, total - offset - n);
    }
  }

  /** Asking on until nothing is withheld renders every row, each once, file by file. */
  lemma FollowingShowsEveryRow(rows: seq<Row>, limit: nat, ceiling: nat)
    requires limit > 0
    ensures Followed(rows, 0, limit, ceiling) == Flatten(Groups(rows))
    ensures multiset(Followed(rows, 0, limit, ceiling)) == multiset(rows)
  {
    FollowedIsRest(rows, 0, limit, ceiling);
    assert Groups(rows)[0..|Groups(rows)|] == Groups(rows);
    GroupsKeepEveryRow(rows);
  }
}
