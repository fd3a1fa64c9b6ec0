/** Rows, predicates, and the WHERE stage of the clause pipeline: the per-row evaluator and
    the batch filter that compiles each regex once. */
module Predicates {
  import opened Wrappers
  import opened Text
  import Like

  /** A query row as the clause pipeline sees it.  `counted` tells the row types that store a
      GROUP BY count from those that ignore it. */
  datatype Row = Row(strs: map<string, string>, nums: map<string, int>, path: Option<string>, counted: bool)

  datatype StampDefault = StampDefault(value: string, kinds: set<string>, languages: set<string>)

  /** What the filter consults but does not define: the field table, the regex engine and the
      glob matcher. */
  datatype Tables = Tables(
    canonical: string -> string,
    stampDefault: string -> Option<StampDefault>,
    regexCompiles: string -> bool,
    regexMatches: (string, string) -> bool,
    globMatches: (string, string) -> bool)

  datatype CompareOp = Eq | NotEq | Like | NotLike | Matches | NotMatches | Gt | Gte | Lt | Lte

  datatype Operand = Str(s: string) | Num(n: int) | Bool(b: bool)

  datatype Predicate = Predicate(field: string, op: CompareOp, value: Operand)

  const UNKNOWN_KIND := "unknown"

  // ----- Reading a row -----

  function FieldStr(row: Row, field: string): Option<string>
  {
    if field in row.strs then Some(row.strs[field]) else None
  }

  function FieldNum(row: Row, field: string): Option<int>
  {
    if field in row.nums then Some(row.nums[field]) else None
  }

  function ResolvedStr(tables: Tables, row: Row, field: string): Option<string>
  {
    if FieldStr(row, field).Some? then FieldStr(row, field)
    else match tables.stampDefault(field)
      case None => None
      case Some(default) =>
        var kind, language := FieldStr(row, "fql_kind"), FieldStr(row, "language");
        if kind.Some? && language.Some? && kind.value in default.kinds && language.value in default.languages
        then Some(default.value) else None
  }

  function ComparableStr(tables: Tables, row: Row, field: string, op: CompareOp): Option<string>
  {
    var value := ResolvedStr(tables, row, field);
    if field != "fql_kind" || (op != Eq && op != NotEq) then value
    else if value == Some(UNKNOWN_KIND) then Some("")
    else value
  }

  // ----- The per-row evaluator -----

  /** `like_match`, as the recurrence its table computes. */
  predicate LikeAccepts(text: string, pattern: string)
  {
    Like.Accepts(Like.Fold(text), Like.Fold(pattern))
  }

  predicate Compare(op: CompareOp, v: int, rhs: int)
  {
    match op
    case Eq => v == rhs
    case NotEq => v != rhs
    case Gt => v > rhs
    case Gte => v >= rhs
    case Lt => v < rhs
    case Lte => v <= rhs
    case _ => false
  }

  /** `eval_predicate_on`, with `field` already canonical. */
  predicate EvalOn(tables: Tables, row: Row, field: string, p: Predicate)
  {
    var value := ComparableStr(tables, row, field, p.op);
    match p.op
    case Like => p.value.Str? && value.Some? && LikeAccepts(value.value, p.value.s)
    case NotLike => p.value.Str? ==> value.Some? && !LikeAccepts(value.value, p.value.s)
    case Matches =>
      p.value.Str? && tables.regexCompiles(p.value.s) && value.Some? && tables.regexMatches(p.value.s, value.value)
    case NotMatches =>
      p.value.Str? && tables.regexCompiles(p.value.s) ==> value.Some? && !tables.regexMatches(p.value.s, value.value)
    case _ =>
      match p.value
      case Str(s) => (p.op == Eq && value == Some(s)) || (p.op == NotEq && value.Some? && value.value != s)
      case Num(n) => FieldNum(row, field).Some? && Compare(p.op, FieldNum(row, field).value, n)
      case Bool(_) => false
  }

  predicate Eval(tables: Tables, row: Row, p: Predicate)
  {
    EvalOn(tables, row, tables.canonical(p.field), p)
  }

  // ----- What a predicate means -----

  /** The row reads as `v`: it carries that string, or carries none and the field has a default
      `v` that speaks for the row's kind and language. */
  predicate ReadsAs(tables: Tables, row: Row, field: string, v: string)
  {
    if field in row.strs then row.strs[field] == v
    else
      var default := tables.stampDefault(field);
      && default.Some? && default.value.value == v
      && "fql_kind" in row.strs && row.strs["fql_kind"] in default.value.kinds
      && "language" in row.strs && row.strs["language"] in default.value.languages
  }

  /** The row reads as `v` under an equality, which takes the kind "unknown" for the empty one. */
  predicate EqualsAs(tables: Tables, row: Row, field: string, v: string)
  {
    if field == "fql_kind" then
      (v != "unknown" && ReadsAs(tables, row, field, v)) || (v == "" && ReadsAs(tables, row, field, "unknown"))
    else ReadsAs(tables, row, field, v)
  }

  /** What each operator asks of a row.  A comparison with a number asks for a number, one with
      text for text; a pattern operator takes text only, and its negation passes whatever the
      row holds when the pattern is of no use. */
  ghost predicate Satisfies(tables: Tables, row: Row, p: Predicate)
  {
    var field := tables.canonical(p.field);
    match p.value
    case Num(n) =>
      (match p.op
       case Gt => field in row.nums && row.nums[field] > n
       case Gte => field in row.nums && row.nums[field] >= n
       case Lt => field in row.nums && row.nums[field] < n
       case Lte => field in row.nums && row.nums[field] <= n
       case Eq => field in row.nums && row.nums[field] == n
       case NotEq => field in row.nums && row.nums[field] != n
       case NotLike => true
       case NotMatches => true
       case _ => false)
    case Str(text) =>
      (match p.op
       case Eq => EqualsAs(tables, row, field, text)
       case NotEq => exists v :: v != text && EqualsAs(tables, row, field, v)
       case Like => exists v :: ReadsAs(tables, row, field, v) && Like.MatchesAnyCase(v, text)
       case NotLike => exists v :: ReadsAs(tables, row, field, v) && !Like.MatchesAnyCase(v, text)
       case Matches =>
         tables.regexCompiles(text) && exists v :: ReadsAs(tables, row, field, v) && tables.regexMatches(text, v)
       case NotMatches =>
         tables.regexCompiles(text) ==> exists v :: ReadsAs(tables, row, field, v) && !tables.regexMatches(text, v)
       case _ => false)
    case Bool(_) => p.op == NotLike || p.op == NotMatches
  }

  lemma ReadsOnce(tables: Tables, row: Row, field: string)
    ensures match ResolvedStr(tables, row, field)
      case None => forall v :: !ReadsAs(tables, row, field, v)
      case Some(u) => forall v :: ReadsAs(tables, row, field, v) <==> v == u
  {
  }

  lemma EqualsOnce(tables: Tables, row: Row, field: string, op: CompareOp)
    requires op == Eq || op == NotEq
    ensures match ComparableStr(tables, row, field, op)
      case None => forall v :: !EqualsAs(tables, row, field, v)
      case Some(u) => forall v :: EqualsAs(tables, row, field, v) <==> v == u
  {
    ReadsOnce(tables, row, field);
    hide ReadsAs, ResolvedStr;
    assert UNKNOWN_KIND == "unknown";
    var value := ComparableStr(tables, row, field, op);
    forall v ensures EqualsAs(tables, row, field, v) <==> value == Some(v) {
      assert ReadsAs(tables, row, field, v) <==> ResolvedStr(tables, row, field) == Some(v);
      assert ReadsAs(tables, row, field, "unknown") <==> ResolvedStr(tables, row, field) == Some("unknown");
    }
  }

  lemma LikeMeans(text: string, pattern: string)
    ensures LikeAccepts(text, pattern) <==> Like.MatchesAnyCase(text, pattern)
  {
    Like.AcceptsIffMeans(Like.Fold(text), Like.Fold(pattern));
    Like.FoldedMeansAnyCase(text, pattern);
  }

  lemma NumberMeans(tables: Tables, row: Row, p: Predicate)
    requires !p.value.Str?
    ensures Eval(tables, row, p) <==> Satisfies(tables, row, p)
  {
    hide ReadsAs, ResolvedStr, LikeAccepts;
  }

  lemma TextMeans(tables: Tables, row: Row, p: Predicate)
    requires p.value.Str?
    ensures Eval(tables, row, p) <==> Satisfies(tables, row, p)
  {
    var field := tables.canonical(p.field);
    ReadsOnce(tables, row, field);
    if p.op == Eq || p.op == NotEq {
      EqualsOnce(tables, row, field, p.op);
      var value := ComparableStr(tables, row, field, p.op);
      assert value.Some? ==> EqualsAs(tables, row, field, value.value);
      hide EqualsAs, ReadsAs, ComparableStr;
    } else {
      var value := ResolvedStr(tables, row, field);
      if value.Some? {
        LikeMeans(value.value, p.value.s);
        assert ReadsAs(tables, row, field, value.value);
      }
      hide ReadsAs, ResolvedStr, LikeAccepts;
    }
  }

  /** The evaluator decides what a predicate means. */
  lemma EvalMeans(tables: Tables, row: Row, p: Predicate)
    ensures Eval(tables, row, p) <==> Satisfies(tables, row, p)
  {
    if p.value.Str? {
      TextMeans(tables, row, p);
    } else {
      NumberMeans(tables, row, p);
    }
  }

  method EvalPredicate(tables: Tables, row: Row, p: Predicate) returns (pass: bool)
    ensures pass == Eval(tables, row, p)
    ensures pass <==> Satisfies(tables, row, p)
  {
    EvalMeans(tables, row, p);
    hide Satisfies;
    var field := tables.canonical(p.field);
    var value := ComparableStr(tables, row, field, p.op);
    if (p.op == CompareOp.Like || p.op == NotLike) && p.value.Str? {
      if value.None? {
        return false;
      }
      var matched := Like.LikeMatch(value.value, p.value.s);
      Like.AcceptsIffMeans(Like.Fold(value.value), Like.Fold(p.value.s));
      return matched == (p.op == CompareOp.Like);
    }
    pass := EvalOn(tables, row, field, p);
  }

  // ----- Keeping rows -----

  /** `Vec::retain`. */
  function Retain(rows: seq<Row>, keep: Row -> bool): seq<Row>
  {
    if rows == [] then []
    else (if keep(rows[0]) then [rows[0]] else []) + Retain(rows[1..], keep)
  }

  lemma {:induction false} RetainSplit(a: seq<Row>, b: seq<Row>, keep: Row -> bool)
    ensures Retain(a + b, keep) == Retain(a, keep) + Retain(b, keep)
  {
    if a == [] {
      assert a + b == b;
    } else {
      assert (a + b)[1..] == a[1..] + b;
      RetainSplit(a[1..], b, keep);
      var head := if keep(a[0]) then [a[0]] else [];
      assert head + (Retain(a[1..], keep) + Retain(b, keep)) == (head + Retain(a[1..], keep)) + Retain(b, keep);
    }
  }

  lemma {:induction false} RetainKeepsMembers(rows: seq<Row>, keep: Row -> bool, row: Row)
    ensures row in Retain(rows, keep) <==> row in rows && keep(row)
  {
    if rows != [] {
      RetainKeepsMembers(rows[1..], keep, row);
      assert row in rows <==> row == rows[0] || row in rows[1..];
    }
  }

  lemma {:induction false} RetainTwice(rows: seq<Row>, first: Row -> bool, second: Row -> bool, both: Row -> bool)
    requires forall row :: row in rows ==> both(row) == (first(row) && second(row))
    ensures Retain(Retain(rows, first), second) == Retain(rows, both)
  {
    if rows != [] {
      assert rows[0] in rows;
      RetainTwice(rows[1..], first, second, both);
      RetainSplit(if first(rows[0]) then [rows[0]] else [], Retain(rows[1..], first), second);
    }
  }

  lemma {:induction false} RetainSame(rows: seq<Row>, a: Row -> bool, b: Row -> bool)
    requires forall row :: row in rows ==> a(row) == b(row)
    ensures Retain(rows, a) == Retain(rows, b)
  {
    if rows != [] {
      assert rows[0] in rows;
      RetainSame(rows[1..], a, b);
    }
  }

  method RetainPassing(tables: Tables, rows: seq<Row>, p: Predicate) returns (out: seq<Row>)
    ensures out == Retain(rows, row => Eval(tables, row, p))
    ensures forall row :: row in out <==> row in rows && Satisfies(tables, row, p)
  {
    hide Eval, Satisfies;
    out := [];
    ghost var keep := (row: Row) => Eval(tables, row, p);
    for i := 0 to |rows|
      invariant out == Retain(rows[..i], keep)
    {
      var pass := EvalPredicate(tables, rows[i], p);
      RetainSplit(rows[..i], [rows[i]], keep);
      assert rows[..i + 1] == rows[..i] + [rows[i]];
      if pass {
        out := out + [rows[i]];
      }
    }
    assert rows[..|rows|] == rows;
    forall row ensures row in out <==> row in rows && Satisfies(tables, row, p) {
      RetainKeepsMembers(rows, keep, row);
      EvalMeans(tables, row, p);
    }
  }

  // ----- The batch filter -----

  /** `dot_brace_min_len`: N for a pattern that is exactly `.{N,}`. */
  function DotBraceMinLen(pattern: string): Option<nat>
  {
    if |pattern| >= 4 && pattern[..2] == ".{" && pattern[|pattern| - 2..] == ",}"
    then ParseUnsigned(pattern[2..|pattern| - 2], USIZE_MAX)
    else None
  }

  /** What the batch filter decides for one row and one predicate. */
  predicate BatchKeeps(tables: Tables, p: Predicate, row: Row)
  {
    if (p.op == Matches || p.op == NotMatches) && p.value.Str? then
      var value := ComparableStr(tables, row, tables.canonical(p.field), p.op);
      var wanted := p.op == Matches;
      match DotBraceMinLen(p.value.s)
      case Some(minLen) => value.Some? && (Utf8Len(value.value) >= minLen) == wanted
      case None =>
        if tables.regexCompiles(p.value.s)
        then value.Some? && tables.regexMatches(p.value.s, value.value) == wanted
        else !wanted
    else Eval(tables, row, p)
  }

  predicate BatchKeepsAll(tables: Tables, ps: seq<Predicate>, row: Row)
  {
    forall p :: p in ps ==> BatchKeeps(tables, p, row)
  }

  predicate PassesAll(tables: Tables, ps: seq<Predicate>, row: Row)
  {
    forall p :: p in ps ==> Eval(tables, row, p)
  }

  lemma {:induction false} RetainNothing(rows: seq<Row>, keep: Row -> bool)
    requires forall row :: row in rows ==> !keep(row)
    ensures Retain(rows, keep) == []
  {
    if rows != [] {
      assert rows[0] in rows;
      RetainNothing(rows[1..], keep);
    }
  }

  lemma {:induction false} RetainAll(rows: seq<Row>, keep: Row -> bool)
    requires forall row :: row in rows ==> keep(row)
    ensures Retain(rows, keep) == rows
  {
    if rows != [] {
      assert rows[0] in rows;
      RetainAll(rows[1..], keep);
    }
  }

  /** One predicate of `apply_where_predicates`. */
  method ApplyOne(tables: Tables, rows: seq<Row>, p: Predicate) returns (out: seq<Row>)
    ensures out == Retain(rows, row => BatchKeeps(tables, p, row))
  {
    ghost var keep := row => BatchKeeps(tables, p, row);
    if (p.op == Matches || p.op == NotMatches) && p.value.Str? {
      var isMatches := p.op == Matches;
      var field := tables.canonical(p.field);
      var minLen := DotBraceMinLen(p.value.s);
      if minLen.Some? {
        var fast := (row: Row) =>
          var v := ComparableStr(tables, row, field, p.op);
          v.Some? && (Utf8Len(v.value) >= minLen.value) == isMatches;
        out := Retain(rows, fast);
        RetainSame(rows, fast, keep);
      } else if tables.regexCompiles(p.value.s) {
        var compiled := (row: Row) =>
          var v := ComparableStr(tables, row, field, p.op);
          v.Some? && tables.regexMatches(p.value.s, v.value) == isMatches;
        out := Retain(rows, compiled);
        RetainSame(rows, compiled, keep);
      } else if isMatches {
        out := [];
        RetainNothing(rows, keep);
      } else {
        out := rows;
        RetainAll(rows, keep);
      }
    } else {
      out := RetainPassing(tables, rows, p);
      RetainSame(rows, row => Eval(tables, row, p), keep);
    }
  }

  /** What the batch filter keeps: what the predicate means, but for `.{N,}`, which it reads as
      a length in bytes. */
  ghost predicate Selects(tables: Tables, p: Predicate, row: Row)
  {
    if TakesShortcut(p) then
      var minLen := DotBraceMinLen(p.value.s).value;
      exists v :: ReadsAs(tables, row, tables.canonical(p.field), v)
                  && (if p.op == Matches then Utf8Len(v) >= minLen else Utf8Len(v) < minLen)
    else Satisfies(tables, row, p)
  }

  lemma BatchMeans(tables: Tables, p: Predicate, row: Row)
    ensures BatchKeeps(tables, p, row) <==> Selects(tables, p, row)
  {
    EvalMeans(tables, row, p);
    ReadsOnce(tables, row, tables.canonical(p.field));
    hide Satisfies, ReadsAs, ResolvedStr, Utf8Len, DotBraceMinLen, LikeAccepts;
  }

  lemma BatchMeansAll(tables: Tables, ps: seq<Predicate>, row: Row)
    ensures BatchKeepsAll(tables, ps, row) <==> forall p :: p in ps ==> Selects(tables, p, row)
  {
    hide BatchKeeps, Selects;
    forall p | p in ps ensures BatchKeeps(tables, p, row) <==> Selects(tables, p, row) {
      BatchMeans(tables, p, row);
    }
  }

  method ApplyWherePredicates(tables: Tables, rows: seq<Row>, ps: seq<Predicate>) returns (out: seq<Row>)
    ensures out == Retain(rows, row => BatchKeepsAll(tables, ps, row))
    ensures forall row :: row in out <==> row in rows && forall p :: p in ps ==> Selects(tables, p, row)
  {
    hide BatchKeeps, Selects;
    out := rows;
    RetainAll(rows, row => BatchKeepsAll(tables, [], row));
    for i := 0 to |ps|
      invariant out == Retain(rows, row => BatchKeepsAll(tables, ps[..i], row))
    {
      out := ApplyOne(tables, out, ps[i]);
      assert ps[..i + 1] == ps[..i] + [ps[i]];
      RetainTwice(rows, row => BatchKeepsAll(tables, ps[..i], row), row => BatchKeeps(tables, ps[i], row),
                  row => BatchKeepsAll(tables, ps[..i + 1], row));
    }
    assert ps[..|ps|] == ps;
    forall row ensures row in out <==> row in rows && forall p :: p in ps ==> Selects(tables, p, row) {
      RetainKeepsMembers(rows, row => BatchKeepsAll(tables, ps, row), row);
      BatchMeansAll(tables, ps, row);
    }
  }

  // ----- Batch filter against per-row evaluator -----

  predicate RunAt(v: string, i: nat, n: nat)
  {
    i + n <= |v| && '\n' !in v[i..i + n]
  }

  /** `n` consecutive characters, none a newline. */
  predicate HasRun(v: string, n: nat)
  {
    exists i :: 0 <= i <= |v| && RunAt(v, i, n)
  }

  /** What is assumed of the regex engine: `.{N,}`, where it compiles, finds N characters in a
      row other than newlines. */
  ghost predicate DotBraceMeansRun(tables: Tables)
  {
    forall pattern: string, v: string ::
      DotBraceMinLen(pattern).Some? && tables.regexCompiles(pattern) ==>
        (tables.regexMatches(pattern, v) <==> HasRun(v, DotBraceMinLen(pattern).value))
  }

  predicate SingleLineAscii(v: string)
  {
    IsAscii(v) && '\n' !in v
  }

  /** On single-line ASCII the byte length decides the run. */
  lemma LengthDecidesRun(v: string, n: nat)
    requires SingleLineAscii(v)
    ensures Utf8Len(v) >= n <==> HasRun(v, n)
  {
    AsciiLen(v);
    if |v| >= n {
      assert RunAt(v, 0, n);
    }
  }

  /** The byte length decides every run exactly on single-line ASCII. */
  lemma LengthDecidesExactlyOn(v: string)
    ensures (forall n: nat :: Utf8Len(v) >= n <==> HasRun(v, n)) <==> SingleLineAscii(v)
  {
    if SingleLineAscii(v) {
      forall n: nat ensures Utf8Len(v) >= n <==> HasRun(v, n) {
        LengthDecidesRun(v, n);
      }
    } else {
      NoFullRun(v);
    }
  }

  /** Elsewhere no run is as long as the value has bytes. */
  lemma NoFullRun(v: string)
    requires !SingleLineAscii(v)
    ensures !HasRun(v, Utf8Len(v))
  {
    AsciiLen(v);
    assert v[0..|v|] == v;
  }

  /** The pattern operators that take the length shortcut. */
  predicate TakesShortcut(p: Predicate)
  {
    (p.op == Matches || p.op == NotMatches) && p.value.Str? && DotBraceMinLen(p.value.s).Some?
  }

  /** Where the two readers part: a row without the value under a negated pattern that does
      not compile, a long enough value under one that does not compile, and a value whose byte
      length and longest line disagree about N. */
  predicate ShortcutAgreesOn(tables: Tables, p: Predicate, row: Row)
    requires TakesShortcut(p)
  {
    var minLen := DotBraceMinLen(p.value.s).value;
    match ComparableStr(tables, row, tables.canonical(p.field), p.op)
    case None => p.op == Matches || tables.regexCompiles(p.value.s)
    case Some(v) =>
      if tables.regexCompiles(p.value.s) then Utf8Len(v) >= minLen <==> HasRun(v, minLen)
      else Utf8Len(v) < minLen
  }

  /** The batch filter and the evaluator agree on a row exactly there. */
  lemma BatchAgreesExactly(tables: Tables, p: Predicate, row: Row)
    requires DotBraceMeansRun(tables)
    ensures BatchKeeps(tables, p, row) == Eval(tables, row, p)
            <==> (TakesShortcut(p) ==> ShortcutAgreesOn(tables, p, row))
  {
    if TakesShortcut(p) {
      var value := ComparableStr(tables, row, tables.canonical(p.field), p.op);
      if value.Some? && tables.regexCompiles(p.value.s) {
        assert tables.regexMatches(p.value.s, value.value) <==> HasRun(value.value, DotBraceMinLen(p.value.s).value);
      }
    }
  }

  /** The values the shortcut is meant for. */
  predicate ShortcutIsApt(tables: Tables, p: Predicate, rows: seq<Row>)
  {
    TakesShortcut(p) ==>
      && tables.regexCompiles(p.value.s)
      && forall row :: row in rows ==>
           var value := ComparableStr(tables, row, tables.canonical(p.field), p.op);
           value.Some? ==> SingleLineAscii(value.value)
  }

  /** On such rows the WHERE stage keeps exactly the rows that pass every predicate. */
  lemma WhereKeepsPassingRows(tables: Tables, rows: seq<Row>, ps: seq<Predicate>)
    requires DotBraceMeansRun(tables)
    requires forall p :: p in ps ==> ShortcutIsApt(tables, p, rows)
    ensures Retain(rows, row => BatchKeepsAll(tables, ps, row)) == Retain(rows, row => PassesAll(tables, ps, row))
  {
    forall row, p | row in rows && p in ps ensures BatchKeeps(tables, p, row) == Eval(tables, row, p) {
      assert ShortcutIsApt(tables, p, rows);
      BatchAgreesExactly(tables, p, row);
      var value := ComparableStr(tables, row, tables.canonical(p.field), p.op);
      if TakesShortcut(p) && value.Some? {
        LengthDecidesRun(value.value, DotBraceMinLen(p.value.s).value);
      }
    }
    forall row | row in rows ensures BatchKeepsAll(tables, ps, row) == PassesAll(tables, ps, row) {
    }
    RetainSame(rows, row => BatchKeepsAll(tables, ps, row), row => PassesAll(tables, ps, row));
  }

  function DotBrace(n: nat): (pattern: string)
  {
    ".{" + Decimal(n) + ",}"
  }

  lemma DotBraceIsRead(n: nat)
    requires n <= USIZE_MAX
    ensures DotBraceMinLen(DotBrace(n)) == Some(n)
  {
    var p := DotBrace(n);
    assert p[..2] == ".{" && p[|p| - 2..] == ",}" && p[2..|p| - 2] == Decimal(n);
    ParseDecimal(n, USIZE_MAX);
  }

  /** Only such patterns take the shortcut: the braces, a number and nothing else. */
  lemma OnlyDotBraceIsRead(pattern: string, n: nat)
    ensures DotBraceMinLen(pattern) == Some(n) <==>
            exists digits :: pattern == ".{" + digits + ",}" && ParseUnsigned(digits, USIZE_MAX) == Some(n)
  {
    if DotBraceMinLen(pattern) == Some(n) {
      var digits := pattern[2..|pattern| - 2];
      assert pattern == pattern[..2] + digits + pattern[|pattern| - 2..];
    }
    forall digits | pattern == ".{" + digits + ",}" ensures pattern[2..|pattern| - 2] == digits {
      assert pattern[..2] == ".{" && pattern[|pattern| - 2..] == ",}";
    }
  }

  /** `field MATCHES '.{n,}'` or its negation. */
  function LengthTest(field: string, op: CompareOp, n: nat): Predicate
  {
    Predicate(field, op, Str(DotBrace(n)))
  }

  /** The two readers agree on a row about every length the regex engine can compile. */
  ghost predicate AgreesOnLengths(tables: Tables, field: string, op: CompareOp, row: Row)
  {
    forall n: nat :: n <= USIZE_MAX && tables.regexCompiles(DotBrace(n)) ==>
      BatchKeeps(tables, LengthTest(field, op, n), row) == Eval(tables, row, LengthTest(field, op, n))
  }

  predicate AptValue(value: Option<string>)
  {
    value.Some? ==> SingleLineAscii(value.value)
  }

  lemma LengthAgrees(tables: Tables, field: string, op: CompareOp, row: Row, n: nat)
    requires DotBraceMeansRun(tables) && (op == Matches || op == NotMatches)
    requires n <= USIZE_MAX && tables.regexCompiles(DotBrace(n))
    ensures var value := ComparableStr(tables, row, tables.canonical(field), op);
      BatchKeeps(tables, LengthTest(field, op, n), row) == Eval(tables, row, LengthTest(field, op, n))
      <==> (value.Some? ==> (Utf8Len(value.value) >= n <==> HasRun(value.value, n)))
  {
    DotBraceIsRead(n);
    hide DotBrace, DotBraceMinLen, HasRun, Utf8Len;
    BatchAgreesExactly(tables, LengthTest(field, op, n), row);
  }

  /** Batch filter and evaluator agree on a row about every length exactly when its value is
      single-line ASCII, or missing. */
  lemma ShortcutIsExactOnAptValues(tables: Tables, field: string, op: CompareOp, row: Row)
    requires DotBraceMeansRun(tables) && (op == Matches || op == NotMatches)
    requires var value := ComparableStr(tables, row, tables.canonical(field), op);
      value.Some? ==> Utf8Len(value.value) <= USIZE_MAX && tables.regexCompiles(DotBrace(Utf8Len(value.value)))
    ensures AgreesOnLengths(tables, field, op, row)
            <==> AptValue(ComparableStr(tables, row, tables.canonical(field), op))
  {
    var value := ComparableStr(tables, row, tables.canonical(field), op);
    if AptValue(value) {
      forall n: nat | n <= USIZE_MAX && tables.regexCompiles(DotBrace(n))
        ensures BatchKeeps(tables, LengthTest(field, op, n), row) == Eval(tables, row, LengthTest(field, op, n))
      {
        LengthAgrees(tables, field, op, row, n);
        if value.Some? {
          LengthDecidesRun(value.value, n);
        }
      }
    } else {
      LengthAgrees(tables, field, op, row, Utf8Len(value.value));
      NoFullRun(value.value);
    }
  }

  /** A two-byte character is enough to part them: `name MATCHES '.{2,}'` keeps the row named
      "é" in the batch filter and drops it in the evaluator. */
  lemma ShortcutMiscountsNonAscii(tables: Tables, row: Row)
    requires DotBraceMeansRun(tables) && tables.canonical("name") == "name"
    requires row == Row(map["name" := "\U{e9}"], map[], None, false) && tables.regexCompiles(DotBrace(2))
    ensures BatchKeeps(tables, LengthTest("name", Matches, 2), row)
    ensures !Eval(tables, row, LengthTest("name", Matches, 2))
  {
    var v := "\U{e9}";
    assert v[1..] == "" && Utf8Len(v) == 2;
    DotBraceIsRead(2);
    LengthAgrees(tables, "name", Matches, row, 2);
    assert v[0] in v && !IsAscii(v);
    NoFullRun(v);
  }

  /** The WHERE stage does not depend on the order or repetition of its predicates, and
      running it again changes nothing. */
  lemma WhereIgnoresOrder(tables: Tables, rows: seq<Row>, ps: seq<Predicate>, qs: seq<Predicate>)
    requires forall p :: p in ps <==> p in qs
    ensures Retain(rows, row => BatchKeepsAll(tables, ps, row)) == Retain(rows, row => BatchKeepsAll(tables, qs, row))
    ensures var kept := Retain(rows, row => BatchKeepsAll(tables, ps, row));
            Retain(kept, row => BatchKeepsAll(tables, qs, row)) == kept
  {
    var keepP, keepQ := (row: Row) => BatchKeepsAll(tables, ps, row), (row: Row) => BatchKeepsAll(tables, qs, row);
    RetainSame(rows, keepP, keepQ);
    RetainTwice(rows, keepP, keepQ, keepP);
  }

  /** A pattern and its negation share out exactly the rows that have a value. */
  lemma PatternsSplitRowsWithValue(tables: Tables, row: Row, field: string, pattern: string)
    ensures var value := ResolvedStr(tables, row, tables.canonical(field));
            var like := Eval(tables, row, Predicate(field, Like, Str(pattern)));
            var notLike := Eval(tables, row, Predicate(field, NotLike, Str(pattern)));
            var matches := Eval(tables, row, Predicate(field, Matches, Str(pattern)));
            var notMatches := Eval(tables, row, Predicate(field, NotMatches, Str(pattern)));
            && (like || notLike <==> value.Some?)
            && !(like && notLike)
            && !(matches && notMatches)
            && (tables.regexCompiles(pattern) ==> (matches || notMatches <==> value.Some?))
            && (!tables.regexCompiles(pattern) ==> !matches && notMatches)
  {
  }
}
