/** The SHOW MORE buffer: a rendered output over the inline cap is stored whole in a text
    slot, and a window of it is returned with a hint. */
module ShowMore {
  import opened Wrappers
  import opened Text
  import opened Ring

  datatype Direction = Head | Tail

  datatype Selection = Full | First(n: nat) | Last(n: nat) | Range(a: nat, b: nat)

  datatype Buffer = Buffer(defaultDir: Direction, name: string, lines: seq<string>)

  const RING_SIZE: nat := 5
  const HEADER_MARKER := "FQLSHOWMORE\tv1"

  // ----- Windows -----

  /** Lines numbered from `first` on. */
  function Numbered(lines: seq<string>, first: nat): (w: seq<(nat, string)>)
    ensures |w| == |lines|
  {
    seq(|lines|, i requires 0 <= i < |lines| => (first + i, lines[i]))
  }

  function Bounds(n: nat, sel: Selection): (r: (nat, nat))
    ensures r.0 <= r.1 <= n
  {
    match sel
    case Full => (0, n)
    case First(k) => (0, Min(k, n))
    case Last(k) => (if k <= n then n - k else 0, n)
    case Range(a, b) =>
      var lo := Min(if a > 0 then a - 1 else 0, n);
      var hi := Min(b, n);
      (lo, if hi >= lo then hi else lo)
  }

  /** `Buffer::window`: the chosen lines with their positions in the whole buffer, from 1. */
  function Window(lines: seq<string>, sel: Selection): seq<(nat, string)>
  {
    var (lo, hi) := Bounds(|lines|, sel);
    Numbered(lines[lo..hi], lo + 1)
  }

  /** What each selection shows: the first lines, the last lines, the lines of a range, or all,
      in order, each with its number in the whole output, counted from 1. */
  lemma WindowShows(lines: seq<string>, sel: Selection)
    ensures var w := Window(lines, sel);
      var n := |lines|;
      match sel
      case Full => |w| == n && forall i :: 0 <= i < n ==> w[i] == (i + 1, lines[i])
      case First(k) =>
        |w| == (if k < n then k else n) && forall i :: 0 <= i < |w| ==> w[i] == (i + 1, lines[i])
      case Last(k) =>
        |w| == (if k < n then k else n)
        && forall i :: 0 <= i < |w| ==> w[i] == (n - |w| + i + 1, lines[n - |w| + i])
      case Range(a, b) =>
        && (forall i, j :: 0 <= i < j < |w| ==> w[i].0 < w[j].0)
        && (forall i :: 0 <= i < n && a <= i + 1 <= b ==> (i + 1, lines[i]) in w)
        && (forall x :: x in w ==> 1 <= x.0 <= n && a <= x.0 <= b && x.1 == lines[x.0 - 1])
  {
    if sel.Range? {
      forall i | 0 <= i < |lines| && sel.a <= i + 1 <= sel.b ensures (i + 1, lines[i]) in Window(lines, sel) {
        RangeShowsItsLines(lines, sel.a, sel.b, i + 1, lines[i]);
      }
      forall x | x in Window(lines, sel)
        ensures 1 <= x.0 <= |lines| && sel.a <= x.0 <= sel.b && x.1 == lines[x.0 - 1]
      {
        RangeShowsItsLines(lines, sel.a, sel.b, x.0, x.1);
      }
    }
  }

  /** `HEAD k` and `TAIL n-k` share out the buffer, with original line numbers. */
  lemma HeadAndTailPartition(lines: seq<string>, k: nat)
    requires k <= |lines|
    ensures Window(lines, First(k)) + Window(lines, Last(|lines| - k)) == Window(lines, Full)
  {
  }

  /** A range shows exactly the lines numbered in it, wherever its ends lie. */
  lemma RangeShowsItsLines(lines: seq<string>, a: nat, b: nat, i: nat, text: string)
    ensures (i, text) in Window(lines, Range(a, b))
            <==> 1 <= i <= |lines| && a <= i <= b && text == lines[i - 1]
  {
    var (lo, hi) := Bounds(|lines|, Range(a, b));
    var w := Window(lines, Range(a, b));
    assert |w| == hi - lo && forall j :: 0 <= j < hi - lo ==> w[j] == (lo + 1 + j, lines[lo + j]);
    if 1 <= i <= |lines| && a <= i <= b && text == lines[i - 1] {
      assert lo <= i - 1 < hi;
      assert w[i - 1 - lo] == (i, text);
    }
  }

  // ----- The stored form -----

  function DirToken(d: Direction): string
  {
    if d == Head then "head" else "tail"
  }

  function DirFromToken(token: string): Direction
  {
    if token == "tail" then Tail else Head
  }

  /** The producing command's name with line breaks turned into spaces. */
  function SafeName(name: string): (r: string)
    ensures '\n' !in r && '\r' !in r && |r| == |name|
    ensures forall i :: 0 <= i < |name| ==> r[i] == name[i] || (name[i] in "\n\r" && r[i] == ' ')
  {
    seq(|name|, i requires 0 <= i < |name| => if name[i] == '\n' || name[i] == '\r' then ' ' else name[i])
  }

  function Header(d: Direction, name: string, count: nat): string
  {
    HEADER_MARKER + "\t" + DirToken(d) + "\t" + Decimal(count) + "\t" + SafeName(name)
  }

  function Terminated(lines: seq<string>): string
  {
    if lines == [] then "" else Terminated(lines[..|lines| - 1]) + lines[|lines| - 1] + "\n"
  }

  function Stored(d: Direction, name: string, lines: seq<string>): string
  {
    Header(d, name, |lines|) + "\n" + Terminated(lines)
  }

  method WriteBuffer(ring: SlotFiles, d: Direction, name: string, lines: seq<string>, outcome: Outcome)
    requires ring.slots != []
    modifies ring
    ensures ring.slots == AfterWrite(old(ring.slots), Kept(Stored(d, name, lines), outcome))
  {
    var buf := Header(d, name, |lines|) + "\n";
    ghost var header := buf;
    for i := 0 to |lines|
      invariant buf == header + Terminated(lines[..i])
    {
      assert lines[..i + 1][..i] == lines[..i];
      buf := buf + lines[i];
      buf := buf + "\n";
      assert buf == header + Terminated(lines[..i + 1]);
    }
    assert lines[..|lines|] == lines;
    ring.Write(buf, outcome);
  }

  /** `str::splitn`. */
  function SplitN(s: string, sep: char, n: nat): seq<string>
  {
    if n == 0 then []
    else if n == 1 || Find(s, sep).None? then [s]
    else
      var i := Find(s, sep).value;
      [s[..i]] + SplitN(s[i + 1..], sep, n - 1)
  }

  function FieldOr(fields: seq<string>, i: nat, default: string): string
  {
    if i < |fields| then fields[i] else default
  }

  /** A buffer from its header fields and the text after the header, cut into lines. */
  function FromFields(fields: seq<string>, body: seq<string>): Option<Buffer>
  {
    if |fields| < 2 || fields[0] != "FQLSHOWMORE" || fields[1] != "v1" then None
    else
      var parsed := ParseUnsigned(FieldOr(fields, 3, ""), USIZE_MAX);
      var count := if parsed.Some? then parsed.value else 0;
      Some(Buffer(DirFromToken(FieldOr(fields, 2, "head")), FieldOr(fields, 4, ""), body[..Min(count, |body|)]))
  }

  /** `None` when the text is not a buffer. */
  function Parsed(text: string): Option<Buffer>
  {
    var parts := Split(text, '\n');
    FromFields(SplitN(parts[0], '\t', 5), parts[1..])
  }

  /** `read_buffer_n` */
  method ReadBuffer(ring: SlotFiles, n: nat) returns (buffer: Option<Buffer>)
    ensures buffer == if n < |ring.slots| && ring.slots[n].Some? then Parsed(ring.slots[n].value) else None
  {
    if n >= |ring.slots| || ring.slots[n].None? {
      return None;
    }
    buffer := Parsed(ring.slots[n].value);
  }

  // ----- Round trip -----

  lemma {:induction false} TerminatedFront(lines: seq<string>)
    requires lines != []
    ensures Terminated(lines) == lines[0] + "\n" + Terminated(lines[1..])
  {
    var init, last := lines[..|lines| - 1], lines[|lines| - 1];
    if init != [] {
      TerminatedFront(init);
      assert lines[1..][..|lines| - 2] == init[1..];
      assert (lines[0] + "\n" + Terminated(init[1..])) + last + "\n" == lines[0] + "\n" +
          (Terminated(init[1..]) + last + "\n");
    } else {
      assert Terminated([]) + lines[0] + "\n" == lines[0] + "\n" + "";
    }
  }

  /** Lines without line breaks are split off one by one, leaving an empty last piece. */
  lemma {:induction false} SplitTerminated(lines: seq<string>)
    requires forall line :: line in lines ==> '\n' !in line
    ensures Split(Terminated(lines), '\n') == lines + [""]
    decreases |lines|
  {
    if lines == [] {
      SplitWhole("", '\n');
    } else {
      var first, rest := lines[0], lines[1..];
      TerminatedFront(lines);
      assert first in lines;
      hide Split, Terminated;
      calc {
        Split(Terminated(lines), '\n');
        { assert first + "\n" + Terminated(rest) == first + ['\n'] + Terminated(rest); }
        Split(first + ['\n'] + Terminated(rest), '\n');
        { SplitFirst(first, Terminated(rest), '\n'); }
        [first] + Split(Terminated(rest), '\n');
        { SplitTerminated(rest); }
        [first] + (rest + [""]);
        { assert lines == [first] + rest; }
        lines + [""];
      }
    }
  }

  lemma SplitNFirst(piece: string, rest: string, sep: char, n: nat)
    requires sep !in piece && n >= 2
    ensures SplitN(piece + [sep] + rest, sep, n) == [piece] + SplitN(rest, sep, n - 1)
  {
    var s := piece + [sep] + rest;
    FindFirst(piece, rest, sep);
    assert s[..|piece|] == piece && s[|piece| + 1..] == rest;
  }

  lemma DecimalIsPlain(n: nat)
    ensures '\t' !in Decimal(n) && '\n' !in Decimal(n)
  {
    assert forall c :: c in Decimal(n) ==> IsDigit(c);
  }

  lemma HeaderSplits(d: Direction, name: string, count: nat)
    ensures SplitN(Header(d, name, count), '\t', 5)
            == ["FQLSHOWMORE", "v1", DirToken(d), Decimal(count), SafeName(name)]
    ensures '\n' !in Header(d, name, count)
  {
    DecimalIsPlain(count);
    hide Decimal, SafeName, SplitN, Find;
    var r3 := Decimal(count) + ['\t'] + SafeName(name);
    var r2 := DirToken(d) + ['\t'] + r3;
    var r1 := "v1" + ['\t'] + r2;
    assert Header(d, name, count) == "FQLSHOWMORE" + ['\t'] + r1;
    SplitNFirst("FQLSHOWMORE", r1, '\t', 5);
    SplitNFirst("v1", r2, '\t', 4);
    SplitNFirst(DirToken(d), r3, '\t', 3);
    SplitNFirst(Decimal(count), SafeName(name), '\t', 2);
    LastField(SafeName(name));
  }

  lemma LastField(s: string)
    ensures SplitN(s, '\t', 1) == [s]
  {
  }

  /** A buffer is read back whole: direction, name and every line. */
  lemma BufferRoundTrips(d: Direction, name: string, lines: seq<string>)
    requires forall line :: line in lines ==> '\n' !in line
    requires |lines| <= USIZE_MAX
    ensures Parsed(Stored(d, name, lines)) == Some(Buffer(d, SafeName(name), lines))
  {
    var header := Header(d, name, |lines|);
    HeaderSplits(d, name, |lines|);
    SplitTerminated(lines);
    FieldsOfBuffer(SplitN(header, '\t', 5), d, name, lines);
    hide Header, Split, SplitN, Terminated, FromFields;
    assert Stored(d, name, lines) == header + ['\n'] + Terminated(lines);
    SplitFirst(header, Terminated(lines), '\n');
    assert ([header] + (lines + [""]))[1..] == lines + [""];
  }

  lemma TokenRoundTrips(d: Direction)
    ensures DirFromToken(DirToken(d)) == d
  {
  }

  lemma FieldsOfBuffer(fields: seq<string>, d: Direction, name: string, lines: seq<string>)
    requires |lines| <= USIZE_MAX && |fields| == 5
    requires fields[0] == "FQLSHOWMORE" && fields[1] == "v1"
    requires fields[2] == DirToken(d) && fields[3] == Decimal(|lines|) && fields[4] == SafeName(name)
    ensures FromFields(fields, lines + [""]) == Some(Buffer(d, SafeName(name), lines))
  {
    ParseDecimal(|lines|, USIZE_MAX);
    TokenRoundTrips(d);
    hide ParseUnsigned, Decimal, SafeName, DirToken, DirFromToken;
    assert (lines + [""])[..|lines|] == lines;
  }

  // ----- A write cut short -----

  lemma {:induction false} CutHasFewPieces(lines: seq<string>, m: nat)
    requires forall line :: line in lines ==> '\n' !in line
    requires m < |Terminated(lines)|
    ensures |Split(Terminated(lines)[..m], '\n')| <= |lines|
    decreases |lines|
  {
    var first, rest := lines[0], lines[1..];
    assert first in lines;
    TerminatedFront(lines);
    var text := first + ['\n'] + Terminated(rest);
    assert Terminated(lines) == text;
    hide Terminated, Split;
    if m <= |first| {
      assert text[..m] == first[..m];
      assert forall c :: c in first[..m] ==> c in first;
      SplitWhole(first[..m], '\n');
    } else {
      var n := m - |first| - 1;
      assert text[..m] == first + ['\n'] + Terminated(rest)[..n];
      SplitFirst(first, Terminated(rest)[..n], '\n');
      CutHasFewPieces(rest, n);
    }
  }

  predicate LastIsEmpty(parts: seq<string>)
    requires parts != []
  {
    parts[|parts| - 1] == ""
  }

  lemma LastBehind(first: string, parts: seq<string>)
    requires parts != []
    ensures LastIsEmpty([first] + parts) == LastIsEmpty(parts)
  {
  }

  lemma {:induction false} LastPieceIsEmpty(s: string, sep: char)
    ensures LastIsEmpty(Split(s, sep)) <==> s == "" || s[|s| - 1] == sep
    decreases |s|
  {
    match Find(s, sep)
    case None =>
      SplitWhole(s, sep);
      assert s != "" ==> s[|s| - 1] in s;
    case Some(i) =>
      var before, after := s[..i], s[i + 1..];
      assert s == before + [sep] + after;
      SplitFirst(before, after, sep);
      hide Split, Find, LastIsEmpty;
      LastPieceIsEmpty(after, sep);
      LastBehind(before, Split(after, sep));
      assert after != "" ==> after[|after| - 1] == s[|s| - 1];
      assert after == "" ==> |s| - 1 == i;
  }

  lemma FieldsOfCut(fields: seq<string>, d: Direction, name: string, count: nat, body: seq<string>)
    requires |body| <= count <= USIZE_MAX && |fields| == 5
    requires fields[0] == "FQLSHOWMORE" && fields[1] == "v1"
    requires fields[2] == DirToken(d) && fields[3] == Decimal(count) && fields[4] == SafeName(name)
    ensures FromFields(fields, body) == Some(Buffer(d, SafeName(name), body))
  {
    ParseDecimal(count, USIZE_MAX);
    TokenRoundTrips(d);
    hide ParseUnsigned, Decimal, SafeName, DirToken, DirFromToken;
    assert body[..|body|] == body;
  }

  lemma StoredCut(d: Direction, name: string, lines: seq<string>, m: nat)
    requires m <= |Terminated(lines)|
    ensures |Header(d, name, |lines|)| + 1 + m <= |Stored(d, name, lines)|
    ensures Stored(d, name, lines)[..|Header(d, name, |lines|)| + 1 + m]
            == Header(d, name, |lines|) + "\n" + Terminated(lines)[..m]
  {
    hide Header, Terminated;
    var head := Header(d, name, |lines|) + "\n";
    assert Stored(d, name, lines) == head + Terminated(lines);
  }

  lemma ParsedCut(d: Direction, name: string, count: nat, kept: string)
    requires |Split(kept, '\n')| <= count <= USIZE_MAX
    ensures Parsed(Header(d, name, count) + "\n" + kept) == Some(Buffer(d, SafeName(name), Split(kept, '\n')))
  {
    var header := Header(d, name, count);
    HeaderSplits(d, name, count);
    FieldsOfCut(SplitN(header, '\t', 5), d, name, count, Split(kept, '\n'));
    hide Header, Split, SplitN, FromFields;
    assert header + "\n" + kept == header + ['\n'] + kept;
    SplitFirst(header, kept, '\n');
    assert ([header] + Split(kept, '\n'))[1..] == Split(kept, '\n');
  }

  /** A buffer file cut short after its header reads as what is there: the lines join to
      exactly the bytes kept. */
  lemma TornBufferIsPrefix(d: Direction, name: string, lines: seq<string>, m: nat)
    requires forall line :: line in lines ==> '\n' !in line
    requires |lines| <= USIZE_MAX && m < |Terminated(lines)|
    ensures |Header(d, name, |lines|)| + 1 + m <= |Stored(d, name, lines)|
    ensures var kept := Terminated(lines)[..m];
      && Stored(d, name, lines)[..|Header(d, name, |lines|)| + 1 + m] == Header(d, name, |lines|) + "\n" + kept
      && Parsed(Header(d, name, |lines|) + "\n" + kept) == Some(Buffer(d, SafeName(name), Split(kept, '\n')))
      && Join(Split(kept, '\n'), '\n') == kept
      && (LastIsEmpty(Split(kept, '\n')) <==> m == 0 || kept[m - 1] == '\n')
  {
    hide *;
    var kept := Terminated(lines)[..m];
    CutHasFewPieces(lines, m);
    LastPieceIsEmpty(kept, '\n');
    JoinSplit(kept, '\n');
    ParsedCut(d, name, |lines|, kept);
    StoredCut(d, name, lines, m);
  }

  /** Some line read is empty where the output has no empty line. */
  predicate Stray(lines: seq<string>, read: seq<string>)
  {
    exists j :: 0 <= j < |read| && read[j] == "" && !(j < |lines| && lines[j] == "")
  }

  /** What a cut leaves: whole lines, and the beginning of the next one. */
  predicate CutOff(lines: seq<string>, read: seq<string>, next: char)
  {
    var k := |read| - 1;
    && read != [] && k < |lines|
    && read[..k] == lines[..k]
    && read[k] <= lines[k]
    && next == (lines[k] + "\n")[|read[k]|]
  }

  lemma CutOffBehind(first: string, lines: seq<string>, read: seq<string>, next: char)
    requires CutOff(lines, read, next)
    ensures CutOff([first] + lines, [first] + read, next)
  {
    var k := |read|;
    assert ([first] + read)[..k] == [first] + read[..k - 1];
    assert ([first] + lines)[..k] == [first] + lines[..k - 1];
  }

  lemma CutInFirst(first: string, lines: seq<string>, m: nat, next: char)
    requires m <= |first| && next == (first + "\n")[m]
    ensures CutOff([first] + lines, [first[..m]], next)
  {
  }

  lemma {:induction false} CutLeaves(lines: seq<string>, m: nat)
    requires forall line :: line in lines ==> '\n' !in line
    requires m < |Terminated(lines)|
    ensures CutOff(lines, Split(Terminated(lines)[..m], '\n'), Terminated(lines)[m])
    decreases |lines|
  {
    var first, rest := lines[0], lines[1..];
    assert first in lines && lines == [first] + rest;
    TerminatedFront(lines);
    var text := first + ['\n'] + Terminated(rest);
    assert Terminated(lines) == text;
    hide Terminated, Split, CutOff;
    if m <= |first| {
      assert text[..m] == first[..m];
      assert forall c :: c in first[..m] ==> c in first;
      SplitWhole(first[..m], '\n');
      CutInFirst(first, rest, m, text[m]);
    } else {
      var n := m - |first| - 1;
      assert text[..m] == first + ['\n'] + Terminated(rest)[..n] && text[m] == Terminated(rest)[n];
      SplitFirst(first, Terminated(rest)[..n], '\n');
      CutLeaves(rest, n);
      CutOffBehind(first, rest, Split(Terminated(rest)[..n], '\n'), text[m]);
    }
  }

  lemma StrayIsLast(lines: seq<string>, read: seq<string>, next: char)
    requires CutOff(lines, read, next) && forall line :: line in lines ==> '\n' !in line
    ensures Stray(lines, read) <==> LastIsEmpty(read) && next != '\n'
  {
    var k := |read| - 1;
    forall j | 0 <= j < k ensures read[j] == lines[j] {
      assert read[..k][j] == lines[..k][j];
    }
    assert lines[k] in lines;
    assert lines[k] != "" ==> (lines[k] + "\n")[0] == lines[k][0] && lines[k][0] in lines[k];
  }

  /** A torn buffer yields a stray empty line exactly when the cut falls at the beginning of a
      line that is not itself empty. */
  lemma TornBufferStraysExactly(lines: seq<string>, m: nat)
    requires forall line :: line in lines ==> '\n' !in line
    requires m < |Terminated(lines)|
    ensures var t := Terminated(lines);
      Stray(lines, Split(t[..m], '\n')) <==> (m == 0 || t[m - 1] == '\n') && t[m] != '\n'
  {
    var t := Terminated(lines);
    CutLeaves(lines, m);
    hide Split, Terminated, CutOff, Stray, LastIsEmpty;
    LastPieceIsEmpty(t[..m], '\n');
    StrayIsLast(lines, Split(t[..m], '\n'), t[m]);
  }

  /** The two lines "a" and "b", cut after the first, read as "a" and an empty line; "a" and an
      empty line, cut there, read as themselves. */
  lemma StrayAfterFirstLine(lines: seq<string>, second: string)
    requires lines == ["a", second] && '\n' !in second
    ensures |Terminated(lines)| > 2
    ensures Stray(lines, Split(Terminated(lines)[..2], '\n')) <==> second != ""
  {
    TerminatedFront(lines);
    TerminatedFront([second]);
    assert lines[1..] == [second] && [second][1..] == [];
    assert Terminated([]) == "";
    assert Terminated(lines) == "a\n" + (second + "\n");
    assert second != "" ==> second[0] in second;
    hide Split, Stray, Terminated;
    TornBufferStraysExactly(lines, 2);
  }

  // ----- Finalising an output -----

  datatype Finalized = Finalized(text: string, buffered: bool)

  /** How many lines there are, and which of them are shown. */
  function HintCounts(total: nat, d: Direction, cap: nat, first: nat, last: nat): string
  {
    Decimal(total) + (" lines total; showing " + ((if d == Head then "first " else "last ")
    + (Decimal(cap) + (" (" + (Decimal(first) + ("-" + (Decimal(last) + "). ")))))))
  }

  /** How to see the rest. */
  function HintAdvice(total: nat): string
  {
    "SHOW MORE 1-" + (Decimal(total) + (ADVICE_ENDS + (ADVICE_FILTER + (ADVICE_NODE + (ADVICE_VERBS + ADVICE_BODY)))))
  }

  const ADVICE_ENDS := " for all, HEAD n | TAIL n for an end,"
  const ADVICE_FILTER := " or WHERE text MATCHES '\U{2026}' to filter."
  const ADVICE_NODE := " Cheaper: address the construct directly \U{2014}"
  const ADVICE_VERBS := " SHOW NODE '<node_id>' or SHOW"
  const ADVICE_BODY := " body OF 'symbol' DEPTH n.\""

  function Hint(total: nat, d: Direction, cap: nat, first: nat, last: nat): string
  {
    "\n" + ("\"show_more\",\"" + (HintCounts(total, d, cap, first, last) + HintAdvice(total)))
  }

  /** `finalize`; `None` is an output whose buffer could not be written. */
  method Finalize(ring: SlotFiles, rendered: string, name: string, d: Direction, cap: nat, outcome: Outcome)
    returns (result: Option<Finalized>)
    requires ring.slots != []
    modifies ring
    ensures var lines := Split(rendered, '\n');
      var shown := if cap >= 1 then cap else 1;
      if |lines| <= shown
      then ring.slots == old(ring.slots) && result == Some(Finalized(rendered, false))
      else
        && ring.slots == AfterWrite(old(ring.slots), Kept(Stored(d, name, lines), outcome))
        && result == (if outcome.Whole? then Some(Finalized(Inline(lines, d, shown), true)) else None)
  {
    hide Split, Join, Hint, Stored, Kept, AfterWrite;
    var shown := if cap >= 1 then cap else 1;
    var lines := Split(rendered, '\n');
    var total := |lines|;
    if total <= shown {
      return Some(Finalized(rendered, false));
    }
    WriteBuffer(ring, d, name, lines, outcome);
    if !outcome.Whole? {
      return None;
    }
    var slice, first, last;
    if d == Head {
      slice, first, last := lines[..shown], 1, shown;
    } else {
      slice, first, last := lines[total - shown..], total - shown + 1, total;
    }
    var text := Join(slice, '\n');
    text := text + Hint(total, d, shown, first, last);
    result := Some(Finalized(text, true));
  }

  /** The inline text of a buffered output. */
  function Inline(lines: seq<string>, d: Direction, shown: nat): string
    requires shown < |lines|
  {
    match d
    case Head => Join(lines[..shown], '\n') + Hint(|lines|, d, shown, 1, shown)
    case Tail => Join(lines[|lines| - shown..], '\n') + Hint(|lines|, d, shown, |lines| - shown + 1, |lines|)
  }

  function Texts(window: seq<(nat, string)>): seq<string>
  {
    seq(|window|, i requires 0 <= i < |window| => window[i].1)
  }

  lemma Regrouped(first: string, joined: string, rest: string, sep: char)
    ensures (first + [sep] + joined) + [sep] + rest == first + [sep] + (joined + [sep] + rest)
  {
  }

  lemma {:induction false} SplitJoinThen(parts: seq<string>, rest: string, sep: char)
    requires parts != [] && forall p :: p in parts ==> sep !in p
    ensures Split(Join(parts, sep) + [sep] + rest, sep) == parts + Split(rest, sep)
  {
    hide Split;
    var first, others := parts[0], parts[1..];
    assert first in parts && parts == [first] + others;
    if others == [] {
      SplitFirst(first, rest, sep);
    } else {
      JoinCons(first, others, sep);
      hide Join;
      Regrouped(first, Join(others, sep), rest, sep);
      SplitJoinThen(others, rest, sep);
      SplitFirst(first, Join(others, sep) + [sep] + rest, sep);
    }
  }

  lemma HintStartsLine(total: nat, d: Direction, cap: nat, first: nat, last: nat)
    ensures Hint(total, d, cap, first, last) != "" && Hint(total, d, cap, first, last)[0] == '\n'
  {
    hide Decimal;
  }

  /** Of texts without line breaks, none has one when joined. */
  lemma NoBreaks(a: string, b: string)
    ensures '\n' !in a && '\n' !in b <==> '\n' !in a + b
  {
    assert forall c :: c in a + b <==> c in a || c in b;
  }

  lemma CountsAreOneLine(total: nat, d: Direction, cap: nat, first: nat, last: nat)
    ensures '\n' !in HintCounts(total, d, cap, first, last)
  {
    DecimalIsPlain(total);
    DecimalIsPlain(cap);
    DecimalIsPlain(first);
    DecimalIsPlain(last);
    hide Decimal;
  }

  lemma EndsOnOneLine()
    ensures '\n' !in ADVICE_ENDS
  {
  }

  lemma FilterOnOneLine()
    ensures '\n' !in ADVICE_FILTER
  {
  }

  lemma NodeOnOneLine()
    ensures '\n' !in ADVICE_NODE
  {
  }

  lemma VerbsOnOneLine()
    ensures '\n' !in ADVICE_VERBS
  {
  }

  lemma BodyOnOneLine()
    ensures '\n' !in ADVICE_BODY
  {
  }

  lemma AdviceIsOneLine(total: nat)
    ensures '\n' !in HintAdvice(total)
  {
    EndsOnOneLine();
    FilterOnOneLine();
    NodeOnOneLine();
    VerbsOnOneLine();
    BodyOnOneLine();
    DecimalIsPlain(total);
    hide ADVICE_ENDS, ADVICE_FILTER, ADVICE_NODE, ADVICE_VERBS, ADVICE_BODY, Decimal;
    NoBreaks(ADVICE_VERBS, ADVICE_BODY);
    NoBreaks(ADVICE_NODE, ADVICE_VERBS + ADVICE_BODY);
    NoBreaks(ADVICE_FILTER, ADVICE_NODE + (ADVICE_VERBS + ADVICE_BODY));
    NoBreaks(ADVICE_ENDS, ADVICE_FILTER + (ADVICE_NODE + (ADVICE_VERBS + ADVICE_BODY)));
    NoBreaks(Decimal(total), ADVICE_ENDS + (ADVICE_FILTER + (ADVICE_NODE + (ADVICE_VERBS + ADVICE_BODY))));
    NoBreaks("SHOW MORE 1-",
      Decimal(total) + (ADVICE_ENDS + (ADVICE_FILTER + (ADVICE_NODE + (ADVICE_VERBS + ADVICE_BODY)))));
  }

  /** The hint is one line. */
  lemma HintIsOneLine(total: nat, d: Direction, cap: nat, first: nat, last: nat)
    ensures Hint(total, d, cap, first, last) != "" && '\n' !in Hint(total, d, cap, first, last)[1..]
  {
    CountsAreOneLine(total, d, cap, first, last);
    AdviceIsOneLine(total);
    hide HintCounts, HintAdvice;
    var rest := HintCounts(total, d, cap, first, last) + HintAdvice(total);
    NoBreaks(HintCounts(total, d, cap, first, last), HintAdvice(total));
    var tag := "\"show_more\",\"";
    NoBreaks(tag, rest);
    assert Hint(total, d, cap, first, last) == ['\n'] + (tag + rest);
  }

  /** The first lines of the inline text are exactly the window `HEAD cap` or `TAIL cap` of the
      buffer. */
  lemma InlineOpensWithWindow(lines: seq<string>, d: Direction, shown: nat)
    requires 0 < shown < |lines| && forall line :: line in lines ==> '\n' !in line
    ensures Texts(Window(lines, if d == Head then First(shown) else Last(shown)))
            <= Split(Inline(lines, d, shown), '\n')
    ensures |Window(lines, if d == Head then First(shown) else Last(shown))| == shown
    ensures |Split(Inline(lines, d, shown), '\n')| == shown + 1
    ensures var w := Window(lines, if d == Head then First(shown) else Last(shown));
      Inline(lines, d, shown) == Join(Texts(w), '\n') + Hint(|lines|, d, shown, w[0].0, w[shown - 1].0)
  {
    hide Join, Hint, Split;
    WindowIsSlice(lines, d, shown);
    WindowShows(lines, if d == Head then First(shown) else Last(shown));
    var slice := if d == Head then lines[..shown] else lines[|lines| - shown..];
    var first := if d == Head then 1 else |lines| - shown + 1;
    var last := if d == Head then shown else |lines|;
    var hint := Hint(|lines|, d, shown, first, last);
    HintStartsLine(|lines|, d, shown, first, last);
    HintIsOneLine(|lines|, d, shown, first, last);
    SplitWhole(hint[1..], '\n');
    assert hint == ['\n'] + hint[1..];
    assert Inline(lines, d, shown) == Join(slice, '\n') + hint;
    assert Join(slice, '\n') + hint == Join(slice, '\n') + ['\n'] + hint[1..];
    SplitJoinThen(slice, hint[1..], '\n');
  }

  lemma WindowIsSlice(lines: seq<string>, d: Direction, shown: nat)
    requires shown < |lines|
    ensures Texts(Window(lines, if d == Head then First(shown) else Last(shown)))
            == if d == Head then lines[..shown] else lines[|lines| - shown..]
  {
    var sel := if d == Head then First(shown) else Last(shown);
    var (lo, hi) := Bounds(|lines|, sel);
    assert Texts(Window(lines, sel)) == lines[lo..hi];
    assert lines[..shown] == lines[0..shown];
    assert lines[|lines| - shown..] == lines[|lines| - shown..|lines|];
  }

  /** Nothing of a buffered output is lost: its slot reads back to lines that join to the
      rendered text, character for character. */
  lemma BufferedOutputIsWhole(rendered: string, name: string, d: Direction)
    requires |Split(rendered, '\n')| <= USIZE_MAX
    ensures Parsed(Stored(d, name, Split(rendered, '\n'))) == Some(Buffer(d, SafeName(name), Split(rendered, '\n')))
    ensures Join(Split(rendered, '\n'), '\n') == rendered
  {
    BufferRoundTrips(d, name, Split(rendered, '\n'));
    JoinSplit(rendered, '\n');
  }

  // ----- The SHOW MORE ring -----

  /** One call of `finalize`. */
  datatype Output = Output(rendered: string, name: string, dir: Direction, cap: nat, outcome: Outcome)

  predicate OverCap(o: Output)
  {
    |Split(o.rendered, '\n')| > (if o.cap >= 1 then o.cap else 1)
  }

  function StoredFor(o: Output): Option<string>
  {
    Kept(Stored(o.dir, o.name, Split(o.rendered, '\n')), o.outcome)
  }

  /** The outputs of a run that were over their cap, most recent last. */
  function Buffered(run: seq<Output>): seq<Output>
  {
    if run == [] then []
    else Buffered(run[..|run| - 1]) + (if OverCap(run[|run| - 1]) then [run[|run| - 1]] else [])
  }

  function Contents(outputs: seq<Output>): seq<Option<string>>
  {
    seq(|outputs|, i requires 0 <= i < |outputs| => StoredFor(outputs[i]))
  }

  /** `SHOW MORE LAST-n` reads what is left of the n-th most recent output that was over its
      cap: the whole of it where it could be written. */
  lemma ShowMoreReadsHistory(run: seq<Output>, n: nat)
    requires n < RING_SIZE
    requires forall o :: o in Buffered(run) ==> |Split(o.rendered, '\n')| <= USIZE_MAX
    ensures var slot := AfterWrites(EmptyRing<string>(RING_SIZE), Contents(Buffered(run)))[n];
      var count := |Buffered(run)|;
      if n >= count then slot == None
      else
        var o := Buffered(run)[count - 1 - n];
        && slot == StoredFor(o)
        && (o.outcome.Whole? ==>
              && slot.Some? && Parsed(slot.value).Some?
              && Join(Parsed(slot.value).value.lines, '\n') == o.rendered
              && Parsed(slot.value).value.defaultDir == o.dir)
  {
    hide AfterWrites, Buffered, Split, Stored, Parsed, Join;
    RingIsHistory(RING_SIZE, Contents(Buffered(run)), n);
    var count := |Buffered(run)|;
    if n < count {
      var o := Buffered(run)[count - 1 - n];
      assert o in Buffered(run);
      BufferedOutputIsWhole(o.rendered, o.name, o.dir);
    }
  }
}
