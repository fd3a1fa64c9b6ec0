/** UNDO snapshots: a length-prefixed format for the pre-edit bytes of every file a mutation
    touched, and the ring of the ten most recent ones.

    A byte string is written as a string whose characters are the bytes; nothing depends on
    their codes staying below 256.  Ops and paths are the UTF-8 bytes of their text, on which
    the lossy decoding of the reader is the identity. */
module UndoSnapshot {
  import opened Wrappers
  import opened Text
  import opened Ring

  type Bytes = string

  /** A file to restore: its path relative to the worktree, and the bytes to write back. */
  datatype UndoFile = UndoFile(path: Bytes, bytes: Bytes)

  datatype Snapshot = Snapshot(op: Bytes, files: seq<UndoFile>)

  /** A touched file; `rel` is `None` for a path outside the worktree. */
  datatype Original = Original(rel: Option<Bytes>, bytes: Bytes)

  const RING_SIZE: nat := 10
  const HEADER_MARKER: Bytes := "FQLUNDO\tv1"

  // ----- Encoding -----

  function Sanitise(op: Bytes): (r: Bytes)
    ensures |r| == |op|
    ensures '\n' !in r && '\r' !in r && '\t' !in r
    ensures forall i :: 0 <= i < |op| ==> r[i] == op[i] || (op[i] in "\n\r\t" && r[i] == ' ')
  {
    seq(|op|, i requires 0 <= i < |op| =>
      if op[i] == '\n' || op[i] == '\r' || op[i] == '\t' then ' ' else op[i])
  }

  function Header(op: Bytes): Bytes
  {
    HEADER_MARKER + "\t" + Sanitise(op) + "\n"
  }

  function RecordLine(file: UndoFile): Bytes
  {
    Decimal(|file.path|) + "\t" + Decimal(|file.bytes|)
  }

  function Record(file: UndoFile): Bytes
  {
    RecordLine(file) + "\n" + file.path + file.bytes
  }

  function Records(files: seq<UndoFile>): Bytes
  {
    if files == [] then [] else Records(files[..|files| - 1]) + Record(files[|files| - 1])
  }

  /** The files inside the worktree, in the order the map yields them. */
  function Inside(originals: seq<Original>): seq<UndoFile>
  {
    if originals == [] then []
    else
      var last := originals[|originals| - 1];
      Inside(originals[..|originals| - 1]) + (if last.rel.Some? then [UndoFile(last.rel.value, last.bytes)] else [])
  }

  function Encoded(op: Bytes, files: seq<UndoFile>): Bytes
  {
    Header(op) + Records(files)
  }

  lemma OneMoreOriginal(op: Bytes, originals: seq<Original>, i: nat)
    requires i < |originals|
    ensures Encoded(op, Inside(originals[..i + 1])) ==
      if originals[i].rel.None? then Encoded(op, Inside(originals[..i]))
      else Encoded(op, Inside(originals[..i])) + Record(UndoFile(originals[i].rel.value, originals[i].bytes))
  {
    assert originals[..i + 1][..i] == originals[..i];
    var before := Inside(originals[..i]);
    if originals[i].rel.None? {
      assert before + [] == before;
    } else {
      var file := UndoFile(originals[i].rel.value, originals[i].bytes);
      assert (before + [file])[..|before|] == before;
      assert Header(op) + (Records(before) + Record(file)) == (Header(op) + Records(before)) + Record(file);
    }
  }

  method Encode(op: Bytes, originals: seq<Original>) returns (buf: Bytes)
    ensures buf == Encoded(op, Inside(originals))
  {
    var safeOp := Sanitise(op);
    buf := HEADER_MARKER + "\t" + safeOp + "\n";
    hide Decimal, Sanitise, Encoded, Inside;
    assert buf == Encoded(op, Inside(originals[..0])) by { EmptyEncoding(op); }
    for i := 0 to |originals|
      invariant buf == Encoded(op, Inside(originals[..i]))
    {
      OneMoreOriginal(op, originals, i);
      var original := originals[i];
      if original.rel.None? {
        continue;
      }
      var rel := original.rel.value;
      ghost var before := buf;
      buf := buf + (Decimal(|rel|) + "\t" + Decimal(|original.bytes|) + "\n");
      buf := buf + rel;
      buf := buf + original.bytes;
      assert buf == before + Record(UndoFile(rel, original.bytes));
    }
    assert originals[..|originals|] == originals;
  }

  lemma EmptyEncoding(op: Bytes)
    ensures Encoded(op, Inside([])) == Header(op)
  {
    assert Header(op) + [] == Header(op);
  }

  /** The snapshot holds the files inside the worktree, all of them, with their bytes. */
  lemma {:induction false} InsideIsWhole(originals: seq<Original>)
    ensures forall path, bytes ::
      multiset(Inside(originals))[UndoFile(path, bytes)] == multiset(originals)[Original(Some(path), bytes)]
    ensures |Inside(originals)| <= |originals|
  {
    if originals != [] {
      var init, last := originals[..|originals| - 1], originals[|originals| - 1];
      assert originals == init + [last];
      InsideIsWhole(init);
      if last.rel.Some? {
        assert Inside(originals) == Inside(init) + [UndoFile(last.rel.value, last.bytes)];
      } else {
        assert Inside(originals) == Inside(init) + [];
      }
    }
  }

  lemma {:induction false} InsideSplits(a: seq<Original>, b: seq<Original>)
    ensures Inside(a + b) == Inside(a) + Inside(b)
    decreases |b|
  {
    if b == [] {
      assert a + b == a && Inside(a) + [] == Inside(a);
    } else {
      var init := b[..|b| - 1];
      assert (a + b)[..|a + b| - 1] == a + init;
      InsideSplits(a, init);
    }
  }

  // ----- Decoding -----

  /** One record at the front of `rest`, and what follows it; `None` where the reader stops. */
  function NextRecord(rest: Bytes): (r: Option<(UndoFile, Bytes)>)
    ensures r.Some? ==> |r.value.1| < |rest|
  {
    match Find(rest, '\n')
    case None => None
    case Some(nl) =>
      var parts := Split(rest[..nl], '\t');
      if |parts| < 2 then None
      else
        var pathLen, byteLen := ParseUnsigned(parts[0], USIZE_MAX), ParseUnsigned(parts[1], USIZE_MAX);
        if pathLen.None? || byteLen.None? || nl + 1 + pathLen.value + byteLen.value > |rest| then None
        else
          var after := rest[nl + 1..];
          Some((UndoFile(after[..pathLen.value], after[pathLen.value..pathLen.value + byteLen.value]),
                after[pathLen.value + byteLen.value..]))
  }

  function DecodedRecords(rest: Bytes): seq<UndoFile>
    decreases |rest|
  {
    match NextRecord(rest)
    case None => []
    case Some((file, after)) => [file] + DecodedRecords(after)
  }

  /** `None` when the slot does not hold a snapshot. */
  function Decoded(raw: Bytes): Option<Snapshot>
  {
    match Find(raw, '\n')
    case None => None
    case Some(nl) =>
      var parts := Split(raw[..nl], '\t');
      if |parts| < 2 || parts[0] != "FQLUNDO" || parts[1] != "v1" then None
      else Some(Snapshot(if |parts| > 2 then parts[2] else "", DecodedRecords(raw[nl + 1..])))
  }

  /** One turn of the reader's loop, at cursor `pos`: the file read and the cursor after it. */
  method ReadRecord(raw: Bytes, pos: nat) returns (file: Option<UndoFile>, after: nat)
    requires pos < |raw|
    ensures match NextRecord(raw[pos..])
            case None => file == None && after == pos
            case Some((next, rest)) => file == Some(next) && pos < after <= |raw| && raw[after..] == rest
  {
    hide Find, Split, ParseUnsigned;
    file, after := None, pos;
    ghost var rest := raw[pos..];
    var relNl := Find(raw[pos..], '\n');
    if relNl.None? {
      return;
    }
    var line := raw[pos..pos + relNl.value];
    assert line == rest[..relNl.value];
    var lp := Split(line, '\t');
    if |lp| < 2 {
      return;
    }
    var pathLen, byteLen := ParseUnsigned(lp[0], USIZE_MAX), ParseUnsigned(lp[1], USIZE_MAX);
    if pathLen.None? || byteLen.None? {
      return;
    }
    var cursor := pos + relNl.value + 1;
    if cursor + pathLen.value + byteLen.value > |raw| {
      return;
    }
    CursorSlices(raw, pos, relNl.value, pathLen.value, byteLen.value);
    var path := raw[cursor..cursor + pathLen.value];
    cursor := cursor + pathLen.value;
    var bytes := raw[cursor..cursor + byteLen.value];
    file, after := Some(UndoFile(path, bytes)), cursor + byteLen.value;
  }

  method ReadSnapshot(raw: Bytes) returns (snapshot: Option<Snapshot>)
    ensures snapshot == Decoded(raw)
  {
    hide Find, Split, DecodedRecords;
    var nl := Find(raw, '\n');
    if nl.None? {
      return None;
    }
    var parts := Split(raw[..nl.value], '\t');
    if |parts| < 2 || parts[0] != "FQLUNDO" || parts[1] != "v1" {
      return None;
    }
    var op := if |parts| > 2 then parts[2] else "";
    var files := ReadRecords(raw, nl.value + 1);
    snapshot := Some(Snapshot(op, files));
  }

  /** The reader's loop. */
  method ReadRecords(raw: Bytes, start: nat) returns (files: seq<UndoFile>)
    requires start <= |raw|
    ensures files == DecodedRecords(raw[start..])
  {
    hide DecodedRecords;
    files := [];
    var pos := start;
    while pos < |raw|
      invariant pos <= |raw|
      invariant DecodedRecords(raw[start..]) == files + DecodedRecords(raw[pos..])
      decreases |raw| - pos
    {
      var file, after := ReadRecord(raw, pos);
      DecodeStep(raw[pos..]);
      if file.None? {
        assert files + [] == files;
        return;
      }
      Regrouped(files, file.value, DecodedRecords(raw[after..]));
      files := files + [file.value];
      pos := after;
    }
    NothingLeft(raw);
  }

  lemma DecodeStep(rest: Bytes)
    ensures DecodedRecords(rest) ==
      match NextRecord(rest) case None => [] case Some((file, after)) => [file] + DecodedRecords(after)
  {
  }

  lemma Regrouped(files: seq<UndoFile>, file: UndoFile, rest: seq<UndoFile>)
    ensures files + ([file] + rest) == (files + [file]) + rest
  {
  }

  lemma NothingLeft(raw: Bytes)
    ensures DecodedRecords(raw[|raw|..]) == []
  {
  }

  /** Slices taken at the cursor are the slices of what is left to read. */
  lemma CursorSlices(raw: Bytes, pos: nat, nl: nat, pathLen: nat, byteLen: nat)
    requires pos + nl + 1 + pathLen + byteLen <= |raw|
    ensures var from := pos + nl + 1;
            var after := raw[pos..][nl + 1..];
      && after[..pathLen] == raw[from..from + pathLen]
      && after[pathLen..pathLen + byteLen] == raw[from + pathLen..from + pathLen + byteLen]
      && after[pathLen + byteLen..] == raw[from + pathLen + byteLen..]
  {
  }

  // ----- Round trip -----

  /** Lengths are machine words. */
  predicate Sized(file: UndoFile)
  {
    |file.path| <= USIZE_MAX && |file.bytes| <= USIZE_MAX
  }

  lemma DigitsAreNotSeparators(n: nat)
    ensures '\t' !in Decimal(n) && '\n' !in Decimal(n)
  {
    assert forall c :: c in Decimal(n) ==> IsDigit(c);
  }

  lemma LineSplits(file: UndoFile)
    ensures '\n' !in RecordLine(file)
    ensures Split(RecordLine(file), '\t') == [Decimal(|file.path|), Decimal(|file.bytes|)]
  {
    var a, b := Decimal(|file.path|), Decimal(|file.bytes|);
    DigitsAreNotSeparators(|file.path|);
    DigitsAreNotSeparators(|file.bytes|);
    SplitFirst(a, b, '\t');
    SplitWhole(b, '\t');
  }

  lemma RecordLayout(file: UndoFile, tail: Bytes)
    ensures var line, rest, body := RecordLine(file), Record(file) + tail, file.path + file.bytes + tail;
      && rest == line + ['\n'] + body
      && rest[..|line|] == line && rest[|line| + 1..] == body
      && body[..|file.path|] == file.path
      && body[|file.path|..|file.path| + |file.bytes|] == file.bytes
      && body[|file.path| + |file.bytes|..] == tail
  {
    hide RecordLine;
    var line, rest, body := RecordLine(file), Record(file) + tail, file.path + file.bytes + tail;
    assert rest == line + ['\n'] + body;
  }

  /** A record is read back whole, whatever its bytes and whatever follows. */
  lemma RecordDecodes(file: UndoFile, tail: Bytes)
    requires Sized(file)
    ensures NextRecord(Record(file) + tail) == Some((file, tail))
  {
    LineSplits(file);
    RecordLayout(file, tail);
    FindFirst(RecordLine(file), file.path + file.bytes + tail, '\n');
    ParseDecimal(|file.path|, USIZE_MAX);
    ParseDecimal(|file.bytes|, USIZE_MAX);
    hide Find, Split, ParseUnsigned, Record, RecordLine, Decimal;
  }

  /** A record cut anywhere short of its end is not read at all. */
  lemma CutRecordStops(file: UndoFile, k: nat)
    requires Sized(file) && k < |Record(file)|
    ensures NextRecord(Record(file)[..k]) == None
  {
    var line, body := RecordLine(file), file.path + file.bytes;
    RecordIsLineAndBody(file);
    hide Record, RecordLine;
    if k <= |line| {
      assert Record(file)[..k] == line[..k];
      CutLineStops(file, k);
    } else {
      CutBodyStops(file, k - |line| - 1);
      CutSecond(line + ['\n'], body, k);
    }
  }

  lemma RecordIsLineAndBody(file: UndoFile)
    ensures Record(file) == (RecordLine(file) + ['\n']) + (file.path + file.bytes)
  {
    hide RecordLine;
  }

  lemma CutSecond(a: Bytes, b: Bytes, k: nat)
    requires |a| <= k <= |a| + |b|
    ensures (a + b)[..k] == a + b[..k - |a|]
  {
  }

  lemma CutLineStops(file: UndoFile, k: nat)
    requires k <= |RecordLine(file)|
    ensures NextRecord(RecordLine(file)[..k]) == None
  {
    LineSplits(file);
    hide RecordLine, Split, ParseUnsigned;
    assert forall c :: c in RecordLine(file)[..k] ==> c in RecordLine(file);
  }

  lemma CutBodyStops(file: UndoFile, m: nat)
    requires Sized(file) && m < |file.path| + |file.bytes|
    ensures NextRecord(RecordLine(file) + ['\n'] + (file.path + file.bytes)[..m]) == None
  {
    var line, body := RecordLine(file), (file.path + file.bytes)[..m];
    LineSplits(file);
    FindFirst(line, body, '\n');
    ParseDecimal(|file.path|, USIZE_MAX);
    ParseDecimal(|file.bytes|, USIZE_MAX);
    hide Find, Split, ParseUnsigned, RecordLine, Decimal;
    assert (line + ['\n'] + body)[..|line|] == line;
  }

  lemma {:induction false} RecordsFront(files: seq<UndoFile>)
    requires files != []
    ensures Records(files) == Record(files[0]) + Records(files[1..])
  {
    var init := files[..|files| - 1];
    if init != [] {
      RecordsFront(init);
      assert files[1..][..|files| - 2] == init[1..];
      assert (Record(files[0]) + Records(init[1..])) + Record(files[|files| - 1])
          == Record(files[0]) + (Records(init[1..]) + Record(files[|files| - 1]));
    } else {
      assert Records(files) == Records([]) + Record(files[0]) == Record(files[0]) + [];
    }
  }

  /** How many records fit whole in the first `k` bytes. */
  function WholeRecords(files: seq<UndoFile>, k: nat): (n: nat)
    ensures n <= |files|
  {
    if files == [] || k < |Record(files[0])| then 0
    else 1 + WholeRecords(files[1..], k - |Record(files[0])|)
  }

  lemma DecodeFront(file: UndoFile, tail: Bytes)
    requires Sized(file)
    ensures DecodedRecords(Record(file) + tail) == [file] + DecodedRecords(tail)
  {
    RecordDecodes(file, tail);
    hide Record;
  }

  lemma DecodeNothing(file: UndoFile, k: nat)
    requires Sized(file) && k < |Record(file)|
    ensures DecodedRecords(Record(file)[..k]) == []
  {
    CutRecordStops(file, k);
    hide Record;
  }

  lemma CutInFirst(file: UndoFile, rest: Bytes, k: nat)
    requires Sized(file) && k < |Record(file)|
    ensures DecodedRecords((Record(file) + rest)[..k]) == []
  {
    DecodeNothing(file, k);
    assert (Record(file) + rest)[..k] == Record(file)[..k];
  }

  lemma CutAfterFirst(file: UndoFile, rest: Bytes, k: nat)
    requires Sized(file) && |Record(file)| <= k <= |Record(file)| + |rest|
    ensures DecodedRecords((Record(file) + rest)[..k]) == [file] + DecodedRecords(rest[..k - |Record(file)|])
  {
    var m := k - |Record(file)|;
    DecodeFront(file, rest[..m]);
    assert (Record(file) + rest)[..k] == Record(file) + rest[..m];
  }

  lemma OneMoreWhole(files: seq<UndoFile>, n: nat)
    requires files != [] && n < |files|
    ensures [files[0]] + files[1..][..n] == files[..1 + n]
  {
  }

  lemma WholeRecordsStep(files: seq<UndoFile>, k: nat)
    requires files != []
    ensures WholeRecords(files, k)
            == if k < |Record(files[0])| then 0 else 1 + WholeRecords(files[1..], k - |Record(files[0])|)
  {
  }

  lemma {:induction false} CutRecordsDecode(files: seq<UndoFile>, k: nat)
    requires forall file :: file in files ==> Sized(file)
    requires k <= |Records(files)|
    ensures DecodedRecords(Records(files)[..k]) == files[..WholeRecords(files, k)]
    decreases |files|
  {
    if files == [] {
      assert Records(files)[..k] == [];
    } else {
      var first, rest := files[0], files[1..];
      assert first in files;
      RecordsFront(files);
      WholeRecordsStep(files, k);
      hide DecodedRecords, Record, Records, WholeRecords, Sized;
      if k < |Record(first)| {
        CutInFirst(first, Records(rest), k);
      } else {
        var m := k - |Record(first)|;
        CutAfterFirst(first, Records(rest), k);
        CutRecordsDecode(rest, m);
        OneMoreWhole(files, WholeRecords(rest, m));
      }
    }
  }

  lemma {:induction false} AllRecordsWhole(files: seq<UndoFile>)
    ensures WholeRecords(files, |Records(files)|) == |files|
  {
    if files != [] {
      RecordsFront(files);
      AllRecordsWhole(files[1..]);
    }
  }

  lemma HeaderDecodes(op: Bytes, rest: Bytes)
    ensures Decoded(Header(op) + rest) == Some(Snapshot(Sanitise(op), DecodedRecords(rest)))
  {
    hide DecodedRecords, Sanitise, Split, Find;
    var line := HEADER_MARKER + "\t" + Sanitise(op);
    var raw := Header(op) + rest;
    assert raw == line + ['\n'] + rest;
    FindFirst(line, rest, '\n');
    assert raw[..|line|] == line && raw[|line| + 1..] == rest;
    assert line == "FQLUNDO" + ['\t'] + ("v1" + ['\t'] + Sanitise(op));
    SplitFirst("FQLUNDO", "v1" + ['\t'] + Sanitise(op), '\t');
    SplitFirst("v1", Sanitise(op), '\t');
    SplitWhole(Sanitise(op), '\t');
  }

  /** Any truncation that keeps the header line decodes to the files that are still whole: a
      prefix of those written. */
  lemma TruncatedSnapshotIsPrefix(op: Bytes, files: seq<UndoFile>, k: nat)
    requires forall file :: file in files ==> Sized(file)
    requires |Header(op)| <= k <= |Encoded(op, files)|
    ensures Decoded(Encoded(op, files)[..k])
            == Some(Snapshot(Sanitise(op), files[..WholeRecords(files, k - |Header(op)|)]))
  {
    hide Header, Records, WholeRecords, DecodedRecords, Decoded, Sanitise;
    var n := k - |Header(op)|;
    assert Encoded(op, files)[..k] == Header(op) + Records(files)[..n];
    HeaderDecodes(op, Records(files)[..n]);
    CutRecordsDecode(files, n);
  }

  /** What is written is read back: the sanitised op and the same files, for arbitrary bytes. */
  lemma SnapshotRoundTrips(op: Bytes, files: seq<UndoFile>)
    requires forall file :: file in files ==> Sized(file)
    ensures Decoded(Encoded(op, files)) == Some(Snapshot(Sanitise(op), files))
  {
    TruncatedSnapshotIsPrefix(op, files, |Encoded(op, files)|);
    AllRecordsWhole(files);
    assert Encoded(op, files)[..|Encoded(op, files)|] == Encoded(op, files);
    assert files[..|files|] == files;
  }

  // ----- The UNDO ring -----

  /** One call of `write_snapshot`, and how writing the slot file ended. */
  datatype Mutation = Mutation(op: Bytes, originals: seq<Original>, outcome: Outcome)

  method WriteSnapshot(ring: SlotFiles, op: Bytes, originals: seq<Original>, outcome: Outcome)
    requires ring.slots != []
    modifies ring
    ensures ring.slots == (if originals == [] then old(ring.slots)
                           else AfterWrite(old(ring.slots), Kept(Encoded(op, Inside(originals)), outcome)))
  {
    if originals == [] {
      return;
    }
    var buf := Encode(op, originals);
    ring.Write(buf, outcome);
  }

  /** The contents written by a run of mutations; those that touched nothing write nothing. */
  function Written(run: seq<Mutation>): seq<Option<Bytes>>
  {
    if run == [] then []
    else
      var last := run[|run| - 1];
      Written(run[..|run| - 1])
      + (if last.originals == [] then []
         else [Kept(Encoded(last.op, Inside(last.originals)), last.outcome)])
  }

  /** The mutations that had something to save, most recent last. */
  function Saving(run: seq<Mutation>): seq<Mutation>
  {
    if run == [] then []
    else Saving(run[..|run| - 1]) + (if run[|run| - 1].originals == [] then [] else [run[|run| - 1]])
  }

  lemma {:induction false} WrittenPerSaving(run: seq<Mutation>)
    ensures |Written(run)| == |Saving(run)|
    ensures forall i :: 0 <= i < |Saving(run)| ==>
      var m := Saving(run)[i]; m in run && Written(run)[i] == Kept(Encoded(m.op, Inside(m.originals)), m.outcome)
  {
    if run != [] {
      WrittenPerSaving(run[..|run| - 1]);
    }
  }

  lemma {:induction false} InsideIsSized(originals: seq<Original>, file: UndoFile)
    requires forall o :: o in originals && o.rel.Some? ==> Sized(UndoFile(o.rel.value, o.bytes))
    requires file in Inside(originals)
    ensures Sized(file)
  {
    if originals != [] {
      var last := originals[|originals| - 1];
      assert last in originals;
      if file in Inside(originals[..|originals| - 1]) {
        InsideIsSized(originals[..|originals| - 1], file);
      }
    }
  }

  predicate SizedRun(run: seq<Mutation>)
  {
    forall m, o :: m in run && o in m.originals && o.rel.Some? ==> Sized(UndoFile(o.rel.value, o.bytes))
  }

  /** What a mutation left behind reads as: everything it saved if its write went through, the
      files whole in it if the write was cut short after the header, and no snapshot
      otherwise. */
  function ReadsAs(m: Mutation): Option<Snapshot>
  {
    var files := Inside(m.originals);
    var header, length := |Header(m.op)|, |Encoded(m.op, files)|;
    match m.outcome
    case Whole => Some(Snapshot(Sanitise(m.op), files))
    case Missing => None
    case Torn(k) =>
      if k < header then None
      else Some(Snapshot(Sanitise(m.op), files[..WholeRecords(files, Min(k, length) - header)]))
  }

  lemma CutHeaderIsNoSnapshot(op: Bytes, files: seq<UndoFile>, k: nat)
    requires k < |Header(op)|
    ensures Decoded(Encoded(op, files)[..k]) == None
  {
    hide Sanitise, Records;
    var line := HEADER_MARKER + "\t" + Sanitise(op);
    assert Header(op) == line + "\n" && k <= |line|;
    assert '\n' !in line;
    assert Encoded(op, files)[..k] == line[..k];
    assert forall c :: c in line[..k] ==> c in line;
  }

  lemma KeptReadsAs(m: Mutation)
    requires forall file :: file in Inside(m.originals) ==> Sized(file)
    ensures var kept := Kept(Encoded(m.op, Inside(m.originals)), m.outcome);
      (if kept.Some? then Decoded(kept.value) else None) == ReadsAs(m)
  {
    hide Decoded, Inside, Sanitise, Records, WholeRecords, Header;
    var files := Inside(m.originals);
    assert |Header(m.op)| <= |Encoded(m.op, files)|;
    match m.outcome
    case Whole => SnapshotRoundTrips(m.op, files);
    case Missing =>
    case Torn(k) =>
      hide Encoded;
      if k < |Header(m.op)| {
        CutHeaderIsNoSnapshot(m.op, files, k);
      } else {
        TruncatedSnapshotIsPrefix(m.op, files, Min(k, |Encoded(m.op, files)|));
      }
  }

  /** `UNDO LAST-n` reads what the n-th most recent mutation that touched a file left: after any
      run, slot n of ten decodes to that mutation's sanitised op and its files inside the
      worktree, to a prefix of them or nothing where its write failed, and there is no snapshot
      where there was no such mutation. */
  lemma UndoReadsHistory(run: seq<Mutation>, n: nat)
    requires n < RING_SIZE && SizedRun(run)
    ensures var slot := AfterWrites(EmptyRing<Bytes>(RING_SIZE), Written(run))[n];
      (if slot.Some? then Decoded(slot.value) else None)
      == (if n < |Saving(run)| then ReadsAs(Saving(run)[|Saving(run)| - 1 - n]) else None)
  {
    hide Decoded, Encoded, Inside, AfterWrites, Written, Saving, ReadsAs;
    RingIsHistory(RING_SIZE, Written(run), n);
    WrittenPerSaving(run);
    if n < |Saving(run)| {
      var m := Saving(run)[|Saving(run)| - 1 - n];
      forall file | file in Inside(m.originals) ensures Sized(file) {
        InsideIsSized(m.originals, file);
      }
      KeptReadsAs(m);
    }
  }
}
