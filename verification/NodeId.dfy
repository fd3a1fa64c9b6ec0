/** Node handles: the shortest unambiguous hash prefix of a file, handles built on it, and the
    line offsets written after them.  A hash is any 32 bytes. */
module NodeId {
  import opened Wrappers
  import opened Text

  newtype byte = x: int | 0 <= x < 256
  type Hash = h: seq<byte> | |h| == 32 witness seq(32, _ => 0)

  const DEFAULT_PREFIX: nat := 12
  const U32_MAX: nat := 0xFFFF_FFFF

  // ----- Segment prefixes -----

  /** Another file of the set shares the first `bytes` bytes of the hash. */
  predicate Collides(hash: Hash, all: seq<Hash>, bytes: nat)
    requires bytes <= 32
  {
    exists other :: other in all && other != hash && other[..bytes] == hash[..bytes]
  }

  /** The first even length from `len` on that no other hash collides with, or 64. */
  function LeastFrom(hash: Hash, all: seq<Hash>, len: nat): (r: nat)
    requires len <= 64 && len % 2 == 0
    ensures len <= r <= 64 && r % 2 == 0
    decreases 64 - len
  {
    if len == 64 || !Collides(hash, all, len / 2) then len else LeastFrom(hash, all, len + 2)
  }

  function PrefixLen(hash: Hash, all: seq<Hash>): (r: nat)
    ensures DEFAULT_PREFIX <= r <= 64 && r % 2 == 0
  {
    LeastFrom(hash, all, DEFAULT_PREFIX)
  }

  method AnyCollision(hash: Hash, all: seq<Hash>, bytes: nat) returns (collision: bool)
    requires bytes <= 32
    ensures collision <==> Collides(hash, all, bytes)
  {
    collision := false;
    for i := 0 to |all|
      invariant collision <==> Collides(hash, all[..i], bytes)
    {
      assert all[..i + 1] == all[..i] + [all[i]];
      if all[i] != hash && all[i][..bytes] == hash[..bytes] {
        collision := true;
      }
    }
    assert all[..|all|] == all;
  }

  method ShortestPrefixLen(hash: Hash, all: seq<Hash>) returns (hexLen: nat)
    ensures hexLen == PrefixLen(hash, all)
  {
    hide Collides;
    hexLen := DEFAULT_PREFIX;
    while hexLen < 64
      invariant hexLen <= 64 && hexLen % 2 == 0
      invariant LeastFrom(hash, all, hexLen) == PrefixLen(hash, all)
    {
      var collision := AnyCollision(hash, all, hexLen / 2);
      if !collision {
        return;
      }
      hexLen := hexLen + 2;
    }
  }

  lemma {:induction false} LeastFromIsLeast(hash: Hash, all: seq<Hash>, len: nat)
    requires len <= 64 && len % 2 == 0
    ensures !Collides(hash, all, LeastFrom(hash, all, len) / 2)
    ensures forall m :: len <= m < LeastFrom(hash, all, len) && m % 2 == 0 ==> Collides(hash, all, m / 2)
    decreases 64 - len
  {
    if len == 64 {
      assert forall other: Hash :: other in all ==> other[..32] == other;
      assert hash[..32] == hash;
    } else if Collides(hash, all, len / 2) {
      LeastFromIsLeast(hash, all, len + 2);
    }
  }

  /** The length is the least unambiguous even one from 12 on: no other hash of the set shares
      that prefix, and every shorter candidate is shared. */
  lemma PrefixLenIsLeastUnambiguous(hash: Hash, all: seq<Hash>)
    ensures var len := PrefixLen(hash, all);
      && !Collides(hash, all, len / 2)
      && forall m :: DEFAULT_PREFIX <= m < len && m % 2 == 0 ==> Collides(hash, all, m / 2)
  {
    LeastFromIsLeast(hash, all, DEFAULT_PREFIX);
  }

  // ----- Hexadecimal -----

  function HexDigit(d: nat): (c: char)
    requires d < 16
    ensures c != '.' && c != '('
    ensures c == "0123456789abcdef"[d]
  {
    if d < 10 then ('0' as int + d) as char else ('a' as int + (d - 10)) as char
  }

  function HexPrefix(hash: Hash, len: nat): (s: string)
    requires len <= 64
  {
    HexOf(hash[..len / 2])
  }

  function HexOf(bytes: seq<byte>): (s: string)
    ensures |s| == 2 * |bytes|
    ensures '.' !in s && '(' !in s
  {
    if bytes == [] then ""
    else
      var last := bytes[|bytes| - 1] as nat;
      HexOf(bytes[..|bytes| - 1]) + [HexDigit(last / 16), HexDigit(last % 16)]
  }

  lemma HexDigitInjective(a: nat, b: nat)
    requires a < 16 && b < 16 && HexDigit(a) == HexDigit(b)
    ensures a == b
  {
  }

  lemma {:induction false} HexInjective(a: seq<byte>, b: seq<byte>)
    requires HexOf(a) == HexOf(b)
    ensures a == b
    decreases |a|
  {
    assert |a| == |b|;
    if a != [] {
      var x, y, n := a[|a| - 1] as nat, b[|b| - 1] as nat, 2 * |a| - 2;
      assert HexOf(a)[..n] == HexOf(a[..|a| - 1]) && HexOf(b)[..n] == HexOf(b[..|b| - 1]);
      assert HexOf(a)[n] == HexDigit(x / 16) && HexOf(b)[n] == HexDigit(y / 16);
      assert HexOf(a)[n + 1] == HexDigit(x % 16) && HexOf(b)[n + 1] == HexDigit(y % 16);
      HexDigitInjective(x / 16, y / 16);
      HexDigitInjective(x % 16, y % 16);
      assert x == x / 16 * 16 + x % 16 && y == y / 16 * 16 + y % 16;
      HexInjective(a[..|a| - 1], b[..|b| - 1]);
      assert a == a[..|a| - 1] + [x as byte] && b == b[..|b| - 1] + [y as byte];
    }
  }

  lemma {:induction false} HexPrefixOfPrefix(bytes: seq<byte>, k: nat)
    requires k <= |bytes|
    ensures HexOf(bytes)[..2 * k] == HexOf(bytes[..k])
    decreases |bytes|
  {
    if k < |bytes| {
      var init := bytes[..|bytes| - 1];
      HexPrefixOfPrefix(init, k);
      assert init[..k] == bytes[..k];
      assert HexOf(bytes)[..2 * k] == HexOf(init)[..2 * k];
    } else {
      assert bytes[..k] == bytes;
      assert HexOf(bytes)[..2 * k] == HexOf(bytes);
    }
  }

  lemma PrefixMeansCollision(a: Hash, b: Hash, all: seq<Hash>, la: nat, lb: nat)
    requires la <= 64 && lb <= 64 && b in all && a != b
    requires HexPrefix(a, la) <= HexPrefix(b, lb)
    ensures Collides(a, all, la / 2)
  {
    var k := la / 2;
    HexPrefixOfPrefix(b[..lb / 2], k);
    assert b[..lb / 2][..k] == b[..k];
    HexInjective(a[..k], b[..k]);
  }

  /** Segment ids of different files of one set are prefix-free, even where their lengths
      differ: no id is the beginning of another. */
  lemma SegmentIdsArePrefixFree(a: Hash, b: Hash, all: seq<Hash>)
    requires a in all && b in all && a != b
    ensures !(HexPrefix(a, PrefixLen(a, all)) <= HexPrefix(b, PrefixLen(b, all)))
  {
    PrefixLenIsLeastUnambiguous(a, all);
    if HexPrefix(a, PrefixLen(a, all)) <= HexPrefix(b, PrefixLen(b, all)) {
      PrefixMeansCollision(a, b, all, PrefixLen(a, all), PrefixLen(b, all));
    }
  }

  // ----- Handles -----

  function FormatNodeId(hash: Hash, len: nat, ordinal: nat): string
    requires len <= 64
  {
    "n" + HexPrefix(hash, len) + "." + Padded(ordinal, 4)
  }

  /** `str::rsplit_once`. */
  function RSplitOnce(s: string, sep: char): (r: Option<(string, string)>)
    ensures r.None? <==> sep !in s
    ensures r.Some? ==> s == r.value.0 + [sep] + r.value.1 && sep !in r.value.1
  {
    if s == "" then None
    else
      var init, last := s[..|s| - 1], s[|s| - 1];
      assert s == init + [last];
      if last == sep then Some((init, ""))
      else match RSplitOnce(init, sep)
        case None => None
        case Some((a, b)) => Some((a, b + [last]))
  }

  /** `ordinal_of`; `None` for a handle without an ordinal. */
  function OrdinalOf(baseId: string): Option<nat>
  {
    match RSplitOnce(baseId, '.')
    case None => None
    case Some((_, ord)) => ParseUnsigned(ord, U32_MAX)
  }

  function BlockNodeId(ownId: string, blockOrd: string): string
  {
    var seg := match RSplitOnce(ownId, '.') case None => ownId case Some((s, _)) => s;
    seg + "." + blockOrd
  }

  function SurfaceBlockId(ownId: string, blockOrd: Option<string>, blockOff: Option<string>): string
  {
    if blockOrd.Some? && blockOff.Some? then BlockNodeId(ownId, blockOrd.value) + "(" + blockOff.value + ")"
    else ownId
  }

  /** A handle without an ordinal, of a file or a directory, has none to read, and a handle of a
      node in no block is shown as it is. */
  lemma BareHandles(id: string, ord: Option<string>, off: Option<string>)
    ensures '.' !in id ==> OrdinalOf(id) == None
    ensures ord.None? || off.None? ==> SurfaceBlockId(id, ord, off) == id
  {
  }

  /** Two ways of cutting a string at its last separator are one. */
  lemma LastCutIsUnique(a: string, b: string, c: string, d: string, sep: char)
    requires a + [sep] + b == c + [sep] + d && sep !in b && sep !in d
    ensures a == c && b == d
  {
    var s := a + [sep] + b;
    assert s[|a|] == sep && s[|c|] == sep;
    assert forall i :: |a| < i < |s| ==> s[i] == b[i - |a| - 1];
    assert forall i :: |c| < i < |s| ==> s[i] == d[i - |c| - 1];
    assert |a| == |c|;
    assert a == s[..|a|] && c == s[..|c|];
    assert b == s[|a| + 1..] && d == s[|c| + 1..];
  }

  lemma RSplitsAt(a: string, b: string, sep: char)
    requires sep !in b
    ensures RSplitOnce(a + [sep] + b, sep) == Some((a, b))
  {
    var s := a + [sep] + b;
    assert s[|a|] == sep;
    var (c, d) := RSplitOnce(s, sep).value;
    LastCutIsUnique(a, b, c, d, sep);
  }

  lemma PaddedHasNoDot(n: nat, width: nat)
    ensures '.' !in Padded(n, width) && '(' !in Padded(n, width)
  {
    assert forall c :: c in Padded(n, width) ==> IsDigit(c);
  }

  /** A handle is `n`, the hexadecimal prefix, a dot, and the ordinal in at least four digits. */
  lemma HandleLayout(hash: Hash, len: nat, ordinal: nat)
    requires len <= 64
    ensures exists digits ::
      && FormatNodeId(hash, len, ordinal) == "n" + HexPrefix(hash, len) + "." + digits
      && |digits| >= 4 && Writes(digits, ordinal) && (|digits| > 4 ==> digits == Decimal(ordinal))
  {
    hide HexPrefix, Decimal;
    var zeros := if |Decimal(ordinal)| < 4 then 4 - |Decimal(ordinal)| else 0;
    assert Padded(ordinal, 4) == Zeros(zeros) + Decimal(ordinal);
    assert zeros == 0 ==> Padded(ordinal, 4) == Decimal(ordinal);
  }

  /** `ordinal_of` inverts the printed ordinal. */
  lemma OrdinalRoundTrips(hash: Hash, len: nat, ordinal: nat)
    requires len <= 64 && ordinal <= U32_MAX
    ensures OrdinalOf(FormatNodeId(hash, len, ordinal)) == Some(ordinal)
  {
    PaddedHasNoDot(ordinal, 4);
    RSplitsAt("n" + HexPrefix(hash, len), Padded(ordinal, 4), '.');
    ParsePadded(ordinal, 4, U32_MAX);
  }

  /** A handle names one file of the set and one ordinal in it. */
  lemma NodeIdIsInjective(a: Hash, b: Hash, all: seq<Hash>, m: nat, n: nat)
    requires a in all && b in all && m <= U32_MAX && n <= U32_MAX
    requires FormatNodeId(a, PrefixLen(a, all), m) == FormatNodeId(b, PrefixLen(b, all), n)
    ensures a == b && m == n
  {
    OrdinalRoundTrips(a, PrefixLen(a, all), m);
    OrdinalRoundTrips(b, PrefixLen(b, all), n);
    var x, y := HexPrefix(a, PrefixLen(a, all)), HexPrefix(b, PrefixLen(b, all));
    PaddedHasNoDot(m, 4);
    LastCutIsUnique("n" + x, Padded(m, 4), "n" + y, Padded(n, 4), '.');
    assert ("n" + x)[1..] == x && ("n" + y)[1..] == y;
    if a != b {
      SegmentIdsArePrefixFree(a, b, all);
    }
  }

  // ----- Line offsets -----

  datatype OffsetError = Unclosed | Invalid(piece: string) | ZeroOffset | Inverted

  predicate IsWhitespace(c: char)
  {
    var u := c as int;
    || 0x9 <= u <= 0xD || u == 0x20 || u == 0x85 || u == 0xA0 || u == 0x1680
    || 0x2000 <= u <= 0x200A || u == 0x2028 || u == 0x2029 || u == 0x202F || u == 0x205F || u == 0x3000
  }

  /** `str::trim`. */
  function Trim(s: string): string
    decreases |s|
  {
    if s == "" then s
    else if IsWhitespace(s[0]) then Trim(s[1..])
    else if IsWhitespace(s[|s| - 1]) then Trim(s[..|s| - 1])
    else s
  }

  function ParseOffset(s: string): Result<nat, OffsetError>
  {
    match ParseUnsigned(Trim(s), U32_MAX)
    case Some(n) => Ok(n)
    case None => Err(Invalid(s))
  }

  function ParseRange(inner: string): Result<(nat, nat), OffsetError>
  {
    match Find(inner, '-')
    case None =>
      (match ParseOffset(inner)
       case Err(e) => Err(e)
       case Ok(n) => Ok((n, n)))
    case Some(dash) =>
      match ParseOffset(inner[..dash])
      case Err(e) => Err(e)
      case Ok(start) =>
        match ParseOffset(inner[dash + 1..])
        case Err(e) => Err(e)
        case Ok(end) => Ok((start, end))
  }

  function SplitNodeOffset(nodeId: string): Result<(string, Option<(nat, nat)>), OffsetError>
  {
    match Find(nodeId, '(')
    case None => Ok((nodeId, None))
    case Some(open) =>
      if nodeId[|nodeId| - 1] != ')' then Err(Unclosed)
      else
        match ParseRange(nodeId[open + 1..|nodeId| - 1])
        case Err(e) => Err(e)
        case Ok((start, end)) =>
          if start == 0 then Err(ZeroOffset)
          else if end < start then Err(Inverted)
          else Ok((nodeId[..open], Some((start, end))))
  }

  function OffsetLines(nodeLine: nat, nodeEndLine: nat, offset: Option<(nat, nat)>): Result<(int, int), ()>
  {
    match offset
    case None => Ok((nodeLine, nodeEndLine))
    case Some((a, b)) =>
      if nodeEndLine < nodeLine then Err(())
      else if b > nodeEndLine - nodeLine + 1 then Err(())
      else Ok((nodeLine + a - 1, nodeLine + b - 1))
  }

  predicate AllWhitespace(s: string)
  {
    forall c :: c in s ==> IsWhitespace(c)
  }

  /** `s` is `inner` with whitespace around it. */
  ghost predicate Surrounded(s: string, inner: string)
  {
    exists a, b :: AllWhitespace(a) && AllWhitespace(b) && s == a + inner + b
  }

  lemma SurroundedBefore(c: char, s: string, inner: string)
    requires IsWhitespace(c) && Surrounded(s, inner)
    ensures Surrounded([c] + s, inner)
  {
    hide IsWhitespace;
    var a, b :| AllWhitespace(a) && AllWhitespace(b) && s == a + inner + b;
    assert AllWhitespace([c] + a);
    assert [c] + s == ([c] + a) + inner + b;
  }

  lemma SurroundedAfter(s: string, inner: string, c: char)
    requires IsWhitespace(c) && Surrounded(s, inner)
    ensures Surrounded(s + [c], inner)
  {
    hide IsWhitespace;
    var a, b :| AllWhitespace(a) && AllWhitespace(b) && s == a + inner + b;
    assert AllWhitespace(b + [c]);
    assert s + [c] == a + inner + (b + [c]);
  }

  lemma SurroundedByNothing(s: string)
    ensures Surrounded(s, s)
  {
    assert AllWhitespace("") && s == "" + s + "";
  }

  /** Trimming takes the whitespace at both ends, all of it, and nothing else. */
  lemma {:induction false} TrimMeans(s: string)
    ensures Surrounded(s, Trim(s))
    ensures Trim(s) != "" ==> !IsWhitespace(Trim(s)[0]) && !IsWhitespace(Trim(s)[|Trim(s)| - 1])
    decreases |s|
  {
    hide IsWhitespace, Surrounded;
    if s == "" || !(IsWhitespace(s[0]) || IsWhitespace(s[|s| - 1])) {
      SurroundedByNothing(s);
    } else if IsWhitespace(s[0]) {
      TrimMeans(s[1..]);
      SurroundedBefore(s[0], s[1..], Trim(s));
      assert s == [s[0]] + s[1..];
    } else {
      var init, c := s[..|s| - 1], s[|s| - 1];
      TrimMeans(init);
      SurroundedAfter(init, Trim(s), c);
      assert s == init + [c];
    }
  }

  /** An offset is a numeral of 32 bits, whitespace around it aside. */
  predicate IsOffset(s: string, n: nat)
  {
    ParseOffset(s) == Ok(n)
  }

  lemma OffsetsParseExactly(s: string, n: nat)
    ensures IsOffset(s, n) <==> n <= U32_MAX && Writes(Trim(s), n)
  {
    ParsesExactly(Trim(s), U32_MAX, n);
    hide Trim, Writes;
  }

  /** The three shapes of a handle: without an offset, with one, and with a range. */
  ghost predicate HasShape(id: string, base: string, offset: Option<(nat, nat)>)
  {
    '(' !in base &&
    match offset
    case None => id == base
    case Some((a, b)) =>
      || (a == b && exists x :: '-' !in x && id == base + "(" + x + ")" && IsOffset(x, a))
      || exists x, y :: '-' !in x && id == base + "(" + (x + "-" + y) + ")" && IsOffset(x, a) && IsOffset(y, b)
  }

  /** A handle is accepted exactly when it has one of the three shapes, with offsets from 1 on
      and not inverted. */
  lemma HandlesAcceptedExactly(id: string, base: string, offset: Option<(nat, nat)>)
    ensures SplitNodeOffset(id) == Ok((base, offset)) <==>
      HasShape(id, base, offset) && (offset.Some? ==> 1 <= offset.value.0 <= offset.value.1)
  {
    if SplitNodeOffset(id) == Ok((base, offset)) {
      AcceptedHasShape(id, base, offset);
    }
    if HasShape(id, base, offset) && (offset.Some? ==> 1 <= offset.value.0 <= offset.value.1) {
      ShapedIsAccepted(id, base, offset);
    }
  }

  lemma RangeHasShape(inner: string, a: nat, b: nat)
    requires ParseRange(inner) == Ok((a, b))
    ensures (a == b && '-' !in inner && IsOffset(inner, a))
            || exists x, y :: '-' !in x && inner == x + "-" + y && IsOffset(x, a) && IsOffset(y, b)
  {
    hide ParseOffset;
    match Find(inner, '-')
    case None =>
    case Some(dash) =>
      var x, y := inner[..dash], inner[dash + 1..];
      assert inner == x + "-" + y;
      assert IsOffset(x, a) && IsOffset(y, b);
  }

  lemma AcceptedHasShape(id: string, base: string, offset: Option<(nat, nat)>)
    requires SplitNodeOffset(id) == Ok((base, offset))
    ensures HasShape(id, base, offset) && (offset.Some? ==> 1 <= offset.value.0 <= offset.value.1)
  {
    hide ParseRange, IsOffset;
    match Find(id, '(')
    case None =>
    case Some(open) =>
      var inner := id[open + 1..|id| - 1];
      assert id == base + "(" + inner + ")";
      RangeHasShape(inner, offset.value.0, offset.value.1);
  }

  lemma ShapedIsAccepted(id: string, base: string, offset: Option<(nat, nat)>)
    requires HasShape(id, base, offset) && (offset.Some? ==> 1 <= offset.value.0 <= offset.value.1)
    ensures SplitNodeOffset(id) == Ok((base, offset))
  {
    hide ParseOffset;
    if offset.Some? {
      var (a, b) := offset.value;
      if a == b && exists x :: '-' !in x && id == base + "(" + x + ")" && IsOffset(x, a) {
        var x :| '-' !in x && id == base + "(" + x + ")" && IsOffset(x, a);
        OffsetSuffixSplits(base, x);
      } else {
        var x, y :| '-' !in x && id == base + "(" + (x + "-" + y) + ")" && IsOffset(x, a) && IsOffset(y, b);
        var range := x + "-" + y;
        assert range == x + ['-'] + y;
        FindFirst(x, y, '-');
        assert range[..|x|] == x && range[|x| + 1..] == y;
        OffsetSuffixSplits(base, range);
      }
    }
  }

  lemma DecimalOffset(n: nat)
    requires n <= U32_MAX
    ensures '-' !in Decimal(n) && ParseOffset(Decimal(n)) == Ok(n)
  {
    var d := Decimal(n);
    assert forall c :: c in d ==> IsDigit(c);
    assert d[0] in d && d[|d| - 1] in d;
    ParseDecimal(n, U32_MAX);
  }

  lemma OffsetSuffixSplits(base: string, inner: string)
    requires '(' !in base
    ensures SplitNodeOffset(base + "(" + inner + ")") ==
      match ParseRange(inner)
      case Err(e) => Err(e)
      case Ok((start, end)) =>
        if start == 0 then Err(ZeroOffset) else if end < start then Err(Inverted) else Ok((base, Some((start, end))))
  {
    var id := base + "(" + inner + ")";
    assert id == base + ['('] + (inner + ")");
    FindFirst(base, inner + ")", '(');
    assert id[|base| + 1..|id| - 1] == inner;
    assert id[..|base|] == base;
  }

  /** A printed offset is read back: `base(n)` and `base(n-m)`. */
  lemma OffsetRoundTrips(base: string, n: nat, m: nat)
    requires '(' !in base && 1 <= n <= m <= U32_MAX
    ensures SplitNodeOffset(base + "(" + Decimal(n) + ")") == Ok((base, Some((n, n))))
    ensures SplitNodeOffset(base + "(" + (Decimal(n) + "-" + Decimal(m)) + ")") == Ok((base, Some((n, m))))
    ensures SplitNodeOffset(base) == Ok((base, None))
  {
    DecimalOffset(n);
    DecimalOffset(m);
    OffsetSuffixSplits(base, Decimal(n));
    var range := Decimal(n) + "-" + Decimal(m);
    assert range == Decimal(n) + ['-'] + Decimal(m);
    FindFirst(Decimal(n), Decimal(m), '-');
    assert range[..|Decimal(n)|] == Decimal(n) && range[|Decimal(n)| + 1..] == Decimal(m);
    OffsetSuffixSplits(base, range);
  }

  /** An offset that was accepted is 1-based and not inverted, its base holds no parenthesis,
      and it addresses lines of the node or nothing. */
  lemma AcceptedOffsetStaysInside(nodeId: string, nodeLine: nat, nodeEndLine: nat)
    requires SplitNodeOffset(nodeId).Ok?
    ensures var (base, offset) := SplitNodeOffset(nodeId).value;
      && '(' !in base && base <= nodeId
      && (offset.None? <==> '(' !in nodeId)
      && (offset.None? ==> base == nodeId && OffsetLines(nodeLine, nodeEndLine, offset) == Ok((nodeLine, nodeEndLine)))
      && (offset.Some? ==>
            var (a, b) := offset.value;
            var lines := OffsetLines(nodeLine, nodeEndLine, offset);
            && 1 <= a <= b <= U32_MAX
            && (lines.Ok? <==> nodeLine + b - 1 <= nodeEndLine)
            && (lines.Ok? ==> nodeLine <= lines.value.0 <= lines.value.1 <= nodeEndLine
                              && lines.value == (nodeLine + a - 1, nodeLine + b - 1)))
  {
    hide Trim, DigitsValue;
  }

  /** A block member's surfaced handle addresses its block, at its line in the block. */
  lemma SurfacedBlockSplits(hash: Hash, len: nat, ordinal: nat, blockOrdinal: nat, line: nat)
    requires len <= 64 && ordinal <= U32_MAX && blockOrdinal <= U32_MAX && 1 <= line <= U32_MAX
    ensures SplitNodeOffset(
              SurfaceBlockId(FormatNodeId(hash, len, ordinal), Some(Padded(blockOrdinal, 4)), Some(Decimal(line))))
            == Ok((FormatNodeId(hash, len, blockOrdinal), Some((line, line))))
  {
    PaddedHasNoDot(ordinal, 4);
    PaddedHasNoDot(blockOrdinal, 4);
    RSplitsAt("n" + HexPrefix(hash, len), Padded(ordinal, 4), '.');
    OffsetRoundTrips(FormatNodeId(hash, len, blockOrdinal), line, line);
  }
}
