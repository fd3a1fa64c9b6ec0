/** Text as the Rust standard library handles it: UTF-8 lengths, byte order of strings,
    printing and parsing of unsigned numbers, and splitting at a separator. */
module Text {
  import opened Wrappers

  const USIZE_MAX: nat := 0xFFFF_FFFF_FFFF_FFFF

  // ----- Lengths in bytes -----

  function CharLen(c: char): nat
  {
    if c < 0x80 as char then 1
    else if c < 0x800 as char then 2
    else if c as int < 0x1_0000 then 3
    else 4
  }

  /** `str::len`. */
  function Utf8Len(s: string): (n: nat)
    ensures |s| <= n <= 4 * |s|
  {
    if s == "" then 0 else CharLen(s[0]) + Utf8Len(s[1..])
  }

  predicate IsAscii(s: string)
  {
    forall c :: c in s ==> c < 0x80 as char
  }

  lemma {:induction false} AsciiLen(s: string)
    ensures Utf8Len(s) == |s| <==> IsAscii(s)
  {
    if s != "" {
      AsciiLen(s[1..]);
      assert s[0] in s && forall c :: c in s[1..] ==> c in s;
      assert forall c :: c in s ==> c == s[0] || c in s[1..];
      assert IsAscii(s) <==> CharLen(s[0]) == 1 && IsAscii(s[1..]);
    }
  }

  lemma {:induction false} Utf8LenSplit(a: string, b: string)
    ensures Utf8Len(a + b) == Utf8Len(a) + Utf8Len(b)
  {
    if a == "" {
      assert a + b == b;
    } else {
      assert (a + b)[1..] == a[1..] + b;
      Utf8LenSplit(a[1..], b);
    }
  }

  // ----- Order -----

  function CmpInt(a: int, b: int): Ordering
  {
    if a < b then Less else if a == b then Equal else Greater
  }

  /** `str::cmp`: byte order, which for UTF-8 is code point order. */
  function CmpStr(a: string, b: string): Ordering
  {
    if a == "" && b == "" then Equal
    else if a == "" then Less
    else if b == "" then Greater
    else if a[0] == b[0] then CmpStr(a[1..], b[1..])
    else if a[0] < b[0] then Less
    else Greater
  }

  lemma {:induction false} CmpStrFlips(a: string, b: string)
    ensures CmpStr(b, a) == CmpStr(a, b).Reverse()
  {
    if a != "" && b != "" && a[0] == b[0] {
      CmpStrFlips(a[1..], b[1..]);
    }
  }

  lemma {:induction false} CmpStrEqual(a: string, b: string)
    ensures CmpStr(a, b) == Equal <==> a == b
  {
    if a != "" && b != "" {
      CmpStrEqual(a[1..], b[1..]);
      assert a == [a[0]] + a[1..] && b == [b[0]] + b[1..];
    }
  }

  lemma {:induction false} CmpStrTransitive(a: string, b: string, c: string)
    requires CmpStr(a, b) != Greater && CmpStr(b, c) != Greater
    ensures CmpStr(a, c) != Greater
    ensures CmpStr(a, c) == Equal ==> CmpStr(a, b) == Equal && CmpStr(b, c) == Equal
  {
    if a != "" && b != "" && c != "" && a[0] == b[0] == c[0] {
      CmpStrTransitive(a[1..], b[1..], c[1..]);
    }
  }

  /** Dictionary order: `a` is cut short where `b` goes on, or has the smaller character where
      they first differ. */
  predicate StrBefore(a: string, b: string)
  {
    exists i :: 0 <= i <= |a| && PartsAt(a, b, i)
  }

  predicate PartsAt(a: string, b: string, i: nat)
    requires i <= |a|
  {
    i < |b| && a[..i] == b[..i] && (i == |a| || a[i] < b[i])
  }

  /** The comparison decides dictionary order. */
  lemma {:induction false} CmpStrMeans(a: string, b: string)
    ensures CmpStr(a, b) == Less <==> StrBefore(a, b)
    ensures CmpStr(a, b) == Equal <==> a == b
    decreases |a|
  {
    CmpStrEqual(a, b);
    if a != "" && b != "" && a[0] == b[0] {
      CmpStrMeans(a[1..], b[1..]);
      BeforeBehind(a, b);
    } else if b != "" && (a == "" || a[0] < b[0]) {
      assert PartsAt(a, b, 0);
    } else {
      assert forall i :: 0 < i <= |a| && i < |b| ==> a[..i][0] == a[0] && b[..i][0] == b[0];
    }
  }

  lemma BeforeBehind(a: string, b: string)
    requires a != "" && b != "" && a[0] == b[0]
    ensures StrBefore(a, b) <==> StrBefore(a[1..], b[1..])
  {
    if StrBefore(a, b) {
      var i :| 0 <= i <= |a| && PartsAt(a, b, i);
      assert a[1..][..i - 1] == a[..i][1..] && b[1..][..i - 1] == b[..i][1..];
      assert PartsAt(a[1..], b[1..], i - 1);
    }
    if StrBefore(a[1..], b[1..]) {
      var i :| 0 <= i <= |a[1..]| && PartsAt(a[1..], b[1..], i);
      assert a[..i + 1] == [a[0]] + a[1..][..i] && b[..i + 1] == [b[0]] + b[1..][..i];
      assert PartsAt(a, b, i + 1);
    }
  }

  /** Before or the same. */
  predicate StrUpTo(a: string, b: string)
  {
    a == b || StrBefore(a, b)
  }

  // ----- Numbers -----

  predicate IsDigit(c: char)
  {
    '0' <= c <= '9'
  }

  predicate AllDigits(s: string)
  {
    forall c :: c in s ==> IsDigit(c)
  }

  function DigitChar(d: nat): (c: char)
    requires d < 10
    ensures IsDigit(c) && c as int - '0' as int == d
  {
    ('0' as int + d) as char
  }

  /** `{n}`. */
  function Decimal(n: nat): (s: string)
    ensures s != "" && AllDigits(s)
  {
    if n < 10 then [DigitChar(n)] else Decimal(n / 10) + [DigitChar(n % 10)]
  }

  function DigitsValue(s: string): nat
    requires AllDigits(s)
  {
    if s == "" then 0
    else
      var last := s[|s| - 1];
      assert last in s;
      10 * DigitsValue(s[..|s| - 1]) + (last as int - '0' as int)
  }

  /** `str::parse` into an unsigned type with the given maximum: an optional `+`, at least one
      digit, nothing else, and no overflow. */
  function ParseUnsigned(s: string, max: nat): Option<nat>
  {
    var digits := if s != "" && s[0] == '+' then s[1..] else s;
    if digits == "" || !AllDigits(digits) || DigitsValue(digits) > max then None
    else Some(DigitsValue(digits))
  }

  lemma {:induction false} DecimalValue(n: nat)
    ensures DigitsValue(Decimal(n)) == n
  {
    if n < 10 {
      assert Decimal(n)[..0] == "";
    } else {
      DecimalValue(n / 10);
      assert Decimal(n)[..|Decimal(n)| - 1] == Decimal(n / 10);
    }
  }

  lemma ParseDecimal(n: nat, max: nat)
    requires n <= max
    ensures ParseUnsigned(Decimal(n), max) == Some(n)
  {
    DecimalValue(n);
    assert Decimal(n)[0] in Decimal(n);
  }

  /** `{n:0width}`. */
  function Padded(n: nat, width: nat): (s: string)
    ensures s != "" && AllDigits(s)
  {
    Zeros(if |Decimal(n)| < width then width - |Decimal(n)| else 0) + Decimal(n)
  }

  function Zeros(k: nat): (s: string)
    ensures AllDigits(s) && |s| == k
  {
    if k == 0 then "" else Zeros(k - 1) + "0"
  }

  lemma {:induction false} LeadingZeros(k: nat, s: string)
    requires AllDigits(s)
    ensures AllDigits(Zeros(k) + s) && DigitsValue(Zeros(k) + s) == DigitsValue(s)
  {
    if s == "" {
      assert Zeros(k) + s == Zeros(k);
      if k > 0 {
        LeadingZeros(k - 1, "");
        assert Zeros(k)[..k - 1] == Zeros(k - 1) + "";
      }
    } else {
      var init := s[..|s| - 1];
      LeadingZeros(k, init);
      assert (Zeros(k) + s)[..k + |s| - 1] == Zeros(k) + init;
    }
  }

  lemma ParsePadded(n: nat, width: nat, max: nat)
    requires n <= max
    ensures ParseUnsigned(Padded(n, width), max) == Some(n)
  {
    DecimalValue(n);
    LeadingZeros(if |Decimal(n)| < width then width - |Decimal(n)| else 0, Decimal(n));
    assert Padded(n, width)[0] in Padded(n, width);
  }

  lemma {:induction false} DigitsAreNumeral(d: string) returns (k: nat)
    requires d != "" && AllDigits(d)
    ensures d == Zeros(k) + Decimal(DigitsValue(d))
  {
    var init, c := d[..|d| - 1], d[|d| - 1];
    assert d == init + [c] && c in d && AllDigits(init);
    var v := c as int - '0' as int;
    assert DigitChar(v) == c;
    if init == "" {
      k := 0;
      assert DigitsValue(init) == 0;
      assert d == Zeros(0) + Decimal(v);
    } else {
      var j := DigitsAreNumeral(init);
      if DigitsValue(init) == 0 {
        k := j + 1;
        assert Decimal(0) == "0";
        assert init == Zeros(k);
        assert d == Zeros(k) + Decimal(v);
      } else {
        k := j;
        assert Decimal(DigitsValue(d)) == Decimal(DigitsValue(init)) + [c];
      }
    }
  }

  lemma NumeralValue(k: nat, n: nat)
    ensures AllDigits(Zeros(k) + Decimal(n)) && DigitsValue(Zeros(k) + Decimal(n)) == n
  {
    DecimalValue(n);
    LeadingZeros(k, Decimal(n));
  }

  /** `s` writes `n`, with or without a sign and leading zeros. */
  ghost predicate Writes(s: string, n: nat)
  {
    exists k: nat :: s == Zeros(k) + Decimal(n) || s == "+" + (Zeros(k) + Decimal(n))
  }

  /** What parses, exactly: the numerals of the numbers up to the maximum. */
  lemma ParsesExactly(s: string, max: nat, n: nat)
    ensures ParseUnsigned(s, max) == Some(n) <==> n <= max && Writes(s, n)
  {
    hide DigitsValue, Decimal, Zeros;
    var digits := if s != "" && s[0] == '+' then s[1..] else s;
    assert s != "" && s[0] == '+' ==> s == "+" + digits;
    if ParseUnsigned(s, max) == Some(n) {
      var k := DigitsAreNumeral(digits);
    }
    if Writes(s, n) {
      var k: nat :| s == Zeros(k) + Decimal(n) || s == "+" + (Zeros(k) + Decimal(n));
      NumeralValue(k, n);
      var numeral := Zeros(k) + Decimal(n);
      assert numeral[0] in numeral;
      assert ("+" + numeral)[1..] == numeral;
    }
  }

  // ----- Splitting -----

  /** Index of the first `c`. */
  function Find(s: string, c: char): (i: Option<nat>)
    ensures i.Some? ==> i.value < |s| && s[i.value] == c && c !in s[..i.value]
    ensures i.None? <==> c !in s
  {
    if s == "" then None
    else if s[0] == c then Some(0)
    else match Find(s[1..], c)
      case None => None
      case Some(i) =>
        assert s[..i + 1] == [s[0]] + s[1..][..i];
        Some(i + 1)
  }

  /** `str::split`. */
  function Split(s: string, sep: char): (parts: seq<string>)
    ensures parts != []
    ensures forall p :: p in parts ==> sep !in p
    decreases |s|
  {
    match Find(s, sep)
    case None => [s]
    case Some(i) => [s[..i]] + Split(s[i + 1..], sep)
  }

  function Join(parts: seq<string>, sep: char): string
  {
    if parts == [] then ""
    else if |parts| == 1 then parts[0]
    else parts[0] + [sep] + Join(parts[1..], sep)
  }

  lemma JoinCons(part: string, parts: seq<string>, sep: char)
    requires parts != []
    ensures Join([part] + parts, sep) == part + [sep] + Join(parts, sep)
  {
    assert ([part] + parts)[1..] == parts;
  }

  lemma {:induction false} JoinSplit(s: string, sep: char)
    ensures Join(Split(s, sep), sep) == s
    decreases |s|
  {
    match Find(s, sep)
    case None =>
    case Some(i) =>
      JoinSplit(s[i + 1..], sep);
      JoinCons(s[..i], Split(s[i + 1..], sep), sep);
      assert s == s[..i] + [sep] + s[i + 1..];
  }

  lemma {:induction false} FindFirst(piece: string, rest: string, sep: char)
    requires sep !in piece
    ensures Find(piece + [sep] + rest, sep) == Some(|piece|)
  {
    if piece != "" {
      assert piece[0] in piece;
      assert (piece + [sep] + rest)[1..] == piece[1..] + [sep] + rest;
      FindFirst(piece[1..], rest, sep);
    }
  }

  /** A piece without the separator, followed by one, is split off whole. */
  lemma SplitFirst(piece: string, rest: string, sep: char)
    requires sep !in piece
    ensures Split(piece + [sep] + rest, sep) == [piece] + Split(rest, sep)
  {
    var s := piece + [sep] + rest;
    FindFirst(piece, rest, sep);
    assert s[..|piece|] == piece && s[|piece| + 1..] == rest;
  }

  lemma SplitWhole(piece: string, sep: char)
    requires sep !in piece
    ensures Split(piece, sep) == [piece]
  {
  }
}
