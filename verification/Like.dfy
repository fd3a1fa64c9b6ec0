/** SQL `LIKE`: the dynamic-programming matcher, what a pattern means, and the literal runs
    extracted from a pattern to prefilter candidates. */
module Like {

  // ----- ASCII case folding -----

  function FoldChar(c: char): char
  {
    if 'A' <= c <= 'Z' then c - 'A' + 'a' else c
  }

  function Fold(s: string): (r: string)
    ensures |r| == |s|
    ensures forall i :: 0 <= i < |s| ==> r[i] == FoldChar(s[i])
  {
    seq(|s|, i requires 0 <= i < |s| => FoldChar(s[i]))
  }

  // ----- What a pattern means -----

  /** The stretch of text one pattern character stands for. */
  predicate Fits(piece: string, p: char)
  {
    if p == '%' then true
    else if p == '_' then |piece| == 1
    else piece == [p]
  }

  function Concat(pieces: seq<string>): string
  {
    if pieces == [] then "" else Concat(pieces[..|pieces| - 1]) + pieces[|pieces| - 1]
  }

  /** `pieces` cuts `text` into one stretch for each character of the pattern. */
  predicate Cut(text: string, pattern: string, pieces: seq<string>)
  {
    && |pieces| == |pattern|
    && Concat(pieces) == text
    && forall i :: 0 <= i < |pattern| ==> Fits(pieces[i], pattern[i])
  }

  /** The text can be cut so that each pattern character gets what it asks for. */
  ghost predicate Means(text: string, pattern: string)
  {
    exists pieces :: Cut(text, pattern, pieces)
  }

  // ----- The same, on the text and pattern as written -----

  predicate IsLetter(c: char)
  {
    'a' <= c <= 'z' || 'A' <= c <= 'Z'
  }

  /** The same character, or the two cases of one ASCII letter. */
  predicate SameButCase(a: char, b: char)
  {
    a == b || (IsLetter(a) && IsLetter(b) && (a as int - b as int == 32 || b as int - a as int == 32))
  }

  /** The stretch of text one pattern character stands for, whatever the case. */
  predicate FitsAnyCase(piece: string, p: char)
  {
    if p == '%' then true
    else |piece| == 1 && (p == '_' || SameButCase(piece[0], p))
  }

  predicate CutAnyCase(text: string, pattern: string, pieces: seq<string>)
  {
    && |pieces| == |pattern|
    && Concat(pieces) == text
    && forall i :: 0 <= i < |pattern| ==> FitsAnyCase(pieces[i], pattern[i])
  }

  /** The text as written can be cut so that each character of the pattern as written gets what
      it asks for, but for case. */
  ghost predicate MatchesAnyCase(text: string, pattern: string)
  {
    exists pieces :: CutAnyCase(text, pattern, pieces)
  }

  /** Folding identifies the two cases of a letter and nothing else. */
  lemma FoldIdentifiesCases(a: char, b: char)
    ensures FoldChar(a) == FoldChar(b) <==> SameButCase(a, b)
  {
  }

  lemma FitsOfFold(piece: string, p: char)
    ensures Fits(Fold(piece), FoldChar(p)) <==> FitsAnyCase(piece, p)
  {
    if |piece| == 1 {
      FoldIdentifiesCases(piece[0], p);
      assert Fold(piece) == [FoldChar(piece[0])];
    }
  }

  lemma FoldConcat(a: string, b: string)
    ensures Fold(a + b) == Fold(a) + Fold(b)
  {
  }

  lemma FoldSplits(text: string, a: string, b: string)
    requires Fold(text) == a + b
    ensures |a| <= |text| && Fold(text[..|a|]) == a && Fold(text[|a|..]) == b
  {
    assert forall i :: 0 <= i < |a| ==> a[i] == Fold(text)[i];
    assert forall i :: 0 <= i < |b| ==> b[i] == Fold(text)[|a| + i];
  }

  lemma CutSnoc(text: string, pattern: string, raw: seq<string>, piece: string, p: char)
    requires CutAnyCase(text, pattern, raw) && FitsAnyCase(piece, p)
    ensures CutAnyCase(text + piece, pattern + [p], raw + [piece])
  {
    assert (raw + [piece])[..|raw|] == raw;
  }

  /** A cut of the folded text is one of the text, at the same places. */
  lemma {:induction false} UnfoldCut(text: string, pattern: string, pieces: seq<string>) returns (raw: seq<string>)
    requires Cut(Fold(text), Fold(pattern), pieces)
    ensures CutAnyCase(text, pattern, raw)
    decreases |pattern|
  {
    if pattern == "" {
      raw := [];
    } else {
      var n := |pattern| - 1;
      var before := Concat(pieces[..n]);
      var k := |before|;
      FoldSplits(text, before, pieces[n]);
      assert Fold(pattern[..n]) == Fold(pattern)[..n];
      assert Cut(Fold(text[..k]), Fold(pattern[..n]), pieces[..n]);
      FitsOfFold(text[k..], pattern[n]);
      hide Cut, Fits, FitsAnyCase, CutAnyCase, Concat;
      var init := UnfoldCut(text[..k], pattern[..n], pieces[..n]);
      CutSnoc(text[..k], pattern[..n], init, text[k..], pattern[n]);
      assert text == text[..k] + text[k..] && pattern == pattern[..n] + [pattern[n]];
      raw := init + [text[k..]];
    }
  }

  lemma {:induction false} FoldCut(text: string, pattern: string, raw: seq<string>) returns (pieces: seq<string>)
    requires CutAnyCase(text, pattern, raw)
    ensures Cut(Fold(text), Fold(pattern), pieces)
    decreases |pattern|
  {
    if pattern == "" {
      pieces := [];
    } else {
      var n := |pattern| - 1;
      var before := Concat(raw[..n]);
      assert text == before + raw[n];
      assert CutAnyCase(before, pattern[..n], raw[..n]);
      var init := FoldCut(before, pattern[..n], raw[..n]);
      FitsOfFold(raw[n], pattern[n]);
      FoldConcat(before, raw[n]);
      pieces := init + [Fold(raw[n])];
      assert pieces[..n] == init;
    }
  }

  /** Matching the folded strings is matching as written, but for case. */
  lemma FoldedMeansAnyCase(text: string, pattern: string)
    ensures Means(Fold(text), Fold(pattern)) <==> MatchesAnyCase(text, pattern)
  {
    if Means(Fold(text), Fold(pattern)) {
      var pieces :| Cut(Fold(text), Fold(pattern), pieces);
      var raw := UnfoldCut(text, pattern, pieces);
    }
    if MatchesAnyCase(text, pattern) {
      var raw :| CutAnyCase(text, pattern, raw);
      var pieces := FoldCut(text, pattern, raw);
    }
  }

  lemma {:induction false} CutOfPlain(text: string, pattern: string, raw: seq<string>)
    requires CutAnyCase(text, pattern, raw) && '%' !in pattern && '_' !in pattern
    ensures |text| == |pattern| && forall i :: 0 <= i < |text| ==> SameButCase(text[i], pattern[i])
    decreases |pattern|
  {
    if pattern != "" {
      var n := |pattern| - 1;
      assert pattern[n] in pattern && FitsAnyCase(raw[n], pattern[n]);
      CutOfPlain(Concat(raw[..n]), pattern[..n], raw[..n]);
      assert text == Concat(raw[..n]) + raw[n];
    }
  }

  lemma {:induction false} PlainHasCut(text: string, pattern: string) returns (raw: seq<string>)
    requires |text| == |pattern| && forall i :: 0 <= i < |text| ==> SameButCase(text[i], pattern[i])
    ensures CutAnyCase(text, pattern, raw)
    decreases |text|
  {
    if text == "" {
      raw := [];
    } else {
      var n := |text| - 1;
      var init := PlainHasCut(text[..n], pattern[..n]);
      raw := init + [[text[n]]];
      assert raw[..n] == init && text == text[..n] + [text[n]];
    }
  }

  /** A pattern without wildcards matches exactly the texts that differ from it in case only. */
  lemma PlainPatternMatchesItself(text: string, pattern: string)
    requires '%' !in pattern && '_' !in pattern
    ensures MatchesAnyCase(text, pattern) <==>
            |text| == |pattern| && forall i :: 0 <= i < |text| ==> SameButCase(text[i], pattern[i])
  {
    if MatchesAnyCase(text, pattern) {
      var raw :| CutAnyCase(text, pattern, raw);
      CutOfPlain(text, pattern, raw);
    }
    if |text| == |pattern| && forall i :: 0 <= i < |text| ==> SameButCase(text[i], pattern[i]) {
      var raw := PlainHasCut(text, pattern);
    }
  }

  // ----- The recurrence the table fills in -----

  predicate Accepts(text: string, pattern: string)
    decreases |pattern|, |text|
  {
    if pattern == "" then text == ""
    else
      var p := pattern[|pattern| - 1];
      var shorter := pattern[..|pattern| - 1];
      if p == '%' then Accepts(text, shorter) || (text != "" && Accepts(text[..|text| - 1], pattern))
      else
        && text != ""
        && (p == '_' || p == text[|text| - 1])
        && Accepts(text[..|text| - 1], shorter)
  }

  lemma ExtendCut(text: string, pattern: string, pieces: seq<string>, piece: string, p: char)
    requires Cut(text, pattern, pieces) && Fits(piece, p)
    ensures Means(text + piece, pattern + [p])
  {
    assert (pieces + [piece])[..|pieces|] == pieces;
    assert Cut(text + piece, pattern + [p], pieces + [piece]);
  }

  lemma MeansSnoc(text: string, pattern: string, piece: string, p: char)
    requires Means(text, pattern) && Fits(piece, p)
    ensures Means(text + piece, pattern + [p])
  {
    var pieces :| Cut(text, pattern, pieces);
    ExtendCut(text, pattern, pieces, piece, p);
  }

  /** The stretch under a closing `%` can take in one more character. */
  lemma PercentGrows(text: string, c: char, shorter: string)
    requires Means(text, shorter + ['%'])
    ensures Means(text + [c], shorter + ['%'])
  {
    var n := |shorter|;
    var pieces :| Cut(text, shorter + ['%'], pieces);
    var before, last := Concat(pieces[..n]), pieces[n];
    assert Cut(before, shorter, pieces[..n]);
    ExtendCut(before, shorter, pieces[..n], last + [c], '%');
    assert before + (last + [c]) == text + [c];
  }

  lemma {:induction false} AcceptsMeans(text: string, pattern: string)
    requires Accepts(text, pattern)
    ensures Means(text, pattern)
    decreases |pattern|, |text|
  {
    if pattern == "" {
      assert Cut(text, pattern, []);
    } else {
      hide Means;
      var p, shorter := pattern[|pattern| - 1], pattern[..|pattern| - 1];
      assert pattern == shorter + [p];
      if p == '%' && Accepts(text, shorter) {
        AcceptsMeans(text, shorter);
        MeansSnoc(text, shorter, "", p);
        assert text + "" == text;
      } else {
        var init, c := text[..|text| - 1], text[|text| - 1];
        assert text == init + [c];
        if p == '%' {
          AcceptsMeans(init, pattern);
          PercentGrows(init, c, shorter);
        } else {
          AcceptsMeans(init, shorter);
          MeansSnoc(init, shorter, [c], p);
        }
      }
    }
  }

  lemma {:induction false} CutIsAccepted(text: string, pattern: string, pieces: seq<string>)
    requires Cut(text, pattern, pieces)
    ensures Accepts(text, pattern)
    decreases |pattern|, |text|
  {
    if pattern != "" {
      var n := |pattern| - 1;
      var p, shorter, last := pattern[n], pattern[..n], pieces[n];
      var before := Concat(pieces[..n]);
      assert text == before + last;
      assert Cut(before, shorter, pieces[..n]);
      if p == '%' && last != "" {
        var cut := pieces[n := last[..|last| - 1]];
        assert cut[..n] == pieces[..n];
        assert text[..|text| - 1] == before + last[..|last| - 1];
        assert Cut(text[..|text| - 1], pattern, cut);
        CutIsAccepted(text[..|text| - 1], pattern, cut);
      } else {
        CutIsAccepted(before, shorter, pieces[..n]);
        assert last == "" ==> before == text;
        assert last != "" ==> before == text[..|text| - 1];
      }
    }
  }

  /** The recurrence decides the meaning. */
  lemma AcceptsIffMeans(text: string, pattern: string)
    ensures Accepts(text, pattern) <==> Means(text, pattern)
  {
    if Accepts(text, pattern) {
      AcceptsMeans(text, pattern);
    }
    if Means(text, pattern) {
      var pieces :| Cut(text, pattern, pieces);
      CutIsAccepted(text, pattern, pieces);
    }
  }

  /** The recurrence between prefixes, as the table uses it. */
  lemma PrefixStep(t: string, p: string, i: nat, j: nat)
    requires i <= |t| && 1 <= j <= |p|
    ensures Accepts(t[..i], p[..j]) ==
            if p[j - 1] == '%' then Accepts(t[..i], p[..j - 1]) || (i > 0 && Accepts(t[..i - 1], p[..j]))
            else i > 0 && (p[j - 1] == '_' || p[j - 1] == t[i - 1]) && Accepts(t[..i - 1], p[..j - 1])
  {
    assert p[..j][..j - 1] == p[..j - 1];
    if i > 0 {
      assert t[..i][..i - 1] == t[..i - 1];
    }
  }

  // ----- The matcher -----

  predicate RowFilled(dp: array2<bool>, t: string, p: string, i: nat)
    requires dp.Length0 == |t| + 1 && dp.Length1 == |p| + 1 && i <= |t|
    reads dp
  {
    forall k :: 0 <= k <= |p| ==> dp[i, k] == Accepts(t[..i], p[..k])
  }

  method LikeMatch(text: string, pattern: string) returns (matched: bool)
    ensures matched <==> Means(Fold(text), Fold(pattern))
    ensures matched <==> MatchesAnyCase(text, pattern)
  {
    var t, p := Fold(text), Fold(pattern);
    FoldedMeansAnyCase(text, pattern);
    hide Accepts, Means, MatchesAnyCase;
    var dp := new bool[|t| + 1, |p| + 1]((_, _) => false);
    dp[0, 0] := true;
    NoPattern(t, p);
    for j := 1 to |p| + 1
      invariant forall k :: 0 <= k < j ==> dp[0, k] == Accepts(t[..0], p[..k])
      invariant forall k :: j <= k <= |p| ==> !dp[0, k]
      invariant forall h :: 1 <= h <= |t| ==> !dp[h, 0]
    {
      PrefixStep(t, p, 0, j);
      if p[j - 1] == '%' {
        dp[0, j] := dp[0, j - 1];
      }
    }
    for i := 1 to |t| + 1
      invariant RowFilled(dp, t, p, i - 1)
      invariant forall h :: i <= h <= |t| ==> !dp[h, 0]
    {
      for j := 1 to |p| + 1
        invariant RowFilled(dp, t, p, i - 1)
        invariant forall h :: i <= h <= |t| ==> !dp[h, 0]
        invariant forall k :: 0 <= k < j ==> dp[i, k] == Accepts(t[..i], p[..k])
      {
        PrefixStep(t, p, i, j);
        dp[i, j] := match p[j - 1] {
          case '%' => dp[i - 1, j] || dp[i, j - 1]
          case '_' => dp[i - 1, j - 1]
          case ch => ch == t[i - 1] && dp[i - 1, j - 1]
        };
      }
    }
    assert t[..|t|] == t && p[..|p|] == p;
    AcceptsIffMeans(t, p);
    matched := dp[|t|, |p|];
  }

  lemma NoPattern(t: string, p: string)
    ensures forall i :: 0 <= i <= |t| ==> (Accepts(t[..i], p[..0]) <==> i == 0)
  {
  }

  // ----- Literal runs -----

  /** Maximal runs of non-wildcard characters; `run` is the one being read. */
  function RunsFrom(pattern: string, run: string): seq<string>
    decreases |pattern|
  {
    if pattern == "" then (if run == "" then [] else [run])
    else if pattern[0] == '%' || pattern[0] == '_' then
      (if run == "" then [] else [run]) + RunsFrom(pattern[1..], "")
    else RunsFrom(pattern[1..], run + [pattern[0]])
  }

  function Runs(pattern: string): seq<string>
  {
    RunsFrom(pattern, "")
  }

  method LikePatternLiterals(pattern: string) returns (out: seq<string>)
    ensures out == Runs(pattern)
  {
    out := [];
    var cur := "";
    for i := 0 to |pattern|
      invariant out + RunsFrom(pattern[i..], cur) == Runs(pattern)
    {
      var ch := pattern[i];
      assert pattern[i..][0] == ch && pattern[i..][1..] == pattern[i + 1..];
      if ch == '%' || ch == '_' {
        if cur != "" {
          out := out + [cur];
          cur := "";
        }
      } else {
        cur := cur + [ch];
      }
    }
    if cur != "" {
      out := out + [cur];
    }
  }

  /** The runs occur in the text one after another, without overlap. */
  ghost predicate OccurInOrder(runs: seq<string>, text: string)
    decreases |runs|
  {
    runs == [] || exists k: nat :: OccursAt(runs[0], text, k) && OccurInOrder(runs[1..], text[k + |runs[0]|..])
  }

  predicate OccursAt(run: string, text: string, k: nat)
  {
    k + |run| <= |text| && text[k..k + |run|] == run
  }

  lemma {:induction false} ConcatFront(pieces: seq<string>)
    requires pieces != []
    ensures Concat(pieces) == pieces[0] + Concat(pieces[1..])
  {
    if |pieces| > 1 {
      var init := pieces[..|pieces| - 1];
      ConcatFront(init);
      assert init[1..] == pieces[1..][..|pieces| - 2];
    }
  }

  lemma OccurLater(runs: seq<string>, before: string, text: string)
    requires OccurInOrder(runs, text)
    ensures OccurInOrder(runs, before + text)
  {
    if runs != [] {
      var k: nat :| OccursAt(runs[0], text, k) && OccurInOrder(runs[1..], text[k + |runs[0]|..]);
      var whole := before + text;
      assert OccursAt(runs[0], whole, |before| + k);
      assert whole[|before| + k + |runs[0]|..] == text[k + |runs[0]|..];
    }
  }

  lemma OccurFirst(run: string, runs: seq<string>, text: string)
    requires OccurInOrder(runs, text)
    ensures OccurInOrder([run] + runs, run + text)
  {
    var whole := run + text;
    var all := [run] + runs;
    assert all[1..] == runs;
    assert OccursAt(all[0], whole, 0);
    assert whole[0 + |all[0]|..] == text;
  }

  /** `run` was read just before `pattern`, and stands just before `text`. */
  lemma {:induction false} CutHasRuns(text: string, pattern: string, pieces: seq<string>, run: string)
    requires Cut(text, pattern, pieces)
    ensures OccurInOrder(RunsFrom(pattern, run), run + text)
    decreases |pattern|
  {
    if pattern == "" {
      if run != "" {
        OccurFirst(run, [], text);
        assert [run] + [] == [run];
      }
    } else {
      ConcatFront(pieces);
      var piece, rest := pieces[0], Concat(pieces[1..]);
      assert Cut(rest, pattern[1..], pieces[1..]);
      if pattern[0] == '%' || pattern[0] == '_' {
        CutHasRuns(rest, pattern[1..], pieces[1..], "");
        assert "" + rest == rest;
        OccurLater(RunsFrom(pattern[1..], ""), piece, rest);
        if run == "" {
          assert RunsFrom(pattern, run) == RunsFrom(pattern[1..], "");
          assert run + text == text;
        } else {
          OccurFirst(run, RunsFrom(pattern[1..], ""), text);
        }
      } else {
        CutHasRuns(rest, pattern[1..], pieces[1..], run + piece);
        assert (run + piece) + rest == run + text;
      }
    }
  }

  function FoldAll(runs: seq<string>): seq<string>
  {
    if runs == [] then [] else [Fold(runs[0])] + FoldAll(runs[1..])
  }

  lemma {:induction false} RunsOfFold(pattern: string, run: string)
    ensures RunsFrom(Fold(pattern), Fold(run)) == FoldAll(RunsFrom(pattern, run))
    decreases |pattern|
  {
    if pattern == "" {
      if run != "" { assert [run][1..] == []; }
    } else {
      assert Fold(pattern)[1..] == Fold(pattern[1..]);
      if pattern[0] == '%' || pattern[0] == '_' {
        RunsOfFold(pattern[1..], "");
        assert Fold("") == "";
        var runs := RunsFrom(pattern[1..], "");
        assert ([run] + runs)[1..] == runs;
        assert FoldAll([run] + runs) == [Fold(run)] + FoldAll(runs);
        assert run == "" ==> [] + FoldAll(runs) == FoldAll(runs) && [] + runs == runs;
      } else {
        RunsOfFold(pattern[1..], run + [pattern[0]]);
        assert Fold(run + [pattern[0]]) == Fold(run) + [FoldChar(pattern[0])];
      }
    }
  }

  /** The prefilter drops no match: in any text the matcher accepts, the folded literal runs
      of the pattern occur in order and without overlap. */
  lemma PrefilterDropsNoMatch(text: string, pattern: string)
    requires Means(Fold(text), Fold(pattern))
    ensures OccurInOrder(FoldAll(Runs(pattern)), Fold(text))
  {
    var pieces :| Cut(Fold(text), Fold(pattern), pieces);
    CutHasRuns(Fold(text), Fold(pattern), pieces, "");
    RunsOfFold(pattern, "");
    assert Fold("") == "";
    assert "" + Fold(text) == Fold(text);
  }

  lemma MeansCons(piece: string, p: char, text: string, pattern: string)
    requires Fits(piece, p) && Means(text, pattern)
    ensures Means(piece + text, [p] + pattern)
  {
    var pieces :| Cut(text, pattern, pieces);
    ConcatFront([piece] + pieces);
    assert ([piece] + pieces)[1..] == pieces;
    assert Cut(piece + text, [p] + pattern, [piece] + pieces);
  }

  /** The remaining text can follow a leading `%` once some suffix of it follows the rest. */
  lemma PercentThen(text: string, skip: nat, rest: string)
    requires skip <= |text| && Means(text[skip..], rest)
    ensures Means(text, ['%'] + rest)
  {
    MeansCons(text[..skip], '%', text[skip..], rest);
    assert text == text[..skip] + text[skip..];
  }

  lemma {:induction false} RunsMakeMatch(text: string, pattern: string, run: string) returns (k: nat)
    requires pattern != "" && pattern[|pattern| - 1] == '%' && '_' !in pattern
    requires OccurInOrder(RunsFrom(pattern, run), text)
    ensures OccursAt(run, text, k) && Means(text[k + |run|..], pattern)
    decreases |pattern|
  {
    hide Means, OccursAt;
    var rest := pattern[1..];
    assert pattern == [pattern[0]] + rest;
    assert '_' !in rest && pattern[0] in pattern;
    if pattern[0] == '%' {
      var after;
      k, after := RunBeforePercent(text, run, RunsFrom(rest, ""));
      if rest == "" {
        EmptyMeans(after);
        PercentThen(after, |after|, rest);
      } else {
        var skip := RunsMakeMatch(after, rest, "");
        EmptyOccurs(after, skip);
        assert after[skip + |""|..] == after[skip..];
        PercentThen(after, skip, rest);
      }
    } else {
      k := RunsMakeMatch(text, rest, run + [pattern[0]]);
      SplitLastChar(text, run, pattern[0], k);
      MeansCons([pattern[0]], pattern[0], text[k + |run| + 1..], rest);
    }
  }

  lemma EmptyMeans(text: string)
    ensures Means(text[|text|..], "")
  {
    assert Cut(text[|text|..], "", []);
  }

  lemma EmptyOccurs(text: string, k: nat)
    requires OccursAt("", text, k)
    ensures k <= |text|
  {
  }

  lemma SplitLastChar(text: string, run: string, c: char, k: nat)
    requires OccursAt(run + [c], text, k)
    ensures OccursAt(run, text, k)
    ensures k + |run| < |text| && text[k + |run|..] == [c] + text[k + |run| + 1..]
  {
    var n := k + |run|;
    assert text[k..n + 1] == run + [c];
    assert text[k..n] == text[k..n + 1][..|run|] == run;
    assert text[n] == text[k..n + 1][|run|] == c;
  }

  lemma RunBeforePercent(text: string, run: string, runs: seq<string>) returns (k: nat, after: string)
    requires OccurInOrder((if run == "" then [] else [run]) + runs, text)
    ensures OccursAt(run, text, k) && after == text[k + |run|..]
    ensures OccurInOrder(runs, after)
  {
    if run == "" {
      assert [] + runs == runs;
      k, after := 0, text;
      assert text[0..] == text;
    } else {
      var all := [run] + runs;
      var at: nat :| OccursAt(all[0], text, at) && OccurInOrder(all[1..], text[at + |all[0]|..]);
      assert all[1..] == runs;
      k, after := at, text[at + |run|..];
    }
  }

  lemma SkipUnderPercent(before: string, text: string, pattern: string)
    requires pattern != "" && pattern[0] == '%' && Means(text, pattern)
    ensures Means(before + text, pattern)
  {
    var pieces :| Cut(text, pattern, pieces);
    var longer := pieces[0 := before + pieces[0]];
    ConcatFront(pieces);
    ConcatFront(longer);
    assert longer[1..] == pieces[1..];
    assert Cut(before + text, pattern, longer);
  }

  /** For a pattern that opens and closes with `%` and has no `_`, the literal runs say it
      all: occurring in order is not only necessary but sufficient. */
  lemma PrefilterIsExact(text: string, pattern: string)
    requires pattern != "" && pattern[0] == '%' && pattern[|pattern| - 1] == '%' && '_' !in pattern
    ensures Means(text, pattern) <==> OccurInOrder(Runs(pattern), text)
  {
    if Means(text, pattern) {
      var pieces :| Cut(text, pattern, pieces);
      CutHasRuns(text, pattern, pieces, "");
      assert "" + text == text;
    }
    if OccurInOrder(Runs(pattern), text) {
      var k := RunsMakeMatch(text, pattern, "");
      assert text[k + 0..] == text[k..];
      SkipUnderPercent(text[..k], text[k..], pattern);
      assert text[..k] + text[k..] == text;
    }
  }

  // ----- When runs occur verbatim -----

  predicate HasLetter(s: string)
  {
    exists i :: 0 <= i < |s| && IsLetter(s[i])
  }

  ghost predicate Occurs(run: string, text: string)
  {
    exists k: nat :: OccursAt(run, text, k)
  }

  /** In every text the matcher accepts, every literal run of the pattern occurs as written. */
  ghost predicate RunsOccurVerbatim(pattern: string)
  {
    forall text: string, run: string ::
      Means(Fold(text), Fold(pattern)) && run in Runs(pattern) ==> Occurs(run, text)
  }

  lemma FoldKeepsOthers(c: char, d: char)
    ensures !IsLetter(c) ==> (FoldChar(d) == c <==> d == c)
  {
  }

  /** A run without letters that occurs in the folded text occurs in the text. */
  lemma UnfoldOccurs(run: string, text: string, k: nat)
    requires !HasLetter(run)
    ensures OccursAt(run, Fold(text), k) <==> OccursAt(run, text, k)
  {
    if k + |run| <= |text| {
      var piece, folded := text[k..k + |run|], Fold(text)[k..k + |run|];
      forall i | 0 <= i < |run| ensures folded[i] == run[i] <==> piece[i] == run[i] {
        assert folded[i] == FoldChar(piece[i]);
        FoldKeepsOthers(run[i], piece[i]);
      }
    }
  }

  lemma {:induction false} UnfoldInOrder(runs: seq<string>, text: string)
    requires forall run :: run in runs ==> !HasLetter(run)
    requires OccurInOrder(runs, Fold(text))
    ensures OccurInOrder(runs, text)
    decreases |runs|
  {
    if runs != [] {
      assert runs[0] in runs;
      var k: nat :| OccursAt(runs[0], Fold(text), k) && OccurInOrder(runs[1..], Fold(text)[k + |runs[0]|..]);
      UnfoldOccurs(runs[0], text, k);
      assert Fold(text)[k + |runs[0]|..] == Fold(text[k + |runs[0]|..]);
      UnfoldInOrder(runs[1..], text[k + |runs[0]|..]);
    }
  }

  lemma {:induction false} RunsHaveNoLetter(pattern: string, run: string)
    requires !HasLetter(pattern) && !HasLetter(run)
    ensures forall r :: r in RunsFrom(pattern, run) ==> !HasLetter(r)
    decreases |pattern|
  {
    if pattern != "" {
      assert !HasLetter(pattern[1..]) by {
        assert forall i :: 0 <= i < |pattern| - 1 ==> pattern[1..][i] == pattern[i + 1];
      }
      assert !IsLetter(pattern[0]);
      RunsHaveNoLetter(pattern[1..], "");
      RunsHaveNoLetter(pattern[1..], run + [pattern[0]]);
    }
  }

  lemma {:induction false} FoldAllKeeps(runs: seq<string>)
    requires forall run :: run in runs ==> !HasLetter(run)
    ensures FoldAll(runs) == runs
  {
    if runs != [] {
      assert runs[0] in runs;
      FoldAllKeeps(runs[1..]);
      assert Fold(runs[0]) == runs[0] by {
        forall i | 0 <= i < |runs[0]| ensures FoldChar(runs[0][i]) == runs[0][i] {
          FoldKeepsOthers(runs[0][i], runs[0][i]);
        }
      }
    }
  }

  /** Without letters the runs occur as written, in order and without overlap. */
  lemma LetterlessRunsOccur(text: string, pattern: string)
    requires !HasLetter(pattern) && Means(Fold(text), Fold(pattern))
    ensures OccurInOrder(Runs(pattern), text)
  {
    PrefilterDropsNoMatch(text, pattern);
    RunsHaveNoLetter(pattern, "");
    FoldAllKeeps(Runs(pattern));
    UnfoldInOrder(Runs(pattern), text);
  }

  lemma {:induction false} InOrderOccurs(runs: seq<string>, text: string, run: string)
    requires OccurInOrder(runs, text) && run in runs
    ensures Occurs(run, text)
    decreases |runs|
  {
    var k: nat :| OccursAt(runs[0], text, k) && OccurInOrder(runs[1..], text[k + |runs[0]|..]);
    if run != runs[0] {
      InOrderOccurs(runs[1..], text[k + |runs[0]|..], run);
      var m: nat :| OccursAt(run, text[k + |runs[0]|..], m);
      assert text[k + |runs[0]|..][m..m + |run|] == text[k + |runs[0]| + m..k + |runs[0]| + m + |run|];
      assert OccursAt(run, text, k + |runs[0]| + m);
    }
  }

  /** The letter in the other case. */
  function OtherCase(c: char): (d: char)
    requires IsLetter(c)
    ensures d != c && FoldChar(d) == FoldChar(c)
  {
    if 'a' <= c <= 'z' then (c as int - 'a' as int + 'A' as int) as char
    else (c as int - 'A' as int + 'a' as int) as char
  }

  /** One character of a text that follows the pattern but avoids `c`. */
  function Avoiding(p: char, c: char): (piece: string)
    requires IsLetter(c)
    ensures c !in piece && Fits(Fold(piece), FoldChar(p))
  {
    if p == '%' then "" else if p == '_' then "1" else if p == c then [OtherCase(c)] else [p]
  }

  function Dodge(pattern: string, c: char): (text: string)
    requires IsLetter(c)
    ensures c !in text
  {
    if pattern == "" then "" else Avoiding(pattern[0], c) + Dodge(pattern[1..], c)
  }

  lemma {:induction false} DodgeMatches(pattern: string, c: char)
    requires IsLetter(c)
    ensures Means(Fold(Dodge(pattern, c)), Fold(pattern))
  {
    if pattern == "" {
      assert Cut("", "", []);
    } else {
      var piece, rest := Avoiding(pattern[0], c), Dodge(pattern[1..], c);
      DodgeMatches(pattern[1..], c);
      MeansCons(Fold(piece), FoldChar(pattern[0]), Fold(rest), Fold(pattern[1..]));
      FoldConcat(piece, rest);
      assert pattern == [pattern[0]] + pattern[1..];
      FoldConcat([pattern[0]], pattern[1..]);
      hide Means, Dodge, Avoiding;
      assert Fold([pattern[0]]) == [FoldChar(pattern[0])];
    }
  }

  lemma {:induction false} LetterIsInRun(pattern: string, run: string, c: char) returns (r: string)
    requires IsLetter(c) && c in pattern + run
    ensures r in RunsFrom(pattern, run) && c in r
    decreases |pattern|
  {
    if pattern == "" {
      r := run;
    } else if pattern[0] == '%' || pattern[0] == '_' {
      if c in run {
        r := run;
      } else {
        r := LetterIsInRun(pattern[1..], "", c);
      }
    } else {
      r := LetterIsInRun(pattern[1..], run + [pattern[0]], c);
    }
  }

  lemma OccursHolds(run: string, text: string, k: nat, c: char)
    requires OccursAt(run, text, k) && c in run
    ensures c in text
  {
    assert c in text[k..k + |run|];
  }

  /** The literal runs occur as written in every accepted text exactly when the pattern holds
      no ASCII letter. */
  lemma RunsOccurVerbatimExactly(pattern: string)
    ensures RunsOccurVerbatim(pattern) <==> !HasLetter(pattern)
  {
    if HasLetter(pattern) {
      var i :| 0 <= i < |pattern| && IsLetter(pattern[i]);
      var c := pattern[i];
      var text := Dodge(pattern, c);
      DodgeMatches(pattern, c);
      var run := LetterIsInRun(pattern, "", c);
      assert !Occurs(run, text) by {
        forall k: nat ensures !OccursAt(run, text, k) {
          if OccursAt(run, text, k) {
            OccursHolds(run, text, k, c);
          }
        }
      }
    } else {
      forall text: string, run: string | Means(Fold(text), Fold(pattern)) && run in Runs(pattern)
        ensures Occurs(run, text)
      {
        LetterlessRunsOccur(text, pattern);
        InOrderOccurs(Runs(pattern), text, run);
      }
    }
  }

  /** So under `A%` the run "A" is not in every accepted text. */
  lemma LetterRunCanMiss()
    ensures !RunsOccurVerbatim("A%")
  {
    assert IsLetter("A%"[0]);
    RunsOccurVerbatimExactly("A%");
  }
}
