/** Splicing identifier arguments one parameter after another against one simultaneous
    substitution: they agree for all arguments exactly when no placeholder can be put together
    from template text and an argument. */
module Substitution {
  import opened Wrappers
  import opened Text
  import opened Sorting
  import opened Template

  // ----- The simultaneous substitution -----

  /** The placeholder of `b` stands at the beginning of `text`. */
  predicate Hits(b: Binding, text: string)
  {
    b.kind == Ident && text != "" && text[0] == '$' && b.name <= text[1..]
  }

  /** `i` is the parameter to splice at the beginning of `text`: the longest name that stands
      there, the first declared among equals. */
  predicate IsLongestHit(bs: seq<Binding>, text: string, i: nat)
    requires i < |bs|
  {
    && Hits(bs[i], text)
    && forall j :: 0 <= j < |bs| && Hits(bs[j], text) ==>
         |bs[j].name| < |bs[i].name| || (|bs[j].name| == |bs[i].name| && i <= j)
  }

  function LongestHit(bs: seq<Binding>, text: string): (r: Option<nat>)
    ensures r.None? ==> forall j :: 0 <= j < |bs| ==> !Hits(bs[j], text)
    ensures r.Some? ==> r.value < |bs| && IsLongestHit(bs, text, r.value)
  {
    if bs == [] then None
    else
      assert forall j :: 1 <= j < |bs| ==> bs[j] == bs[1..][j - 1];
      match LongestHit(bs[1..], text)
      case None => if Hits(bs[0], text) then Some(0) else None
      case Some(i) =>
        if Hits(bs[0], text) && |bs[0].name| >= |bs[i + 1].name| then Some(0) else Some(i + 1)
  }

  /** The reference: one pass from the left, each placeholder replaced once by the argument of
      its longest name, and nothing that was put in is read again. */
  function Simultaneous(bs: seq<Binding>, text: string): string
    decreases |text|
  {
    if text == "" then ""
    else match LongestHit(bs, text)
      case None => [text[0]] + Simultaneous(bs, text[1..])
      case Some(i) => bs[i].arg + Simultaneous(bs, text[1 + |bs[i].name|..])
  }

  // ----- Longest first finds the longest -----

  function FirstHit(order: seq<Binding>, text: string): (r: Option<Binding>)
    ensures r.Some? ==> r.value in order && Hits(r.value, text)
    ensures r.None? ==> forall b :: b in order ==> !Hits(b, text)
  {
    if order == [] then None
    else if Hits(order[0], text) then Some(order[0])
    else FirstHit(order[1..], text)
  }

  predicate NoLonger(s: seq<Binding>, n: nat)
  {
    forall b :: b in s ==> Utf8Len(b.name) <= n
  }

  predicate LongestFirst(s: seq<Binding>)
  {
    s == [] || (NoLonger(s[1..], Utf8Len(s[0].name)) && LongestFirst(s[1..]))
  }

  lemma {:induction false} InsertKeepsLongestFirst(x: Binding, s: seq<Binding>)
    requires LongestFirst(s)
    ensures LongestFirst(Insert(LongerFirst, x, s))
  {
    hide Utf8Len;
    if s != [] {
      if LongerFirst(x, s[0]) != Greater {
        assert ([x] + s)[1..] == s;
      } else {
        InsertKeepsLongestFirst(x, s[1..]);
        InsertElements(LongerFirst, x, s[1..]);
        assert Insert(LongerFirst, x, s)[1..] == Insert(LongerFirst, x, s[1..]);
      }
    }
  }

  lemma {:induction false} SortIsLongestFirst(s: seq<Binding>)
    ensures LongestFirst(SortBy(LongerFirst, s))
  {
    if s != [] {
      SortIsLongestFirst(s[1..]);
      InsertKeepsLongestFirst(s[0], SortBy(LongerFirst, s[1..]));
    }
  }

  /** The better of a binding and a later one, if there is a later one. */
  function Better(x: Binding, rest: Option<Binding>, text: string): Option<Binding>
  {
    if !Hits(x, text) then rest
    else if rest.None? || Utf8Len(x.name) >= Utf8Len(rest.value.name) then Some(x)
    else rest
  }

  lemma HitIsNoLonger(s: seq<Binding>, text: string)
    requires s != [] && LongestFirst(s) && FirstHit(s, text).Some?
    ensures Utf8Len(FirstHit(s, text).value.name) <= Utf8Len(s[0].name)
  {
    assert forall b :: b in s ==> b == s[0] || b in s[1..];
  }

  lemma {:induction false} FirstHitOfInsert(x: Binding, s: seq<Binding>, text: string)
    requires LongestFirst(s)
    ensures FirstHit(Insert(LongerFirst, x, s), text) == Better(x, FirstHit(s, text), text)
  {
    hide Utf8Len, Hits;
    if s != [] {
      hide NoLonger;
      if FirstHit(s, text).Some? {
        HitIsNoLonger(s, text);
      }
      if LongerFirst(x, s[0]) != Greater {
        assert ([x] + s)[1..] == s;
      } else {
        FirstHitOfInsert(x, s[1..], text);
        assert Insert(LongerFirst, x, s)[1..] == Insert(LongerFirst, x, s[1..]);
      }
    }
  }

  /** Among prefixes of one text, longer in bytes is longer in characters. */
  lemma PrefixLengths(a: string, b: string, text: string)
    requires a <= text && b <= text
    ensures Utf8Len(a) >= Utf8Len(b) <==> |a| >= |b|
  {
    hide Utf8Len;
    if |a| >= |b| {
      assert a == b + a[|b|..];
      Utf8LenSplit(b, a[|b|..]);
    } else {
      assert b == a + b[|a|..];
      Utf8LenSplit(a, b[|a|..]);
    }
  }

  lemma HitLengths(a: Binding, b: Binding, text: string)
    requires Hits(a, text) && Hits(b, text)
    ensures Utf8Len(a.name) >= Utf8Len(b.name) <==> |a.name| >= |b.name|
  {
    PrefixLengths(a.name, b.name, text[1..]);
  }

  function Chosen(bs: seq<Binding>, text: string): Option<Binding>
  {
    match LongestHit(bs, text) case None => None case Some(i) => Some(bs[i])
  }

  lemma ChosenStep(bs: seq<Binding>, text: string)
    requires bs != []
    ensures Chosen(bs, text) == Better(bs[0], Chosen(bs[1..], text), text)
  {
    if Hits(bs[0], text) && Chosen(bs[1..], text).Some? {
      HitLengths(bs[0], Chosen(bs[1..], text).value, text);
    }
  }

  /** The first hit in the order of splicing is the longest hit in the order of declaration. */
  lemma {:induction false} SortedFirstIsLongest(bs: seq<Binding>, text: string)
    ensures FirstHit(Order(bs), text) == Chosen(bs, text)
  {
    if bs != [] {
      SortedFirstIsLongest(bs[1..], text);
      SortIsLongestFirst(bs[1..]);
      FirstHitOfInsert(bs[0], Order(bs[1..]), text);
      ChosenStep(bs, text);
    }
  }

  // ----- One pass in the order of splicing -----

  /** `Simultaneous`, choosing by the order of splicing. */
  function OnePass(order: seq<Binding>, text: string): string
    decreases |text|
  {
    if text == "" then ""
    else match FirstHit(order, text)
      case None => [text[0]] + OnePass(order, text[1..])
      case Some(b) => b.arg + OnePass(order, text[1 + |b.name|..])
  }

  lemma SimultaneousStep(bs: seq<Binding>, text: string)
    requires text != ""
    ensures Chosen(bs, text).Some? ==> 1 + |Chosen(bs, text).value.name| <= |text|
    ensures Simultaneous(bs, text) == match Chosen(bs, text)
      case None => [text[0]] + Simultaneous(bs, text[1..])
      case Some(b) => b.arg + Simultaneous(bs, text[1 + |b.name|..])
  {
  }

  lemma OnePassStep(order: seq<Binding>, text: string)
    requires text != ""
    ensures FirstHit(order, text).Some? ==> 1 + |FirstHit(order, text).value.name| <= |text|
    ensures OnePass(order, text) == match FirstHit(order, text)
      case None => [text[0]] + OnePass(order, text[1..])
      case Some(b) => b.arg + OnePass(order, text[1 + |b.name|..])
  {
  }

  lemma {:induction false} OnePassIsSimultaneous(bs: seq<Binding>, text: string)
    ensures OnePass(Order(bs), text) == Simultaneous(bs, text)
    decreases |text|
  {
    if text != "" {
      hide *;
      SortedFirstIsLongest(bs, text);
      SimultaneousStep(bs, text);
      OnePassStep(Order(bs), text);
      match Chosen(bs, text)
      case None => OnePassIsSimultaneous(bs, text[1..]);
      case Some(b) => OnePassIsSimultaneous(bs, text[1 + |b.name|..]);
    }
  }

  lemma {:induction false} OnePassCopies(order: seq<Binding>, u: string, rest: string)
    requires '$' !in u
    ensures OnePass(order, u + rest) == u + OnePass(order, rest)
    decreases |u|
  {
    if u == "" {
      assert u + rest == rest;
    } else {
      assert u[0] in u && (u + rest)[0] == u[0] && (u + rest)[1..] == u[1..] + rest;
      OnePassCopies(order, u[1..], rest);
    }
  }

  /** `Replace`, one character of text at a time. */
  lemma ReplaceStep(s: string, name: string, with: string)
    requires s != ""
    ensures Replace(s, "$" + name, with) ==
      if s[0] == '$' && name <= s[1..] then with + Replace(s[1 + |name|..], "$" + name, with)
      else [s[0]] + Replace(s[1..], "$" + name, with)
  {
    var pat := "$" + name;
    assert pat[0] == '$' && pat[1..] == name;
    if s[0] == '$' && name <= s[1..] {
      assert s == [s[0]] + s[1..] && pat <= s;
    }
  }

  lemma {:induction false} ReplaceCopies(u: string, rest: string, name: string, with: string)
    requires '$' !in u
    ensures Replace(u + rest, "$" + name, with) == u + Replace(rest, "$" + name, with)
  {
    hide Replace;
    if u == "" {
      assert u + rest == rest;
    } else {
      ReplaceStep(u + rest, name, with);
      assert u[0] in u && (u + rest)[1..] == u[1..] + rest;
      ReplaceCopies(u[1..], rest, name, with);
    }
  }

  // ----- When one more splice is one more choice -----

  /** After the splices before it, `last` reads a placeholder at the beginning of `text` that
      the template does not hold. */
  predicate Misread(before: seq<Binding>, last: Binding, text: string)
  {
    && last.kind == Ident && text != "" && text[0] == '$'
    && FirstHit(before, text).None?
    && last.name <= OnePass(before, text[1..])
    && !(last.name <= text[1..])
  }

  predicate NeverMisread(before: seq<Binding>, last: Binding, text: string)
  {
    forall i :: 0 <= i < |text| ==> !Misread(before, last, text[i..])
  }

  /** No name that stands somewhere in the template holds a `$`. */
  predicate FlatHits(order: seq<Binding>, text: string)
  {
    forall b, i :: b in order && 0 <= i <= |text| && Hits(b, text[i..]) ==> '$' !in b.name
  }

  predicate AllAcceptable(order: seq<Binding>)
  {
    forall b :: b in order ==> Acceptable(b)
  }

  lemma SuffixIsFlat(order: seq<Binding>, text: string, k: nat)
    requires FlatHits(order, text) && k <= |text|
    ensures FlatHits(order, text[k..])
  {
    forall b, i | b in order && 0 <= i <= |text[k..]| && Hits(b, text[k..][i..]) ensures '$' !in b.name {
      assert text[k..][i..] == text[k + i..];
    }
  }

  lemma SuffixNeverMisread(before: seq<Binding>, last: Binding, text: string, k: nat)
    requires NeverMisread(before, last, text) && k <= |text|
    ensures NeverMisread(before, last, text[k..])
  {
    forall i | 0 <= i < |text[k..]| ensures !Misread(before, last, text[k..][i..]) {
      assert text[k..][i..] == text[k + i..];
    }
  }

  lemma {:induction false} FirstHitSnoc(before: seq<Binding>, last: Binding, text: string)
    ensures FirstHit(before + [last], text)
            == if FirstHit(before, text).Some? then FirstHit(before, text)
               else if Hits(last, text) then Some(last) else None
  {
    if before == [] {
      assert before + [last] == [last] && [last][1..] == [];
    } else {
      assert (before + [last])[1..] == before[1..] + [last];
      FirstHitSnoc(before[1..], last, text);
    }
  }

  /** A hit of `b`, and what it leaves. */
  lemma HitSplits(b: Binding, text: string)
    requires Hits(b, text)
    ensures 1 + |b.name| <= |text| && text[1..] == b.name + text[1 + |b.name|..]
  {
  }

  lemma ArgHasNoDollar(b: Binding)
    requires Acceptable(b) && b.kind == Ident
    ensures '$' !in b.arg
  {
  }

  lemma PassAtUnhit(before: seq<Binding>, text: string)
    requires text != "" && FirstHit(before, text).None?
    ensures OnePass(before, text) == [text[0]] + OnePass(before, text[1..])
  {
  }

  /** A splice at the front of what is left, by what `last` reads there. */
  lemma SpliceStep(last: Binding, s: string)
    requires last.kind == Ident && s != ""
    ensures Splice(last, s) ==
      if s[0] == '$' && last.name <= s[1..] then last.arg + Splice(last, s[1 + |last.name|..])
      else [s[0]] + Splice(last, s[1..])
  {
    hide Replace;
    ReplaceStep(s, last.name, last.arg);
  }

  lemma PassBehindName(before: seq<Binding>, last: Binding, text: string)
    requires Hits(last, text) && '$' !in last.name
    ensures 1 + |last.name| <= |text|
    ensures OnePass(before, text[1..]) == last.name + OnePass(before, text[1 + |last.name|..])
  {
    HitSplits(last, text);
    OnePassCopies(before, last.name, text[1 + |last.name|..]);
  }

  /** One splice on the template's character at the front, where nothing before it hits. */
  lemma SpliceUnhit(before: seq<Binding>, last: Binding, text: string)
    requires last.kind == Ident && text != "" && FirstHit(before, text).None?
    requires !Misread(before, last, text) && (Hits(last, text) ==> '$' !in last.name)
    ensures Splice(last, OnePass(before, text)) ==
      if Hits(last, text) then last.arg + Splice(last, OnePass(before, text[1 + |last.name|..]))
      else [text[0]] + Splice(last, OnePass(before, text[1..]))
  {
    PassAtUnhit(before, text);
    hide FirstHit, OnePass, Splice;
    var s, after := OnePass(before, text), OnePass(before, text[1..]);
    assert s[0] == text[0] && s[1..] == after;
    SpliceStep(last, s);
    if Hits(last, text) {
      PassBehindName(before, last, text);
      assert s[1 + |last.name|..] == after[|last.name|..] == OnePass(before, text[1 + |last.name|..]);
    }
  }

  /** One splice on an argument at the front. */
  lemma SpliceHit(before: seq<Binding>, last: Binding, text: string)
    requires last.kind == Ident && text != "" && FirstHit(before, text).Some?
    requires Acceptable(FirstHit(before, text).value)
    ensures var b := FirstHit(before, text).value;
      1 + |b.name| <= |text|
      && Splice(last, OnePass(before, text)) == b.arg + Splice(last, OnePass(before, text[1 + |b.name|..]))
  {
    var b := FirstHit(before, text).value;
    ArgHasNoDollar(b);
    HitSplits(b, text);
    var rest := OnePass(before, text[1 + |b.name|..]);
    assert OnePass(before, text) == b.arg + rest;
    hide FirstHit, OnePass;
    ReplaceCopies(b.arg, rest, last.name, last.arg);
  }

  /** What `SpliceLast` needs of the template, on what is left of it. */
  lemma SuffixFits(before: seq<Binding>, last: Binding, text: string, k: nat)
    requires FlatHits(before + [last], text) && NeverMisread(before, last, text) && k <= |text|
    ensures FlatHits(before + [last], text[k..]) && NeverMisread(before, last, text[k..])
  {
    SuffixIsFlat(before + [last], text, k);
    SuffixNeverMisread(before, last, text, k);
  }

  lemma FrontFits(before: seq<Binding>, last: Binding, text: string)
    requires FlatHits(before + [last], text) && NeverMisread(before, last, text) && text != ""
    ensures !Misread(before, last, text) && (Hits(last, text) ==> '$' !in last.name)
  {
    assert text[0..] == text && (before + [last])[|before|] == last;
  }

  /** A splice is one more choice of the pass, where it misreads nothing. */
  lemma {:induction false} SpliceLast(before: seq<Binding>, last: Binding, text: string)
    requires AllAcceptable(before) && FlatHits(before + [last], text) && last.kind == Ident
    requires NeverMisread(before, last, text)
    ensures Splice(last, OnePass(before, text)) == OnePass(before + [last], text)
    decreases |text|
  {
    if text != "" {
      FirstHitSnoc(before, last, text);
      FrontFits(before, last, text);
      hide FirstHit, Hits, Misread, Acceptable, FlatHits, NeverMisread, Splice;
      match FirstHit(before, text)
      case Some(b) =>
        SpliceHit(before, last, text);
        SuffixFits(before, last, text, 1 + |b.name|);
        SpliceLast(before, last, text[1 + |b.name|..]);
      case None =>
        SpliceUnhit(before, last, text);
        if Hits(last, text) {
          HitSplits(last, text);
          SuffixFits(before, last, text, 1 + |last.name|);
          SpliceLast(before, last, text[1 + |last.name|..]);
        } else {
          SuffixFits(before, last, text, 1);
          SpliceLast(before, last, text[1..]);
        }
    } else {
      hide FlatHits, NeverMisread;
    }
  }

  lemma {:induction false} SpliceAllSnoc(before: seq<Binding>, last: Binding, text: string)
    ensures SpliceAll(before + [last], text) == Splice(last, SpliceAll(before, text))
    decreases |before|
  {
    if before == [] {
      assert before + [last] == [last] && [last][1..] == [];
    } else {
      assert (before + [last])[1..] == before[1..] + [last];
      SpliceAllSnoc(before[1..], last, Splice(before[0], text));
    }
  }

  /** No splice misreads what the ones before it left. */
  predicate NoneMisreads(order: seq<Binding>, text: string)
  {
    forall p :: 0 <= p < |order| ==> NeverMisread(order[..p], order[p], text)
  }

  lemma {:induction false} OnePassOfNone(text: string)
    ensures OnePass([], text) == text
  {
    if text != "" {
      OnePassOfNone(text[1..]);
    }
  }

  lemma InitMisreadsNone(order: seq<Binding>, text: string)
    requires order != [] && NoneMisreads(order, text)
    ensures NoneMisreads(order[..|order| - 1], text)
    ensures NeverMisread(order[..|order| - 1], order[|order| - 1], text)
  {
    var before := order[..|order| - 1];
    forall p | 0 <= p < |before| ensures NeverMisread(before[..p], before[p], text) {
      assert before[..p] == order[..p] && before[p] == order[p];
    }
  }

  lemma OnePassSkipsText(before: seq<Binding>, last: Binding, text: string)
    requires last.kind == Stdin
    ensures OnePass(before + [last], text) == OnePass(before, text)
    decreases |text|
  {
    if text != "" {
      FirstHitSnoc(before, last, text);
      match FirstHit(before, text)
      case None => OnePassSkipsText(before, last, text[1..]);
      case Some(b) => OnePassSkipsText(before, last, text[1 + |b.name|..]);
    }
  }

  /** Splicing one after another is one pass, where no splice misreads. */
  lemma {:induction false} SplicesAreOnePass(order: seq<Binding>, text: string)
    requires AllAcceptable(order) && FlatHits(order, text) && NoneMisreads(order, text)
    ensures SpliceAll(order, text) == OnePass(order, text)
    decreases |order|
  {
    if order == [] {
      OnePassOfNone(text);
    } else {
      var before, last := order[..|order| - 1], order[|order| - 1];
      assert order == before + [last];
      InitMisreadsNone(order, text);
      hide Acceptable, Hits, NoneMisreads, NeverMisread;
      SplicesAreOnePass(before, text);
      SpliceAllSnoc(before, last, text);
      if last.kind == Ident {
        SpliceLast(before, last, text);
      } else {
        OnePassSkipsText(before, last, text);
      }
    }
  }

  // ----- Joining a placeholder -----

  /** At the beginning of `text` stands a `$` that nothing spliced before `last` hits; the text
      between it and the next `$` begins the name of `last` without being the whole of it; and
      at that next `$` something spliced before `last` hits, so that its argument follows. */
  predicate Joins(before: seq<Binding>, last: Binding, text: string)
  {
    && last.kind == Ident && text != "" && text[0] == '$'
    && FirstHit(before, text).None?
    && match Find(text[1..], '$')
       case None => false
       case Some(d) => text[1..1 + d] < last.name && FirstHit(before, text[1 + d..]).Some?
  }

  predicate NothingJoins(order: seq<Binding>, text: string)
  {
    forall p, i :: 0 <= p < |order| && 0 <= i < |text| ==> !Joins(order[..p], order[p], text[i..])
  }

  lemma PrefixAcross(n: string, w: string, tail: string)
    requires n <= w + tail
    ensures |n| <= |w| ==> n <= w
    ensures |n| > |w| ==> w < n && tail != "" && n[|w|] == tail[0] && n[|w|] in n
  {
    if |n| > |w| {
      assert n[..|w|] == (w + tail)[..|w|] == w;
    } else {
      assert n == (w + tail)[..|n|] == w[..|n|];
    }
  }

  lemma PassStartsUnhit(before: seq<Binding>, text: string)
    requires text != "" && FirstHit(before, text).None?
    ensures OnePass(before, text) != "" && OnePass(before, text)[0] == text[0]
  {
  }

  lemma PassOfTextAlone(before: seq<Binding>, rest: string)
    requires '$' !in rest
    ensures OnePass(before, rest) == rest
  {
    assert rest + "" == rest;
    OnePassCopies(before, rest, "");
  }

  /** What a name reads that does not stand there: the text up to the next `$`, and on into
      what was put in at it. */
  lemma NameCrossesDollar(before: seq<Binding>, n: string, w: string, next: string)
    requires '$' !in w && '$' !in n && next != "" && next[0] == '$'
    requires n <= OnePass(before, w + next) && !(n <= w + next)
    ensures w < n && FirstHit(before, next).Some?
  {
    hide FirstHit, OnePass;
    OnePassCopies(before, w, next);
    PrefixAcross(n, w, OnePass(before, next));
    assert n <= w ==> n <= w + next;
    if FirstHit(before, next).None? {
      PassStartsUnhit(before, next);
    }
  }

  /** A misread placeholder was joined: it is template text followed by an argument. */
  lemma MisreadIsJoined(before: seq<Binding>, last: Binding, text: string)
    requires '$' !in last.name && Misread(before, last, text)
    ensures Joins(before, last, text)
  {
    hide FirstHit, OnePass, Find;
    var rest := text[1..];
    match Find(rest, '$')
    case None =>
      PassOfTextAlone(before, rest);
    case Some(d) =>
      assert rest == rest[..d] + rest[d..] && rest[d..] == text[1 + d..] && rest[..d] == text[1..1 + d];
      NameCrossesDollar(before, last.name, rest[..d], rest[d..]);
  }

  /** The identifiers' names hold no `$`. */
  predicate PlainNames(order: seq<Binding>)
  {
    forall b :: b in order && b.kind == Ident ==> '$' !in b.name
  }

  lemma PlainNamesAreFlat(order: seq<Binding>, text: string)
    requires PlainNames(order)
    ensures FlatHits(order, text)
  {
  }

  lemma UnjoinedIsNotMisread(order: seq<Binding>, text: string)
    requires PlainNames(order) && NothingJoins(order, text)
    ensures NoneMisreads(order, text)
  {
    forall p, i | 0 <= p < |order| && 0 <= i < |text| ensures !Misread(order[..p], order[p], text[i..]) {
      if Misread(order[..p], order[p], text[i..]) {
        assert order[p] in order;
        MisreadIsJoined(order[..p], order[p], text[i..]);
      }
    }
  }

  // ----- What surely survives -----

  /** How much of a text surely survives splicing names shorter than `m`: each `$` can cost it
      that much. */
  function Surviving(s: string, m: nat): int
  {
    if s == "" then 0 else (if s[0] == '$' then 1 - m else 1) + Surviving(s[1..], m)
  }

  lemma {:induction false} SurvivingSplits(a: string, b: string, m: nat)
    ensures Surviving(a + b, m) == Surviving(a, m) + Surviving(b, m)
  {
    if a == "" {
      assert a + b == b;
    } else {
      assert (a + b)[1..] == a[1..] + b;
      SurvivingSplits(a[1..], b, m);
    }
  }

  lemma {:induction false} SurvivingPlain(s: string, m: nat)
    ensures Surviving(s, m) <= |s|
    ensures '$' !in s ==> Surviving(s, m) == |s|
  {
    if s != "" {
      assert s[0] in s && forall c :: c in s[1..] ==> c in s;
      SurvivingPlain(s[1..], m);
    }
  }

  lemma {:induction false} ReplaceKeepsSurviving(s: string, name: string, with: string, m: nat)
    requires '$' !in name && '$' !in with && |name| < m
    ensures Surviving(s, m) <= Surviving(Replace(s, "$" + name, with), m)
    decreases |s|
  {
    if s != "" {
      ReplaceStep(s, name, with);
      if s[0] == '$' && name <= s[1..] {
        var rest := s[1 + |name|..];
        assert s[1..] == name + rest;
        ReplaceKeepsSurviving(rest, name, with, m);
        SurvivingSplits(name, rest, m);
        SurvivingPlain(name, m);
        SurvivingSplits(with, Replace(rest, "$" + name, with), m);
        SurvivingPlain(with, m);
      } else {
        ReplaceKeepsSurviving(s[1..], name, with, m);
        SurvivingSplits([s[0]], Replace(s[1..], "$" + name, with), m);
        assert [s[0]][1..] == "";
      }
    }
  }

  predicate Below(order: seq<Binding>, m: nat)
  {
    forall b :: b in order ==> |b.name| < m
  }

  lemma {:induction false} SplicesKeepSurviving(order: seq<Binding>, s: string, m: nat)
    requires PlainNames(order) && AllAcceptable(order) && Below(order, m)
    ensures Surviving(s, m) <= |SpliceAll(order, s)|
    decreases |order|
  {
    if order == [] {
      SurvivingPlain(s, m);
    } else {
      var b := order[0];
      assert b in order && forall x :: x in order[1..] ==> x in order;
      if b.kind == Ident {
        ArgHasNoDollar(b);
        ReplaceKeepsSurviving(s, b.name, b.arg, m);
      }
      SplicesKeepSurviving(order[1..], Splice(b, s), m);
    }
  }

  // ----- Counting -----

  /** The text after the splices before `last` and its own. */
  function Spliced(before: seq<Binding>, last: Binding, text: string): string
  {
    Splice(last, OnePass(before, text))
  }

  lemma {:induction false} FirstHitAppend(a: seq<Binding>, b: seq<Binding>, text: string)
    ensures FirstHit(a + b, text) == if FirstHit(a, text).Some? then FirstHit(a, text) else FirstHit(b, text)
  {
    if a == [] {
      assert a + b == b;
    } else {
      assert (a + b)[1..] == a[1..] + b;
      FirstHitAppend(a[1..], b, text);
    }
  }

  /** A hit changes the length of the pass by the argument against the name. */
  lemma PassGains(order: seq<Binding>, text: string)
    requires PlainNames(order) && text != ""
    ensures |OnePass(order, text)| - |OnePass(order, text[1..])|
            == match FirstHit(order, text) case None => 1 case Some(b) => |b.arg| - |b.name|
  {
    match FirstHit(order, text)
    case None =>
    case Some(b) =>
      HitSplits(b, text);
      OnePassCopies(order, b.name, text[1 + |b.name|..]);
  }

  lemma SplicedAtHit(before: seq<Binding>, last: Binding, text: string, m: nat)
    requires PlainNames(before) && AllAcceptable(before) && last.kind == Ident && text != ""
    requires FirstHit(before, text).Some?
    ensures var b := FirstHit(before, text).value;
      Surviving(Spliced(before, last, text), m) - Surviving(Spliced(before, last, text[1..]), m) == |b.arg| - |b.name|
  {
    var b := FirstHit(before, text).value;
    hide FirstHit;
    HitSplits(b, text);
    var rest := text[1 + |b.name|..];
    ArgHasNoDollar(b);
    OnePassCopies(before, b.name, rest);
    ReplaceCopies(b.arg, OnePass(before, rest), last.name, last.arg);
    ReplaceCopies(b.name, OnePass(before, rest), last.name, last.arg);
    SurvivingSplits(b.arg, Spliced(before, last, rest), m);
    SurvivingSplits(b.name, Spliced(before, last, rest), m);
    SurvivingPlain(b.arg, m);
    SurvivingPlain(b.name, m);
  }

  lemma SplicedWhereRead(before: seq<Binding>, last: Binding, text: string, m: nat)
    requires last.kind == Ident && text != "" && '$' !in last.name && '$' !in last.arg
    requires FirstHit(before, text).None? && text[0] == '$' && last.name <= OnePass(before, text[1..])
    ensures Surviving(Spliced(before, last, text), m) - Surviving(Spliced(before, last, text[1..]), m)
            == |last.arg| - |last.name|
  {
    var s, n := OnePass(before, text[1..]), last.name;
    var rest := s[|n|..];
    assert s == n + rest && OnePass(before, text) == [text[0]] + s;
    hide FirstHit, OnePass;
    ReplaceStep(OnePass(before, text), n, last.arg);
    ReplaceCopies(n, rest, n, last.arg);
    var tail := Replace(rest, "$" + n, last.arg);
    SurvivingSplits(last.arg, tail, m);
    SurvivingSplits(n, tail, m);
    SurvivingPlain(last.arg, m);
    SurvivingPlain(n, m);
  }

  lemma SplicedWhereNotRead(before: seq<Binding>, last: Binding, text: string, m: nat)
    requires last.kind == Ident && text != ""
    requires FirstHit(before, text).None? && !(text[0] == '$' && last.name <= OnePass(before, text[1..]))
    ensures Surviving(Spliced(before, last, text), m) - Surviving(Spliced(before, last, text[1..]), m)
            == if text[0] == '$' then 1 - m else 1
  {
    var s := OnePass(before, text[1..]);
    assert OnePass(before, text) == [text[0]] + s;
    hide FirstHit, OnePass;
    ReplaceStep(OnePass(before, text), last.name, last.arg);
    var tail := Replace(s, "$" + last.name, last.arg);
    assert ([text[0]] + tail)[1..] == tail;
  }

  /** An order of splicing around one identifier, with an argument for it that is long against
      `reach`: no name and no other argument is longer than that. */
  predicate OnTrial(before: seq<Binding>, last: Binding, after: seq<Binding>, reach: nat)
  {
    && PlainNames(before + [last] + after) && AllAcceptable(before + [last] + after)
    && Below(before + [last] + after, reach + 1)
    && (forall b :: b in before + after ==> |b.arg| <= reach)
    && last.kind == Ident && 0 < reach && 2 * reach <= |last.arg|
  }

  lemma OnTrialParts(before: seq<Binding>, last: Binding, after: seq<Binding>, reach: nat)
    requires OnTrial(before, last, after, reach)
    ensures PlainNames(before) && AllAcceptable(before)
    ensures PlainNames(after) && AllAcceptable(after) && Below(after, reach + 1)
    ensures forall b :: b in after ==> |b.arg| <= reach
    ensures '$' !in last.name && '$' !in last.arg && |last.name| <= reach
  {
    var order := before + [last] + after;
    assert order[|before|] == last && last in order;
    assert forall b :: b in before ==> b in order;
    assert forall b :: b in after ==> b in order && b in before + after;
    ArgHasNoDollar(last);
  }

  lemma FirstHitAround(before: seq<Binding>, last: Binding, after: seq<Binding>, text: string)
    ensures FirstHit(before + [last] + after, text)
            == if FirstHit(before, text).Some? then FirstHit(before, text)
               else if Hits(last, text) then Some(last) else FirstHit(after, text)
  {
    FirstHitAppend(before + [last], after, text);
    FirstHitSnoc(before, last, text);
  }

  /** Away from the places of `last`, the pass puts in little. */
  lemma PassGainsLittle(before: seq<Binding>, last: Binding, after: seq<Binding>, reach: nat, text: string)
    requires OnTrial(before, last, after, reach) && text != ""
    requires FirstHit(before, text).None? && !Hits(last, text)
    ensures |OnePass(before + [last] + after, text)| <= |OnePass(before + [last] + after, text[1..])| + reach
  {
    OnTrialParts(before, last, after, reach);
    FirstHitAround(before, last, after, text);
    PassGains(before + [last] + after, text);
    hide OnePass, OnTrial;
  }

  lemma UnreadIsNoHit(before: seq<Binding>, last: Binding, text: string)
    requires '$' !in last.name && text != ""
    requires !(text[0] == '$' && last.name <= OnePass(before, text[1..]))
    ensures !Hits(last, text)
  {
    if Hits(last, text) {
      HitSplits(last, text);
      OnePassCopies(before, last.name, text[1 + |last.name|..]);
    }
  }

  /** By how much splicing outgrows the pass at the front of `text`. */
  function Lead(before: seq<Binding>, last: Binding, after: seq<Binding>, reach: nat, text: string): int
  {
    Surviving(Spliced(before, last, text), reach + 1) - |OnePass(before + [last] + after, text)|
  }

  /** From one character to the next, the pass gains on splicing no more than so much. */
  lemma LeadFallsSlowly(before: seq<Binding>, last: Binding, after: seq<Binding>, reach: nat, text: string)
    requires OnTrial(before, last, after, reach) && text != ""
    ensures Lead(before, last, after, reach, text[1..]) - 2 * reach - 1 <= Lead(before, last, after, reach, text)
  {
    OnTrialParts(before, last, after, reach);
    if FirstHit(before, text).Some? {
      FirstHitAround(before, last, after, text);
      PassGains(before + [last] + after, text);
      SplicedAtHit(before, last, text, reach + 1);
    } else if text[0] == '$' && last.name <= OnePass(before, text[1..]) {
      SplicedWhereRead(before, last, text, reach + 1);
      if Hits(last, text) {
        FirstHitAround(before, last, after, text);
        PassGains(before + [last] + after, text);
      } else {
        PassGainsLittle(before, last, after, reach, text);
      }
    } else {
      SplicedWhereNotRead(before, last, text, reach + 1);
      UnreadIsNoHit(before, last, text);
      PassGainsLittle(before, last, after, reach, text);
    }
  }

  /** Where a placeholder is misread, splicing gains the long argument. */
  lemma LeadJumps(before: seq<Binding>, last: Binding, after: seq<Binding>, reach: nat, text: string)
    requires OnTrial(before, last, after, reach) && Misread(before, last, text)
    ensures Lead(before, last, after, reach, text[1..]) + |last.arg| - 2 * reach
            <= Lead(before, last, after, reach, text)
  {
    OnTrialParts(before, last, after, reach);
    SplicedWhereRead(before, last, text, reach + 1);
    PassGainsLittle(before, last, after, reach, text);
  }

  lemma OnePassOfEmpty(order: seq<Binding>)
    ensures OnePass(order, "") == ""
  {
  }

  function Cost(each: nat, n: nat): nat
  {
    if n == 0 then 0 else each + Cost(each, n - 1)
  }

  lemma LeadOfEmpty(before: seq<Binding>, last: Binding, after: seq<Binding>, reach: nat)
    ensures Lead(before, last, after, reach, "") == 0
  {
    OnePassOfEmpty(before);
    OnePassOfEmpty(before + [last] + after);
  }

  lemma {:induction false} LeadIsBounded(before: seq<Binding>, last: Binding, after: seq<Binding>,
      reach: nat, text: string)
    requires OnTrial(before, last, after, reach)
    ensures 0 <= Lead(before, last, after, reach, text) + Cost(2 * reach + 1, |text|)
    decreases |text|
  {
    hide Lead, OnTrial;
    if text == "" {
      LeadOfEmpty(before, last, after, reach);
    } else {
      LeadFallsSlowly(before, last, after, reach, text);
      LeadIsBounded(before, last, after, reach, text[1..]);
    }
  }

  /** A misread anywhere gains the long argument against that. */
  lemma {:induction false} MisreadLeads(before: seq<Binding>, last: Binding, after: seq<Binding>,
      reach: nat, text: string, i: nat)
    requires OnTrial(before, last, after, reach)
    requires i < |text| && Misread(before, last, text[i..])
    ensures |last.arg| - 2 * reach - Cost(2 * reach + 1, |text|) <= Lead(before, last, after, reach, text)
    decreases i
  {
    hide Lead, OnTrial, Misread;
    if i == 0 {
      assert text[0..] == text;
      LeadJumps(before, last, after, reach, text);
      LeadIsBounded(before, last, after, reach, text[1..]);
    } else {
      assert text[1..][i - 1..] == text[i..];
      LeadFallsSlowly(before, last, after, reach, text);
      MisreadLeads(before, last, after, reach, text[1..], i - 1);
    }
  }

  lemma {:induction false} SpliceAllAppend(a: seq<Binding>, b: seq<Binding>, text: string)
    ensures SpliceAll(a + b, text) == SpliceAll(b, SpliceAll(a, text))
    decreases |a|
  {
    if a == [] {
      assert a + b == b;
    } else {
      assert (a + b)[1..] == a[1..] + b;
      SpliceAllAppend(a[1..], b, Splice(a[0], text));
    }
  }

  /** A misread placeholder shows: with a long enough argument the two results differ in
      length. */
  lemma MisreadShows(before: seq<Binding>, last: Binding, after: seq<Binding>, reach: nat, text: string, i: nat)
    requires OnTrial(before, last, after, reach) && NoneMisreads(before, text)
    requires i < |text| && Misread(before, last, text[i..])
    requires 2 * reach + Cost(2 * reach + 1, |text|) < |last.arg|
    ensures SpliceAll(before + [last] + after, text) != OnePass(before + [last] + after, text)
  {
    OnTrialParts(before, last, after, reach);
    MisreadLeads(before, last, after, reach, text, i);
    hide OnTrial, Misread, NoneMisreads, Splice;
    PlainNamesAreFlat(before, text);
    SplicesAreOnePass(before, text);
    SpliceAllSnoc(before, last, text);
    SpliceAllAppend(before + [last], after, text);
    SplicesKeepSurviving(after, Spliced(before, last, text), reach + 1);
  }

  // ----- One argument changed -----

  /** Where sorting puts `x` among `s`. */
  function Landing(x: Binding, s: seq<Binding>): (i: nat)
    ensures i <= |s|
  {
    if s == [] || LongerFirst(x, s[0]) != Greater then 0 else 1 + Landing(x, s[1..])
  }

  /** `s` with `x` put in at `i`. */
  function PutAt(x: Binding, s: seq<Binding>, i: nat): (t: seq<Binding>)
    requires i <= |s|
    ensures |t| == |s| + 1
  {
    s[..i] + [x] + s[i..]
  }

  lemma PutBehind(x: Binding, first: Binding, s: seq<Binding>, i: nat)
    requires i <= |s|
    ensures PutAt(x, [first] + s, i + 1) == [first] + PutAt(x, s, i)
  {
  }

  lemma {:induction false} InsertLands(x: Binding, s: seq<Binding>)
    ensures Insert(LongerFirst, x, s) == PutAt(x, s, Landing(x, s))
  {
    if s != [] && LongerFirst(x, s[0]) == Greater {
      InsertLands(x, s[1..]);
      hide LongerFirst, PutAt;
      PutBehind(x, s[0], s[1..], Landing(x, s[1..]));
      assert s == [s[0]] + s[1..];
    }
  }

  predicate SameNames(s: seq<Binding>, t: seq<Binding>)
  {
    |s| == |t| && forall i :: 0 <= i < |s| ==> s[i].name == t[i].name
  }

  lemma {:induction false} LandingGoesByNames(x: Binding, y: Binding, s: seq<Binding>, t: seq<Binding>)
    requires x.name == y.name && SameNames(s, t)
    ensures Landing(x, s) == Landing(y, t)
  {
    if s != [] {
      assert LongerFirst(x, s[0]) == LongerFirst(y, t[0]);
      hide LongerFirst;
      LandingGoesByNames(x, y, s[1..], t[1..]);
    }
  }

  function WithArg(s: seq<Binding>, i: nat, arg: string): (t: seq<Binding>)
    requires i < |s|
    ensures SameNames(s, t)
  {
    s[i := s[i].(arg := arg)]
  }

  lemma PutAndChange(x: Binding, s: seq<Binding>, at: nat, p: nat, arg: string)
    requires at <= |s| && p <= |s|
    ensures WithArg(PutAt(x, s, at), p, arg) ==
      if p == at then PutAt(x.(arg := arg), s, at)
      else if p < at then PutAt(x, WithArg(s, p, arg), at)
      else PutAt(x, WithArg(s, p - 1, arg), at)
  {
  }

  lemma OrderStep(bs: seq<Binding>)
    requires bs != []
    ensures Order(bs) == PutAt(bs[0], Order(bs[1..]), Landing(bs[0], Order(bs[1..])))
    ensures |Order(bs)| == |bs|
  {
    InsertLands(bs[0], Order(bs[1..]));
  }

  /** The place in declared order of the binding at `p` in the order of splicing. */
  lemma {:induction false} ArgOfOrder(bs: seq<Binding>, p: nat, arg: string) returns (k: nat)
    requires p < |Order(bs)|
    ensures k < |bs| && Order(WithArg(bs, k, arg)) == WithArg(Order(bs), p, arg)
    decreases |bs|
  {
    SameElements(Order(bs), bs);
    var x, rest := bs[0], Order(bs[1..]);
    var at := Landing(x, rest);
    OrderStep(bs);
    hide Order, Landing, PutAt;
    PutAndChange(x, rest, at, p, arg);
    if p == at {
      k := 0;
      LandingGoesByNames(x, x.(arg := arg), rest, rest);
    } else {
      var q := if p < at then p else p - 1;
      var j := ArgOfOrder(bs[1..], q, arg);
      k := j + 1;
      LandingGoesByNames(x, x, rest, WithArg(rest, q, arg));
      assert WithArg(bs, k, arg)[1..] == WithArg(bs[1..], j, arg);
    }
    OrderStep(WithArg(bs, k, arg));
  }

  // ----- Arguments cut short -----

  function Clipped(reach: nat): Binding -> Binding
  {
    (b: Binding) => b.(arg := b.arg[..Min(reach, |b.arg|)])
  }

  lemma {:induction false} FirstHitMaps(f: Binding -> Binding, order: seq<Binding>, text: string)
    requires KeepsNames(f)
    ensures FirstHit(Map(f, order), text)
            == match FirstHit(order, text) case None => None case Some(b) => Some(f(b))
  {
    if order != [] {
      FirstHitMaps(f, order[1..], text);
      assert Map(f, order)[1..] == Map(f, order[1..]);
    }
  }

  lemma ClipKeepsPrefix(n: string, arg: string, rest: string, reach: nat)
    requires n <= arg + rest && |n| <= reach
    ensures var clip := arg[..Min(reach, |arg|)];
      if |n| <= |clip| then n <= clip else clip == arg && n[|clip|..] <= rest && n == clip + n[|clip|..]
  {
    var clip := arg[..Min(reach, |arg|)];
    assert n == (arg + rest)[..|n|];
    if |n| > |clip| {
      assert clip == arg;
      assert n[|arg|..] == (arg + rest)[|arg|..][..|n| - |arg|];
    } else {
      assert n == clip[..|n|];
    }
  }

  lemma PrefixConcat(n: string, a: string, b: string, rest: string)
    ensures n <= a ==> n <= a + rest
    ensures b <= rest ==> a + b <= a + rest
  {
  }

  /** What a name of length up to `reach` reads, it reads with arguments clipped to that. */
  lemma {:induction false} ClippedReads(order: seq<Binding>, n: string, text: string, reach: nat)
    requires n <= OnePass(order, text) && |n| <= reach
    ensures n <= OnePass(Map(Clipped(reach), order), text)
    decreases |text|
  {
    var f := Clipped(reach);
    if text != "" && n != "" {
      FirstHitMaps(f, order, text);
      match FirstHit(order, text)
      case None =>
        hide FirstHit, Map;
        assert n == [n[0]] + n[1..];
        ClippedReads(order, n[1..], text[1..], reach);
      case Some(b) =>
        hide FirstHit, Map;
        var rest := text[1 + |b.name|..];
        var clip := f(b).arg;
        ClipKeepsPrefix(n, b.arg, OnePass(order, rest), reach);
        if |n| <= |clip| {
          PrefixConcat(n, clip, "", OnePass(Map(f, order), rest));
        } else {
          ClippedReads(order, n[|clip|..], rest, reach);
          PrefixConcat(n, clip, n[|clip|..], OnePass(Map(f, order), rest));
        }
    }
  }

  lemma ClippedMisreads(before: seq<Binding>, last: Binding, text: string, reach: nat)
    requires Misread(before, last, text) && |last.name| <= reach
    ensures Misread(Map(Clipped(reach), before), Clipped(reach)(last), text)
  {
    FirstHitMaps(Clipped(reach), before, text);
    hide FirstHit, OnePass, Map;
    ClippedReads(before, last.name, text[1..], reach);
  }

  lemma NameStopsAtDollar(n: string, rest: string, d: nat)
    requires '$' !in n && d < |rest| && rest[d] == '$' && d < |n|
    ensures !(n <= rest)
  {
    assert n[d] in n;
  }

  // ----- Joining goes by names -----

  ghost predicate KeepsNames(f: Binding -> Binding)
  {
    forall b :: f(b).name == b.name && f(b).kind == b.kind
  }

  lemma {:induction false} HitsGoByNames(f: Binding -> Binding, order: seq<Binding>, text: string)
    requires KeepsNames(f)
    ensures FirstHit(Map(f, order), text).Some? == FirstHit(order, text).Some?
  {
    if order != [] {
      HitsGoByNames(f, order[1..], text);
      assert Map(f, order)[1..] == Map(f, order[1..]);
    }
  }

  lemma {:induction false} MapPrefix(f: Binding -> Binding, order: seq<Binding>, p: nat)
    requires p <= |order|
    ensures Map(f, order)[..p] == Map(f, order[..p])
  {
  }

  lemma JoinsGoByNames(f: Binding -> Binding, before: seq<Binding>, last: Binding, text: string)
    requires KeepsNames(f)
    ensures Joins(Map(f, before), f(last), text) == Joins(before, last, text)
  {
    hide FirstHit, Map, Find;
    HitsGoByNames(f, before, text);
    if text != "" && Find(text[1..], '$').Some? {
      HitsGoByNames(f, before, text[1 + Find(text[1..], '$').value..]);
    }
  }

  lemma NothingJoinsGoesByNames(f: Binding -> Binding, order: seq<Binding>, text: string)
    requires KeepsNames(f)
    ensures NothingJoins(Map(f, order), text) == NothingJoins(order, text)
  {
    forall p, i | 0 <= p < |order| && 0 <= i < |text|
      ensures Joins(Map(f, order)[..p], Map(f, order)[p], text[i..]) == Joins(order[..p], order[p], text[i..])
    {
      MapPrefix(f, order, p);
      JoinsGoByNames(f, order[..p], order[p], text[i..]);
    }
    hide Joins, Map;
  }

  lemma InitJoins(order: seq<Binding>, text: string)
    requires order != []
    ensures NothingJoins(order[..|order| - 1], text) <==>
      forall p, i :: 0 <= p < |order| - 1 && 0 <= i < |text| ==> !Joins(order[..p], order[p], text[i..])
  {
    hide Joins;
    var before := order[..|order| - 1];
    assert forall p :: 0 <= p < |before| ==> before[..p] == order[..p] && before[p] == order[p];
  }

  lemma {:induction false} FirstJoin(order: seq<Binding>, text: string) returns (p: nat, i: nat)
    requires !NothingJoins(order, text)
    ensures p < |order| && i < |text| && Joins(order[..p], order[p], text[i..])
    ensures NothingJoins(order[..p], text)
    decreases |order|
  {
    hide Joins;
    var before := order[..|order| - 1];
    InitJoins(order, text);
    if NothingJoins(before, text) {
      p := |order| - 1;
      var q: int, k: int :| 0 <= q < |order| && 0 <= k < |text| && Joins(order[..q], order[q], text[k..]);
      i := k;
    } else {
      p, i := FirstJoin(before, text);
      assert before[..p] == order[..p] && before[p] == order[p];
    }
  }

  // ----- The main results -----

  function Blank(params: seq<Param>): (bs: seq<Binding>)
    ensures |bs| == |params|
    ensures forall i :: 0 <= i < |bs| ==> bs[i] == Binding(params[i].name, params[i].kind, "")
  {
    Bind(params, seq(|params|, _ => ""))
  }

  /** Nowhere in the template does some parameter's placeholder come together from template
      text and the argument of a parameter spliced before it.  This is a matter of the template
      and the parameters alone. */
  predicate NoJoin(command: string, params: seq<Param>)
  {
    NothingJoins(Order(Blank(params)), command)
  }

  /** Identifier parameters have names of identifier characters. */
  predicate IdentNames(params: seq<Param>)
  {
    forall p, c :: p in params && p.kind == Ident && c in p.name ==> IsIdentChar(c)
  }

  /** Splicing is one simultaneous substitution, whatever arguments are given. */
  ghost predicate AlwaysSimultaneous(command: string, params: seq<Param>)
  {
    forall args: seq<string> :: Resolve(command, params, args).Ok? ==>
      Resolve(command, params, args).value.0 == Simultaneous(Bind(params, args), command)
  }

  lemma BlankOrder(params: seq<Param>, args: seq<string>)
    requires |params| == |args|
    ensures Order(Blank(params)) == Map(Erased, Order(Bind(params, args)))
  {
    assert Blank(params) == Map(Erased, Bind(params, args));
    OrderMaps(Erased, Bind(params, args));
  }

  function Erased(b: Binding): Binding
  {
    b.(arg := "")
  }

  /** What is left of resolving once the arguments are accepted. */
  lemma ResolvedIsSpliced(command: string, params: seq<Param>, args: seq<string>)
    requires Resolve(command, params, args).Ok?
    ensures var order := Order(Bind(params, args));
      && AllAcceptable(order)
      && Resolve(command, params, args).value.0 == SpliceAll(order, command)
      && OnePass(order, command) == Simultaneous(Bind(params, args), command)
  {
    SpliceInOrderAccepts(Order(Bind(params, args)), command);
    OnePassIsSimultaneous(Bind(params, args), command);
  }

  lemma OrderHasNames(params: seq<Param>, bs: seq<Binding>)
    requires |bs| == |params|
    requires forall i :: 0 <= i < |bs| ==> bs[i].name == params[i].name && bs[i].kind == params[i].kind
    ensures forall b :: b in Order(bs) ==> Param(b.name, b.kind) in params
  {
    SameElements(Order(bs), bs);
  }

  lemma IdentNamesArePlain(params: seq<Param>)
    requires IdentNames(params)
    ensures PlainParams(params)
  {
    assert !IsIdentChar('$');
  }

  predicate PlainParams(params: seq<Param>)
  {
    forall p :: p in params && p.kind == Ident ==> '$' !in p.name
  }

  /** The length of the longest name, or 1. */
  function Longest(params: seq<Param>): (n: nat)
    ensures 0 < n && forall p :: p in params ==> |p.name| <= n
  {
    if params == [] then 1
    else
      var n := Longest(params[1..]);
      assert forall p :: p in params ==> p == params[0] || p in params[1..];
      if |params[0].name| <= n then n else |params[0].name|
  }

  /** Arguments that are accepted and no longer than `reach`. */
  predicate ShortArgs(params: seq<Param>, args: seq<string>, reach: nat)
  {
    && |args| == |params| && AllAcceptable(Bind(params, args))
    && forall arg :: arg in args ==> |arg| <= reach
  }

  /** No arguments as short as the names make a splice read a placeholder that the template does
      not hold.  There are finitely many to look at. */
  ghost predicate NeverMisreads(command: string, params: seq<Param>)
  {
    forall args: seq<string> :: ShortArgs(params, args, Longest(params)) ==>
      NoneMisreads(Order(Bind(params, args)), command)
  }

  lemma OrderKeepsAcceptable(bs: seq<Binding>)
    ensures AllAcceptable(Order(bs)) <==> AllAcceptable(bs)
  {
    hide Acceptable, Order;
    SameElements(Order(bs), bs);
  }

  lemma NamesAreBelow(params: seq<Param>, order: seq<Binding>)
    requires PlainParams(params) && forall b :: b in order ==> Param(b.name, b.kind) in params
    ensures PlainNames(order) && Below(order, Longest(params) + 1)
  {
    hide Longest;
    forall b | b in order ensures |b.name| < Longest(params) + 1 && (b.kind == Ident ==> '$' !in b.name) {
      assert Param(b.name, b.kind) in params;
    }
  }

  lemma OrderOfPlain(params: seq<Param>, args: seq<string>)
    requires |args| == |params| && PlainParams(params)
    ensures PlainNames(Order(Bind(params, args))) && Below(Order(Bind(params, args)), Longest(params) + 1)
    ensures AllAcceptable(Order(Bind(params, args))) <==> AllAcceptable(Bind(params, args))
  {
    hide Order, PlainParams, PlainNames, Below, AllAcceptable, Longest;
    OrderHasNames(params, Bind(params, args));
    NamesAreBelow(params, Order(Bind(params, args)));
    OrderKeepsAcceptable(Bind(params, args));
  }

  lemma {:induction false} FirstMisread(order: seq<Binding>, text: string) returns (p: nat, i: nat)
    requires !NoneMisreads(order, text)
    ensures p < |order| && i < |text| && Misread(order[..p], order[p], text[i..])
    ensures NoneMisreads(order[..p], text)
    decreases |order|
  {
    hide Misread;
    var before := order[..|order| - 1];
    InitMisreads(order, text);
    if NoneMisreads(before, text) {
      p := |order| - 1;
      var k: int :| 0 <= k < |text| && Misread(before, order[p], text[k..]);
      i := k;
    } else {
      p, i := FirstMisread(before, text);
      assert before[..p] == order[..p] && before[p] == order[p];
    }
  }

  lemma InitMisreads(order: seq<Binding>, text: string)
    requires order != []
    ensures NoneMisreads(order, text) <==>
      && NoneMisreads(order[..|order| - 1], text)
      && NeverMisread(order[..|order| - 1], order[|order| - 1], text)
  {
    hide NeverMisread;
    var before := order[..|order| - 1];
    assert forall p :: 0 <= p < |before| ==> before[..p] == order[..p] && before[p] == order[p];
  }

  function ClipArgs(args: seq<string>, reach: nat): (clipped: seq<string>)
    ensures |clipped| == |args|
    ensures forall i :: 0 <= i < |args| ==> clipped[i] == args[i][..Min(reach, |args[i]|)]
  {
    seq(|args|, i requires 0 <= i < |args| => args[i][..Min(reach, |args[i]|)])
  }

  lemma ClippedIsAcceptable(b: Binding, reach: nat)
    requires Acceptable(b) && 0 < reach
    ensures Acceptable(Clipped(reach)(b))
  {
    assert forall c :: c in b.arg[..Min(reach, |b.arg|)] ==> c in b.arg;
  }

  lemma ClippedArgs(params: seq<Param>, args: seq<string>, reach: nat)
    requires |args| == |params| && AllAcceptable(Bind(params, args)) && 0 < reach
    ensures ShortArgs(params, ClipArgs(args, reach), reach)
    ensures Order(Bind(params, ClipArgs(args, reach))) == Map(Clipped(reach), Order(Bind(params, args)))
  {
    var bs := Bind(params, args);
    assert Bind(params, ClipArgs(args, reach)) == Map(Clipped(reach), bs);
    OrderMaps(Clipped(reach), bs);
    hide Acceptable;
    forall b | b in Map(Clipped(reach), bs) ensures Acceptable(b) {
      var k :| 0 <= k < |bs| && Map(Clipped(reach), bs)[k] == b;
      assert bs[k] in bs;
      ClippedIsAcceptable(bs[k], reach);
    }
  }

  lemma ClippedMisreadsToo(order: seq<Binding>, text: string, reach: nat)
    requires NoneMisreads(Map(Clipped(reach), order), text) && forall b :: b in order ==> |b.name| <= reach
    ensures NoneMisreads(order, text)
  {
    hide Map, Misread;
    forall p: nat, i: nat | p < |order| && i < |text| ensures !Misread(order[..p], order[p], text[i..]) {
      if Misread(order[..p], order[p], text[i..]) {
        assert order[p] in order;
        ClippedMisreads(order[..p], order[p], text[i..], reach);
        MapPrefix(Clipped(reach), order, p);
        MisreadsSomewhere(Map(Clipped(reach), order), text, p, i);
      }
    }
  }

  lemma OrderNamesAreShort(params: seq<Param>, args: seq<string>)
    requires |args| == |params|
    ensures forall b :: b in Order(Bind(params, args)) ==> |b.name| <= Longest(params)
  {
    hide Order, Longest;
    OrderHasNames(params, Bind(params, args));
    forall b | b in Order(Bind(params, args)) ensures |b.name| <= Longest(params) {
      assert Param(b.name, b.kind) in params;
    }
  }

  /** What some accepted arguments make a splice misread, short ones do. */
  lemma NeverMisreadsAnything(command: string, params: seq<Param>, args: seq<string>)
    requires NeverMisreads(command, params) && |args| == |params| && AllAcceptable(Bind(params, args))
    ensures NoneMisreads(Order(Bind(params, args)), command)
  {
    hide Order, Bind, Map, ShortArgs, NoneMisreads, AllAcceptable;
    ClippedArgs(params, args, Longest(params));
    OrderNamesAreShort(params, args);
    ClippedMisreadsToo(Order(Bind(params, args)), command, Longest(params));
  }

  lemma MisreadsSomewhere(order: seq<Binding>, text: string, p: nat, i: nat)
    requires p < |order| && i < |text| && Misread(order[..p], order[p], text[i..])
    ensures !NoneMisreads(order, text)
  {
    hide Misread;
  }

  function Pad(n: nat): (s: string)
    ensures |s| == n && forall c :: c in s ==> c == 'a'
  {
    if n == 0 then "" else Pad(n - 1) + "a"
  }

  /** `order` with a long argument at `p`, where short ones are misread. */
  lemma LongArgShows(order: seq<Binding>, text: string, p: nat, i: nat, reach: nat, arg: string)
    requires PlainNames(order) && AllAcceptable(order) && Below(order, reach + 1) && 0 < reach
    requires forall b :: b in order ==> |b.arg| <= reach
    requires p < |order| && i < |text| && Misread(order[..p], order[p], text[i..])
    requires NoneMisreads(order[..p], text)
    requires IsIdentifier(arg) && 2 * reach + Cost(2 * reach + 1, |text|) < |arg|
    ensures AllAcceptable(WithArg(order, p, arg))
    ensures SpliceAll(WithArg(order, p, arg), text) != OnePass(WithArg(order, p, arg), text)
  {
    var before, last, after := order[..p], order[p].(arg := arg), order[p + 1..];
    var changed := WithArg(order, p, arg);
    assert changed == before + [last] + after;
    assert order[p] in order && forall b :: b in before + after ==> b in order;
    assert forall b :: b in changed ==> b in order || b == last;
    hide NoneMisreads, OnePass, SpliceAll, IsIdentifier, FirstHit, Cost;
    MisreadShows(before, last, after, reach, text, i);
  }

  /** The argument that shows a misread. */
  function LongArg(command: string, reach: nat): string
  {
    Pad(2 * reach + Cost(2 * reach + 1, |command|) + 1)
  }

  lemma LongArgIsLong(command: string, reach: nat)
    ensures IsIdentifier(LongArg(command, reach))
    ensures 2 * reach + Cost(2 * reach + 1, |command|) < |LongArg(command, reach)|
  {
  }

  lemma ShortOrder(params: seq<Param>, args: seq<string>)
    requires PlainParams(params) && ShortArgs(params, args, Longest(params))
    ensures var order := Order(Bind(params, args));
      && PlainNames(order) && AllAcceptable(order) && Below(order, Longest(params) + 1)
      && forall b :: b in order ==> |b.arg| <= Longest(params)
  {
    hide Order, Bind, PlainNames, Below, PlainParams, Longest, Acceptable;
    OrderOfPlain(params, args);
    ArgsStayShort(params, args, Longest(params));
  }

  /** Accepted arguments on which splicing is not the one pass give two results. */
  lemma TwoResults(command: string, params: seq<Param>, args: seq<string>)
    requires |args| == |params| && AllAcceptable(Order(Bind(params, args)))
    requires SpliceAll(Order(Bind(params, args)), command) != OnePass(Order(Bind(params, args)), command)
    ensures Resolve(command, params, args).Ok?
    ensures Resolve(command, params, args).value.0 != Simultaneous(Bind(params, args), command)
  {
    hide Order, Bind, AllAcceptable, Resolve, SpliceAll, OnePass, Simultaneous;
    AcceptableIsAccepted(command, params, args);
    ResolvedIsSpliced(command, params, args);
  }

  lemma MisreadIsShown(order: seq<Binding>, command: string, reach: nat) returns (p: nat)
    requires PlainNames(order) && AllAcceptable(order) && Below(order, reach + 1) && 0 < reach
    requires (forall b :: b in order ==> |b.arg| <= reach) && !NoneMisreads(order, command)
    ensures p < |order|
    ensures var changed := WithArg(order, p, LongArg(command, reach));
      AllAcceptable(changed) && SpliceAll(changed, command) != OnePass(changed, command)
  {
    hide *;
    var i;
    p, i := FirstMisread(order, command);
    LongArgIsLong(command, reach);
    LongArgShows(order, command, p, i, reach, LongArg(command, reach));
  }

  /** Where short arguments are misread, some accepted arguments show two different results. */
  lemma MisreadNeedsArguments(command: string, params: seq<Param>, short: seq<string>) returns (args: seq<string>)
    requires |short| == |params| && PlainParams(params) && ShortArgs(params, short, Longest(params))
    requires !NoneMisreads(Order(Bind(params, short)), command)
    ensures |args| == |params| && Resolve(command, params, args).Ok?
    ensures Resolve(command, params, args).value.0 != Simultaneous(Bind(params, args), command)
  {
    hide *;
    ShortOrder(params, short);
    LongestIsPositive(params);
    var p := MisreadIsShown(Order(Bind(params, short)), command, Longest(params));
    args := ChangedArgs(params, short, p, LongArg(command, Longest(params)));
    TwoResults(command, params, args);
  }

  lemma LongestIsPositive(params: seq<Param>)
    ensures 0 < Longest(params)
  {
  }

  lemma ArgsStayShort(params: seq<Param>, args: seq<string>, reach: nat)
    requires ShortArgs(params, args, reach)
    ensures forall b :: b in Order(Bind(params, args)) ==> |b.arg| <= reach
  {
    SameElements(Order(Bind(params, args)), Bind(params, args));
  }

  lemma ChangedArgs(params: seq<Param>, args: seq<string>, p: nat, arg: string) returns (changed: seq<string>)
    requires |args| == |params| && p < |Order(Bind(params, args))|
    ensures |changed| == |params|
    ensures Order(Bind(params, changed)) == WithArg(Order(Bind(params, args)), p, arg)
  {
    hide Order;
    var k := ArgOfOrder(Bind(params, args), p, arg);
    changed := args[k := arg];
    assert Bind(params, changed) == WithArg(Bind(params, args), k, arg);
  }

  lemma AcceptableIsAccepted(command: string, params: seq<Param>, args: seq<string>)
    requires |args| == |params| && AllAcceptable(Order(Bind(params, args)))
    ensures Resolve(command, params, args).Ok?
  {
    SpliceInOrderAccepts(Order(Bind(params, args)), command);
  }

  /** Where nothing is misread, a call resolves to the simultaneous substitution. */
  lemma UnmisreadResolves(command: string, params: seq<Param>, args: seq<string>)
    requires PlainParams(params) && Resolve(command, params, args).Ok?
    requires NoneMisreads(Order(Bind(params, args)), command)
    ensures Resolve(command, params, args).value.0 == Simultaneous(Bind(params, args), command)
  {
    ResolvedIsSpliced(command, params, args);
    OrderOfPlain(params, args);
    PlainNamesAreFlat(Order(Bind(params, args)), command);
    SplicesAreOnePass(Order(Bind(params, args)), command);
  }

  /** For names without `$`: splicing one parameter after another is one simultaneous
      substitution, for all arguments, exactly when no arguments as short as the names are
      misread. */
  lemma SimultaneousExactlyWhenNeverMisread(command: string, params: seq<Param>)
    requires PlainParams(params)
    ensures AlwaysSimultaneous(command, params) <==> NeverMisreads(command, params)
  {
    if NeverMisreads(command, params) {
      forall args: seq<string> | Resolve(command, params, args).Ok?
        ensures Resolve(command, params, args).value.0 == Simultaneous(Bind(params, args), command)
      {
        ResolvedIsSpliced(command, params, args);
        OrderOfPlain(params, args);
        NeverMisreadsAnything(command, params, args);
        UnmisreadResolves(command, params, args);
      }
    } else {
      var short: seq<string> :|
        ShortArgs(params, short, Longest(params)) && !NoneMisreads(Order(Bind(params, short)), command);
      var args := MisreadNeedsArguments(command, params, short);
    }
  }

  // ----- Names of identifier characters -----

  lemma NoJoinNeverMisreads(command: string, params: seq<Param>, args: seq<string>)
    requires PlainParams(params) && NoJoin(command, params) && |args| == |params|
    ensures NoneMisreads(Order(Bind(params, args)), command)
  {
    BlankOrder(params, args);
    NothingJoinsGoesByNames(Erased, Order(Bind(params, args)), command);
    OrderOfPlain(params, args);
    UnjoinedIsNotMisread(Order(Bind(params, args)), command);
  }

  /** Where nothing can be joined, every call resolves to the simultaneous substitution. */
  lemma NoJoinSuffices(command: string, params: seq<Param>, args: seq<string>)
    requires Resolve(command, params, args).Ok? && NoJoin(command, params) && PlainParams(params)
    ensures Resolve(command, params, args).value.0 == Simultaneous(Bind(params, args), command)
  {
    NoJoinNeverMisreads(command, params, args);
    UnmisreadResolves(command, params, args);
  }

  /** With the missing part of a joined name for every argument, the name is read. */
  lemma JoinIsMisread(before: seq<Binding>, last: Binding, text: string, d: nat, missing: string)
    requires Joins(before, last, text) && '$' !in last.name && forall b :: b in before ==> b.arg == missing
    requires Find(text[1..], '$') == Some(d) && last.name[d..] == missing
    ensures Misread(before, last, text)
  {
    hide FirstHit, Find, OnePass;
    var n, rest := last.name, text[1..];
    var w, next := rest[..d], rest[d..];
    assert rest == w + next && next == text[1 + d..] && w == text[1..1 + d];
    assert n == w + missing;
    NameStopsAtDollar(n, rest, d);
    ArgumentIsRead(before, w, next, missing);
  }

  lemma PassStartsWithArg(before: seq<Binding>, next: string)
    requires FirstHit(before, next).Some?
    ensures FirstHit(before, next).value.arg <= OnePass(before, next)
  {
    HitSplits(FirstHit(before, next).value, next);
  }

  lemma PrefixBehind(w: string, a: string, b: string)
    requires a <= b
    ensures w + a <= w + b
  {
  }

  lemma ArgumentIsRead(before: seq<Binding>, w: string, next: string, missing: string)
    requires FirstHit(before, next).Some? && '$' !in w && forall b :: b in before ==> b.arg == missing
    ensures w + missing <= OnePass(before, w + next)
  {
    PassStartsWithArg(before, next);
    hide OnePass;
    OnePassCopies(before, w, next);
    PrefixBehind(w, missing, OnePass(before, next));
  }

  /** The part of a joined name that an argument has to supply. */
  lemma MissingPart(params: seq<Param>, last: Binding, before: seq<Binding>, text: string)
    returns (d: nat, missing: string)
    requires IdentNames(params) && Joins(before, last, text) && last in Order(Blank(params))
    ensures Find(text[1..], '$') == Some(d) && d < |last.name| && missing == last.name[d..]
    ensures IsIdentifier(missing) && |missing| <= Longest(params)
  {
    d := Find(text[1..], '$').value;
    missing := last.name[d..];
    OrderHasNames(params, Blank(params));
    assert Param(last.name, last.kind) in params;
    assert forall c :: c in missing ==> c in last.name;
  }

  /** `missing` for every argument. */
  function Repeated(params: seq<Param>, missing: string): (args: seq<string>)
    ensures |args| == |params| && forall arg :: arg in args ==> arg == missing
  {
    seq(|params|, _ => missing)
  }

  lemma RepeatedOrder(params: seq<Param>, missing: string, reach: nat)
    requires IsIdentifier(missing) && |missing| <= reach
    ensures ShortArgs(params, Repeated(params, missing), reach)
    ensures forall b :: b in Order(Bind(params, Repeated(params, missing))) ==> b.arg == missing
  {
    var bs := Bind(params, Repeated(params, missing));
    hide IsIdentifier;
    SameElements(Order(bs), bs);
  }

  lemma JoinMisreads(command: string, params: seq<Param>)
    requires IdentNames(params) && !NoJoin(command, params)
    ensures !NeverMisreads(command, params)
  {
    var blank := Order(Blank(params));
    var p, i := FirstJoin(blank, command);
    assert blank[p] in blank;
    var d, missing := MissingPart(params, blank[p], blank[..p], command[i..]);
    var args := Repeated(params, missing);
    var order := Order(Bind(params, args));
    RepeatedOrder(params, missing, Longest(params));
    BlankOrder(params, args);
    IdentNamesArePlain(params);
    OrderOfPlain(params, args);
    JoinedOrderMisreads(order, command, p, i, d, missing);
  }

  lemma JoinedOrderMisreads(order: seq<Binding>, text: string, p: nat, i: nat, d: nat, missing: string)
    requires p < |order| && i < |text| && PlainNames(order)
    requires Joins(Map(Erased, order)[..p], Erased(order[p]), text[i..])
    requires forall b :: b in order ==> b.arg == missing
    requires Find(text[i..][1..], '$') == Some(d) && order[p].name[d..] == missing
    ensures !NoneMisreads(order, text)
  {
    hide Joins, Map, Find, Misread;
    MapPrefix(Erased, order, p);
    JoinsGoByNames(Erased, order[..p], order[p], text[i..]);
    assert order[p] in order && forall b :: b in order[..p] ==> b in order;
    JoinsIdent(order[..p], order[p], text[i..]);
    JoinIsMisread(order[..p], order[p], text[i..], d, missing);
    MisreadsSomewhere(order, text, p, i);
  }

  lemma JoinsIdent(before: seq<Binding>, last: Binding, text: string)
    requires Joins(before, last, text)
    ensures last.kind == Ident
  {
  }

  /** For names of identifier characters, that is when nothing can be joined: a test on the
      template and the parameters alone. */
  lemma SimultaneousExactlyWhenNoJoin(command: string, params: seq<Param>)
    requires IdentNames(params)
    ensures AlwaysSimultaneous(command, params) <==> NoJoin(command, params)
  {
    IdentNamesArePlain(params);
    SimultaneousExactlyWhenNeverMisread(command, params);
    if NoJoin(command, params) {
      forall args: seq<string> | ShortArgs(params, args, Longest(params))
        ensures NoneMisreads(Order(Bind(params, args)), command)
      {
        NoJoinNeverMisreads(command, params, args);
      }
    } else {
      JoinMisreads(command, params);
    }
  }

  // ----- Separated templates -----

  /** A character that is in no identifier parameter's name. */
  predicate Separates(bs: seq<Binding>, c: char)
  {
    forall b :: b in bs && b.kind == Ident ==> c !in b.name
  }

  /** Between any two `$` stands a separating character. */
  predicate Separated(bs: seq<Binding>, text: string)
  {
    forall i, j :: 0 <= i < j < |text| && text[i] == '$' && text[j] == '$' ==>
      exists k :: i < k < j && Separates(bs, text[k])
  }

  /** A name that holds a `$` does not stand in a separated template. */
  lemma HitHasNoDollar(order: seq<Binding>, text: string, b: Binding, i: nat, m: nat)
    requires Separated(order, text) && b in order && i <= |text| && Hits(b, text[i..]) && m < |b.name|
    ensures b.name[m] != '$'
  {
    hide Separates;
    var rest := text[i..];
    assert rest[1..] == text[i + 1..];
    assert forall j :: i < j <= i + |b.name| ==> text[j] == b.name[j - i - 1] && text[j] in b.name;
    assert text[i] == '$';
    if text[i + 1 + m] == '$' {
      var k :| i < k < i + 1 + m && Separates(order, text[k]);
      SeparatorIsInNoName(order, b, text[k]);
    }
  }

  lemma SeparatedIsFlat(order: seq<Binding>, text: string)
    requires Separated(order, text)
    ensures FlatHits(order, text)
  {
    hide Separated, Hits;
    forall b, i | b in order && 0 <= i <= |text| && Hits(b, text[i..]) ensures '$' !in b.name {
      forall m | 0 <= m < |b.name| ensures b.name[m] != '$' {
        HitHasNoDollar(order, text, b, i, m);
      }
    }
  }

  lemma SeparatorIsInNoName(order: seq<Binding>, b: Binding, c: char)
    requires Separates(order, c) && b in order && b.kind == Ident
    ensures c !in b.name
  {
  }

  /** A name cannot be read across a separator. */
  lemma SeparatorStopsName(before: seq<Binding>, n: string, w: string, c: char, rest: string)
    requires '$' !in w && c != '$' && c !in n && n <= OnePass(before, w + [c] + rest)
    ensures n <= w + [c] + rest
  {
    hide OnePass;
    assert w + [c] + rest == (w + [c]) + rest;
    OnePassCopies(before, w + [c], rest);
    PrefixAcross(n, w, [c] + OnePass(before, rest));
    assert w + ([c] + OnePass(before, rest)) == (w + [c]) + OnePass(before, rest);
    assert n <= w ==> n <= w + ([c] + rest);
    assert w + ([c] + rest) == w + [c] + rest;
  }

  /** Between a `$` and the next one stands a separator. */
  lemma NextSeparator(order: seq<Binding>, text: string, i: nat, d: nat) returns (m: nat)
    requires Separated(order, text) && i < |text| && text[i] == '$'
    requires d < |text[i..][1..]| && text[i..][1..][d] == '$' && '$' !in text[i..][1..][..d]
    ensures m < d && Separates(order, text[i..][1..][m]) && text[i..][1..][m] != '$' && '$' !in text[i..][1..][..m]
  {
    hide Separates;
    var rest := text[i..][1..];
    assert rest == text[i + 1..];
    var k :| i < k < i + 1 + d && Separates(order, text[k]);
    m := k - i - 1;
    assert rest[m] == rest[..d][m] && rest[..m] == rest[..d][..m];
  }

  lemma SeparatedIsNotMisread(order: seq<Binding>, text: string, p: nat, i: nat)
    requires Separated(order, text) && p < |order| && i < |text|
    ensures !Misread(order[..p], order[p], text[i..])
  {
    hide OnePass, FirstHit, Separates, Find, Separated;
    var before, last, rest := order[..p], order[p], text[i..][1..];
    if text[i] == '$' && last.kind == Ident && last.name <= OnePass(before, rest) {
      match Find(rest, '$')
      case None =>
        PassOfTextAlone(before, rest);
      case Some(d) =>
        var m := NextSeparator(order, text, i, d);
        SeparatorIsInNoName(order, last, rest[m]);
        assert rest == rest[..m] + [rest[m]] + rest[m + 1..];
        SeparatorStopsName(before, last.name, rest[..m], rest[m], rest[m + 1..]);
    }
  }

  /** When a character that is in no identifier's name separates any two `$` of the template,
      splicing is one simultaneous substitution, whatever the names hold. */
  lemma ResolvedIsSimultaneous(command: string, params: seq<Param>, args: seq<string>)
    requires Resolve(command, params, args).Ok? && Separated(Bind(params, args), command)
    ensures Resolve(command, params, args).value.0 == Simultaneous(Bind(params, args), command)
  {
    var bs := Bind(params, args);
    var order := Order(bs);
    ResolvedIsSpliced(command, params, args);
    SameElements(order, bs);
    assert Separated(order, command) by {
      assert forall c :: Separates(bs, c) ==> Separates(order, c);
    }
    hide Separated, Misread;
    SeparatedIsFlat(order, command);
    forall p, i | 0 <= p < |order| && 0 <= i < |command| ensures !Misread(order[..p], order[p], command[i..]) {
      SeparatedIsNotMisread(order, command, p, i);
    }
    SplicesAreOnePass(order, command);
  }

  // ----- Two templates that are read differently -----

  lemma OrderOfTwo(x: Binding, y: Binding)
    requires LongerFirst(x, y) != Greater
    ensures Order([x, y]) == [x, y]
  {
    hide Utf8Len;
    assert [x, y][1..] == [y] && [y][1..] == [];
    assert SortBy(LongerFirst, []) == [];
    assert SortBy(LongerFirst, [y]) == [y];
  }

  lemma LongerNameFirst(x: Binding, y: Binding)
    requires IsAscii(x.name) && IsAscii(y.name) && |x.name| >= |y.name|
    ensures Order([x, y]) == [x, y]
  {
    AsciiLen(x.name);
    AsciiLen(y.name);
    OrderOfTwo(x, y);
  }

  lemma NestedSplices(ab: Binding, x: Binding)
    requires ab == Binding("ab", Ident, "x") && x == Binding("x", Ident, "y")
    ensures SpliceAll([ab, x], "$$ab") == "y"
  {
    var s := "$$ab";
    assert [ab, x][1..] == [x] && [x][1..] == [];
    assert s[1..] == "$ab" && "$ab"[3..] == "" && "$x"[2..] == "";
    assert s[1] != 'a';
    assert Replace("$ab", "$ab", "x") == "x" + Replace("", "$ab", "x");
    assert Replace(s, "$ab", "x") == "$" + Replace(s[1..], "$ab", "x") == "$x";
    assert Replace("$x", "$x", "y") == "y" + Replace("", "$x", "y");
    assert SpliceAll([ab, x], s) == SpliceAll([x], "$x") == SpliceAll([], "y");
  }

  lemma ChosenOfTwo(x: Binding, y: Binding, text: string)
    ensures Chosen([x, y], text) == Better(x, Better(y, None, text), text)
  {
    hide Hits, Better;
    assert [x, y][1..] == [y] && [y][1..] == [];
    ChosenStep([x, y], text);
    ChosenStep([y], text);
  }

  /** Where no binding hits, the first character is kept. */
  lemma UnhitIsKept(bs: seq<Binding>, c: char, rest: string)
    requires Chosen(bs, [c] + rest) == None
    ensures Simultaneous(bs, [c] + rest) == [c] + Simultaneous(bs, rest)
  {
    assert ([c] + rest)[1..] == rest;
  }

  /** Where a binding hits, its argument is put in. */
  lemma HitIsReplaced(bs: seq<Binding>, b: Binding, rest: string)
    requires Chosen(bs, "$" + (b.name + rest)) == Some(b)
    ensures Simultaneous(bs, "$" + (b.name + rest)) == b.arg + Simultaneous(bs, rest)
  {
    hide IsLongestHit, Hits;
    var s := "$" + (b.name + rest);
    assert s[1 + |b.name|..] == rest;
  }

  lemma NestedSimultaneous(ab: Binding, x: Binding)
    requires ab == Binding("ab", Ident, "x") && x == Binding("x", Ident, "y")
    ensures Simultaneous([ab, x], "$$ab") == "$x"
  {
    hide Simultaneous, Chosen, Utf8Len;
    var inner := "$" + ("ab" + "");
    var s := "$" + inner;
    assert s[1..] == inner && inner[1..] == "ab";
    assert s[1] == '$' && inner[1] == 'a';
    ChosenOfTwo(ab, x, s);
    ChosenOfTwo(ab, x, inner);
    UnhitIsKept([ab, x], '$', inner);
    HitIsReplaced([ab, x], ab, "");
    NothingToReplace([ab, x], "");
    assert s == "$$ab";
  }

  /** With `ab` and `x` both parameters, the `$` of `$$ab` and the
      argument of `ab` together read as the other placeholder. */
  lemma NestedPlaceholderIsReadAgain(command: string, params: seq<Param>, args: seq<string>)
    requires command == "$$ab" && params == [Param("ab", Ident), Param("x", Ident)] && args == ["x", "y"]
    ensures Resolve(command, params, args) == Ok(("y", None))
    ensures Simultaneous(Bind(params, args), command) == "$x"
  {
    hide Replace, Simultaneous, Hits, LongestHit, LongerFirst, Order, SpliceInOrder, SpliceAll;
    var ab, x := Binding("ab", Ident, "x"), Binding("x", Ident, "y");
    var bs := Bind(params, args);
    assert bs == [ab, x];
    LongerNameFirst(ab, x);
    NestedSplices(ab, x);
    NestedSimultaneous(ab, x);
    SpliceInOrderAccepts(bs, command);
    assert StdinParts(bs) == [] by {
      assert bs[1..] == [x] && [x][1..] == [];
      assert StdinParts([x]) == [];
    }
  }

  /** What parameters resolve a template of one placeholder to. */
  lemma OnePlaceholderResolves(params: seq<Param>, v: string, args: seq<string>)
    requires '$' !in v && PlainParams(params) && |args| == |params|
    requires forall i :: 0 <= i < |params| && params[i].kind == Ident ==> IsIdentifier(args[i])
    ensures Resolve("$" + v, params, args).Ok?
    ensures Resolve("$" + v, params, args).value
            == (Simultaneous(Bind(params, args), "$" + v), StdinOf(Bind(params, args)))
  {
    RefusedExactlyWhen("$" + v, params, args);
    OneDollarNeverJoins(Order(Blank(params)), v);
    hide Order, Blank, Resolve, Simultaneous, IsIdentifier, StdinOf, Bind, NothingJoins;
    NoJoinSuffices("$" + v, params, args);
    ResolvedStdin("$" + v, params, args);
  }

  /** Longest first: an identifier's name is not replaced inside the longer name of another
      identifier. */
  lemma LongerIdentifierWins(name: string, rest: string, a: string, b: string)
    requires '$' !in name + rest && rest != "" && IsIdentifier(a) && IsIdentifier(b)
    ensures Resolve("$" + (name + rest), [Param(name, Ident), Param(name + rest, Ident)], [a, b]) == Ok((b, None))
  {
    hide Resolve, Simultaneous, Chosen, IsIdentifier, StdinParts, Utf8Len;
    var x, y := Binding(name, Ident, a), Binding(name + rest, Ident, b);
    var params := [Param(name, Ident), Param(name + rest, Ident)];
    assert Bind(params, [a, b]) == [x, y];
    OnePlaceholderResolves(params, name + rest, [a, b]);
    assert (name + rest) + "" == name + rest;
    TwoHits(x, y, rest);
    HitIsReplaced([x, y], y, "");
    NothingToReplace([x, y], "");
    NoPartsOfTwo(x, y);
    assert b + "" == b;
  }

  lemma TwoHits(x: Binding, y: Binding, rest: string)
    requires x.kind == Ident && y.kind == Ident && y.name == x.name + rest && rest != ""
    ensures Chosen([x, y], "$" + y.name) == Some(y)
  {
    hide Chosen;
    ChosenOfTwo(x, y, "$" + y.name);
    assert ("$" + y.name)[1..] == y.name;
    Utf8LenSplit(x.name, rest);
  }

  lemma NoPartsOfTwo(x: Binding, y: Binding)
    requires x.kind == Ident && y.kind == Ident
    ensures StdinParts([x, y]) == []
  {
    assert [x, y][1..] == [y] && [y][1..] == [];
    assert StdinParts([y]) == StdinParts([]);
  }

  /** But it is inside the longer name of a text parameter. */
  lemma TextNameIsClobbered(name: string, rest: string, arg: string, text: string)
    requires '$' !in name + rest && IsIdentifier(arg)
    ensures Resolve("$" + (name + rest), [Param(name, Ident), Param(name + rest, Stdin)], [arg, text])
            == Ok((arg + rest, Some(text)))
  {
    hide Resolve, Simultaneous, Chosen, IsIdentifier, StdinParts, Utf8Len;
    var x, y := Binding(name, Ident, arg), Binding(name + rest, Stdin, text);
    var params := [Param(name, Ident), Param(name + rest, Stdin)];
    assert Bind(params, [arg, text]) == [x, y];
    OnePlaceholderResolves(params, name + rest, [arg, text]);
    OneHit(x, y, rest);
    HitIsReplaced([x, y], x, rest);
    NothingToReplace([x, y], rest);
    PartsOfTwo(x, y);
  }

  lemma OneHit(x: Binding, y: Binding, rest: string)
    requires x.kind == Ident && y.kind == Stdin
    ensures Chosen([x, y], "$" + (x.name + rest)) == Some(x)
  {
    hide Chosen;
    ChosenOfTwo(x, y, "$" + (x.name + rest));
    assert ("$" + (x.name + rest))[1..] == x.name + rest;
  }

  lemma PartsOfTwo(x: Binding, y: Binding)
    requires x.kind == Ident && y.kind == Stdin
    ensures StdinParts([x, y]) == [y.arg]
  {
    assert [x, y][1..] == [y] && [y][1..] == [];
    assert StdinParts([y]) == [y.arg] + StdinParts([]);
  }

  lemma ResolvedStdin(command: string, params: seq<Param>, args: seq<string>)
    requires Resolve(command, params, args).Ok?
    ensures |params| == |args| && Resolve(command, params, args).value.1 == StdinOf(Bind(params, args))
  {
  }

  lemma OneDollarNeverJoins(order: seq<Binding>, v: string)
    requires '$' !in v
    ensures NothingJoins(order, "$" + v)
  {
    hide FirstHit;
    forall i | 0 <= i < |"$" + v| ensures Find(("$" + v)[i..][1..], '$').None? {
      assert ("$" + v)[i..][1..] == v[i..];
    }
  }

  lemma {:induction false} NothingToReplace(bs: seq<Binding>, text: string)
    requires '$' !in text
    ensures Simultaneous(bs, text) == text
    decreases |text|
  {
    if text != "" {
      assert text[0] in text;
      NothingToReplace(bs, text[1..]);
    }
  }
}
