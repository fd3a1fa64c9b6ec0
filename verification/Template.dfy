/** Resolving a command template: identifier arguments are spliced into the command one
    parameter at a time, longest name first, and text arguments go to standard input. */
module Template {
  import opened Wrappers
  import opened Text
  import opened Sorting

  datatype Kind = Ident | Stdin
  datatype Param = Param(name: string, kind: Kind)

  /** A parameter with the argument given for it. */
  datatype Binding = Binding(name: string, kind: Kind, arg: string)

  datatype TemplateError = WrongCount(expected: nat, got: nat) | NotIdentifier(name: string, arg: string)

  predicate IsIdentChar(c: char)
  {
    'a' <= c <= 'z' || 'A' <= c <= 'Z' || '0' <= c <= '9' || c == '_' || c == '-' || c == '.'
  }

  predicate IsIdentifier(arg: string)
  {
    arg != "" && forall c :: c in arg ==> IsIdentChar(c)
  }

  /** `str::replace`: leftmost occurrences that do not overlap. */
  function Replace(s: string, pat: string, with: string): string
    requires pat != ""
    decreases |s|
  {
    if s == "" then ""
    else if pat <= s then with + Replace(s[|pat|..], pat, with)
    else [s[0]] + Replace(s[1..], pat, with)
  }

  function Bind(params: seq<Param>, args: seq<string>): (bs: seq<Binding>)
    requires |params| == |args|
    ensures |bs| == |params|
    ensures forall i :: 0 <= i < |bs| ==> bs[i] == Binding(params[i].name, params[i].kind, args[i])
  {
    seq(|params|, i requires 0 <= i < |params| => Binding(params[i].name, params[i].kind, args[i]))
  }

  function LongerFirst(a: Binding, b: Binding): Ordering
  {
    CmpInt(Utf8Len(b.name), Utf8Len(a.name))
  }

  function Order(bs: seq<Binding>): (order: seq<Binding>)
    ensures multiset(order) == multiset(bs)
  {
    SortBy(LongerFirst, bs)
  }

  predicate Acceptable(b: Binding)
  {
    b.kind == Stdin || IsIdentifier(b.arg)
  }

  function Splice(b: Binding, text: string): string
  {
    if b.kind == Stdin then text else Replace(text, "$" + b.name, b.arg)
  }

  function SpliceInOrder(order: seq<Binding>, text: string): Result<string, TemplateError>
  {
    if order == [] then Ok(text)
    else if !Acceptable(order[0]) then Err(NotIdentifier(order[0].name, order[0].arg))
    else SpliceInOrder(order[1..], Splice(order[0], text))
  }

  function StdinParts(bs: seq<Binding>): seq<string>
  {
    if bs == [] then []
    else (if bs[0].kind == Stdin then [bs[0].arg] else []) + StdinParts(bs[1..])
  }

  function StdinOf(bs: seq<Binding>): Option<string>
  {
    if StdinParts(bs) == [] then None else Some(Join(StdinParts(bs), '\n'))
  }

  function Resolve(command: string, params: seq<Param>, args: seq<string>)
    : Result<(string, Option<string>), TemplateError>
  {
    if |args| != |params| then Err(WrongCount(|params|, |args|))
    else match SpliceInOrder(Order(Bind(params, args)), command)
      case Err(e) => Err(e)
      case Ok(resolved) => Ok((resolved, StdinOf(Bind(params, args))))
  }

  method ResolveTemplate(command: string, params: seq<Param>, args: seq<string>)
    returns (r: Result<(string, Option<string>), TemplateError>)
    ensures r == Resolve(command, params, args)
  {
    if |args| != |params| {
      return Err(WrongCount(|params|, |args|));
    }
    var resolved := command;
    var order := Order(Bind(params, args));
    for k := 0 to |order|
      invariant SpliceInOrder(order[k..], resolved) == SpliceInOrder(order, command)
    {
      var b := order[k];
      assert order[k..][0] == b && order[k..][1..] == order[k + 1..];
      match b.kind
      case Ident =>
        if !IsIdentifier(b.arg) {
          return Err(NotIdentifier(b.name, b.arg));
        }
        resolved := Replace(resolved, "$" + b.name, b.arg);
      case Stdin =>
    }
    return Ok((resolved, StdinOf(Bind(params, args))));
  }

  // ----- What is accepted -----

  /** The splices without the checks. */
  function SpliceAll(order: seq<Binding>, text: string): string
  {
    if order == [] then text else SpliceAll(order[1..], Splice(order[0], text))
  }

  lemma {:induction false} SpliceInOrderAccepts(order: seq<Binding>, text: string)
    ensures (forall b :: b in order ==> Acceptable(b)) <==> SpliceInOrder(order, text).Ok?
    ensures SpliceInOrder(order, text).Ok? ==> SpliceInOrder(order, text).value == SpliceAll(order, text)
  {
    if order != [] {
      SpliceInOrderAccepts(order[1..], Splice(order[0], text));
      assert forall b :: b in order <==> b == order[0] || b in order[1..];
    }
  }

  /** A call is refused exactly for a wrong number of arguments or an identifier argument that
      is not one. */
  lemma RefusedExactlyWhen(command: string, params: seq<Param>, args: seq<string>)
    ensures Resolve(command, params, args).Ok? <==>
            |args| == |params| && forall i :: 0 <= i < |params| && params[i].kind == Ident ==> IsIdentifier(args[i])
  {
    if |args| == |params| {
      var bs := Bind(params, args);
      SpliceInOrderAccepts(Order(bs), command);
      SameElements(Order(bs), bs);
      assert forall i :: 0 <= i < |bs| ==> bs[i] in bs;
    }
  }

  lemma {:induction false} SpliceRefusesCulprit(order: seq<Binding>, text: string)
    requires SpliceInOrder(order, text).Err?
    ensures exists b :: b in order && !Acceptable(b) && SpliceInOrder(order, text) == Err(NotIdentifier(b.name, b.arg))
  {
    if Acceptable(order[0]) {
      SpliceRefusesCulprit(order[1..], Splice(order[0], text));
      var b :| b in order[1..] && !Acceptable(b)
        && SpliceInOrder(order, text) == Err(NotIdentifier(b.name, b.arg));
      assert b in order;
    } else {
      assert order[0] in order;
    }
  }

  /** A refusal tells the counts, or an identifier parameter and its bad argument. */
  lemma RefusalNamesCulprit(command: string, params: seq<Param>, args: seq<string>)
    ensures match Resolve(command, params, args)
      case Ok(_) => true
      case Err(WrongCount(expected, got)) => expected == |params| && got == |args| && expected != got
      case Err(NotIdentifier(name, arg)) =>
        && |args| == |params| && !IsIdentifier(arg)
        && exists i :: 0 <= i < |params| && params[i] == Param(name, Ident) && args[i] == arg
  {
    hide Order, Splice, IsIdentifier;
    if |args| == |params| && Resolve(command, params, args).Err? {
      var bs := Bind(params, args);
      SpliceRefusesCulprit(Order(bs), command);
      SameElements(Order(bs), bs);
      var b :| b in Order(bs) && !Acceptable(b)
        && SpliceInOrder(Order(bs), command) == Err(NotIdentifier(b.name, b.arg));
      var i :| 0 <= i < |bs| && bs[i] == b;
      assert params[i] == Param(b.name, Ident);
    }
  }

  // ----- What does not depend on arguments -----

  function Map(f: Binding -> Binding, s: seq<Binding>): (r: seq<Binding>)
    ensures |r| == |s| && forall i :: 0 <= i < |s| ==> r[i] == f(s[i])
  {
    if s == [] then [] else [f(s[0])] + Map(f, s[1..])
  }

  lemma MapFront(f: Binding -> Binding, x: Binding, s: seq<Binding>)
    ensures Map(f, [x] + s) == [f(x)] + Map(f, s)
  {
    assert ([x] + s)[1..] == s;
  }

  lemma {:induction false} InsertMaps(f: Binding -> Binding, x: Binding, s: seq<Binding>)
    requires forall b :: f(b).name == b.name
    ensures Insert(LongerFirst, f(x), Map(f, s)) == Map(f, Insert(LongerFirst, x, s))
  {
    hide Map, Utf8Len;
    MapFront(f, x, s);
    if s != [] {
      assert s == [s[0]] + s[1..];
      MapFront(f, s[0], s[1..]);
      assert Map(f, s)[1..] == Map(f, s[1..]);
      assert LongerFirst(f(x), f(s[0])) == LongerFirst(x, s[0]);
      if LongerFirst(x, s[0]) == Greater {
        InsertMaps(f, x, s[1..]);
        MapFront(f, s[0], Insert(LongerFirst, x, s[1..]));
      }
    }
  }

  /** The order of splicing goes by names: changing arguments does not change it. */
  lemma {:induction false} OrderMaps(f: Binding -> Binding, s: seq<Binding>)
    requires forall b :: f(b).name == b.name
    ensures Order(Map(f, s)) == Map(f, Order(s))
  {
    if s != [] {
      OrderMaps(f, s[1..]);
      assert Map(f, s)[1..] == Map(f, s[1..]);
      InsertMaps(f, s[0], Order(s[1..]));
    }
  }

  function WithoutText(b: Binding): Binding
  {
    if b.kind == Stdin then b.(arg := "") else b
  }

  lemma {:induction false} TextIsNotSpliced(order: seq<Binding>, text: string)
    ensures SpliceInOrder(Map(WithoutText, order), text) == SpliceInOrder(order, text)
    decreases |order|
  {
    if order != [] {
      assert Map(WithoutText, order)[1..] == Map(WithoutText, order[1..]);
      TextIsNotSpliced(order[1..], Splice(order[0], text));
    }
  }

  /** No text argument reaches the command: whatever they are, the call is accepted or refused
      alike, with the same command. */
  lemma CommandIgnoresTextArguments(command: string, params: seq<Param>, a: seq<string>, b: seq<string>)
    requires |a| == |b| == |params|
    requires forall i :: 0 <= i < |params| && params[i].kind == Ident ==> a[i] == b[i]
    ensures var x, y := Resolve(command, params, a), Resolve(command, params, b);
      if x.Ok? then y.Ok? && x.value.0 == y.value.0 else x == y
  {
    SameSplices(command, params, a, b);
    hide Order, SpliceInOrder, Bind, StdinOf;
  }

  lemma SameSplices(command: string, params: seq<Param>, a: seq<string>, b: seq<string>)
    requires |a| == |b| == |params|
    requires forall i :: 0 <= i < |params| && params[i].kind == Ident ==> a[i] == b[i]
    ensures SpliceInOrder(Order(Bind(params, a)), command) == SpliceInOrder(Order(Bind(params, b)), command)
  {
    assert Map(WithoutText, Bind(params, a)) == Map(WithoutText, Bind(params, b));
    hide Order, SpliceInOrder, Bind, Map;
    OrderMaps(WithoutText, Bind(params, a));
    OrderMaps(WithoutText, Bind(params, b));
    TextIsNotSpliced(Order(Bind(params, a)), command);
    TextIsNotSpliced(Order(Bind(params, b)), command);
  }

  // ----- Standard input -----

  /** The positions of the text parameters, ascending. */
  function TextPositions(bs: seq<Binding>): (ps: seq<nat>)
    ensures forall p :: p in ps ==> p < |bs| && bs[p].kind == Stdin
    ensures forall p :: 0 <= p < |bs| && bs[p].kind == Stdin ==> p in ps
    ensures forall a, b :: 0 <= a < b < |ps| ==> ps[a] < ps[b]
  {
    if bs == [] then []
    else
      var n := |bs| - 1;
      var init := TextPositions(bs[..n]);
      assert forall p :: p in init ==> p < n && bs[..n][p] == bs[p];
      assert forall p :: 0 <= p < n && bs[p].kind == Stdin ==> bs[..n][p] == bs[p];
      assert forall a :: 0 <= a < |init| ==> init[a] in init;
      if bs[n].kind == Stdin then init + [n] else init
  }

  lemma {:induction false} StdinPartsAppend(a: seq<Binding>, b: Binding)
    ensures StdinParts(a + [b]) == StdinParts(a) + (if b.kind == Stdin then [b.arg] else [])
  {
    if a != [] {
      assert (a + [b])[1..] == a[1..] + [b];
      StdinPartsAppend(a[1..], b);
    } else {
      assert [b][1..] == [] && a + [b] == [b];
    }
  }

  lemma {:induction false} PartsAtPositions(bs: seq<Binding>)
    ensures |StdinParts(bs)| == |TextPositions(bs)|
    ensures forall k :: 0 <= k < |TextPositions(bs)| ==>
      TextPositions(bs)[k] in TextPositions(bs) && StdinParts(bs)[k] == bs[TextPositions(bs)[k]].arg
  {
    if bs != [] {
      var init, last := bs[..|bs| - 1], bs[|bs| - 1];
      assert bs == init + [last];
      PartsAtPositions(init);
      StdinPartsAppend(init, last);
    }
  }

  lemma {:induction false} SplitJoin(parts: seq<string>, sep: char)
    requires parts != [] && forall p :: p in parts ==> sep !in p
    ensures Split(Join(parts, sep), sep) == parts
  {
    if |parts| == 1 {
      assert parts[0] in parts && parts == [parts[0]];
      SplitWhole(parts[0], sep);
    } else {
      assert parts[0] in parts && parts == [parts[0]] + parts[1..];
      SplitFirst(parts[0], Join(parts[1..], sep), sep);
      SplitJoin(parts[1..], sep);
    }
  }

  /** The text arguments, in declared order. */
  function TextArguments(params: seq<Param>, args: seq<string>): (texts: seq<string>)
    requires |params| == |args|
    ensures |texts| == |TextPositions(Bind(params, args))|
  {
    var ps := TextPositions(Bind(params, args));
    seq(|ps|, k requires 0 <= k < |ps| => assert ps[k] in ps; args[ps[k]])
  }

  /** Standard input is exactly the text arguments in declared order, joined by newlines: it is
      absent when no parameter takes text, and arguments of one line each are read back from
      it. */
  lemma StdinIsTextArguments(command: string, params: seq<Param>, args: seq<string>)
    requires Resolve(command, params, args).Ok?
    ensures var texts := TextArguments(params, args);
      && Resolve(command, params, args).value.1 == (if texts == [] then None else Some(Join(texts, '\n')))
      && (texts != [] && (forall t :: t in texts ==> '\n' !in t) ==> Split(Join(texts, '\n'), '\n') == texts)
  {
    PartsAtPositions(Bind(params, args));
    var texts := TextArguments(params, args);
    assert StdinParts(Bind(params, args)) == texts;
    if texts != [] && forall t :: t in texts ==> '\n' !in t {
      SplitJoin(texts, '\n');
    }
  }
}
