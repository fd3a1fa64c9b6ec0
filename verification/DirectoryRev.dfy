/** The revision of a directory: one flat XOR of the fingerprints of the paths under it. */
module DirectoryRev {

  /** A 64-bit word, as the set of its bits that are set. */
  type Word = bits: set<nat> | forall b :: b in bits ==> b < 64

  /** The first eight bytes of a path's hash. */
  type Fingerprint = string -> Word

  function Xor(a: Word, b: Word): Word
  {
    (a - b) + (b - a)
  }

  lemma XorSwaps(a: Word, b: Word, c: Word)
    ensures Xor(Xor(a, b), c) == Xor(Xor(a, c), b)
  {
  }

  lemma XorCancels(a: Word, b: Word)
    ensures Xor(Xor(a, b), b) == a
  {
  }

  lemma XorTellsApart(a: Word, b: Word, c: Word)
    ensures Xor(a, b) == Xor(a, c) <==> b == c
  {
    assert Xor(a, b) == Xor(b, a) && Xor(a, c) == Xor(c, a);
    XorCancels(b, a);
    XorCancels(c, a);
  }

  function FoldPathRev(fingerprint: Fingerprint, acc: Word, path: string): Word
  {
    Xor(acc, fingerprint(path))
  }

  /** `fold_path_rev` over a list of paths. */
  function Rev(fingerprint: Fingerprint, acc: Word, paths: seq<string>): Word
    decreases |paths|
  {
    if paths == [] then acc else Rev(fingerprint, FoldPathRev(fingerprint, acc, paths[0]), paths[1..])
  }

  /** The other members, in their order. */
  function Others(paths: seq<string>, i: nat): seq<string>
    requires i < |paths|
  {
    paths[..i] + paths[i + 1..]
  }

  lemma {:induction false} FoldedFirst(fingerprint: Fingerprint, acc: Word, extra: string, paths: seq<string>)
    ensures Rev(fingerprint, FoldPathRev(fingerprint, acc, extra), paths)
            == FoldPathRev(fingerprint, Rev(fingerprint, acc, paths), extra)
    decreases |paths|
  {
    hide Xor;
    if paths != [] {
      XorSwaps(acc, fingerprint(extra), fingerprint(paths[0]));
      FoldedFirst(fingerprint, FoldPathRev(fingerprint, acc, paths[0]), extra, paths[1..]);
    }
  }

  /** A member can be folded last, wherever it stands. */
  lemma {:induction false} FoldedLast(fingerprint: Fingerprint, acc: Word, paths: seq<string>, i: nat)
    requires i < |paths|
    ensures Rev(fingerprint, acc, paths) == Xor(Rev(fingerprint, acc, Others(paths, i)), fingerprint(paths[i]))
    decreases |paths|
  {
    hide Xor;
    var others := Others(paths, i);
    if i > 0 {
      assert others[0] == paths[0] && others[1..] == Others(paths[1..], i - 1);
      FoldedLast(fingerprint, FoldPathRev(fingerprint, acc, paths[0]), paths[1..], i - 1);
    } else {
      assert others == paths[1..];
      FoldedFirst(fingerprint, acc, paths[0], paths[1..]);
    }
  }

  lemma FindMember(a: seq<string>, b: seq<string>) returns (i: nat)
    requires multiset(a) == multiset(b) && a != []
    ensures i < |b| && b[i] == a[0]
    ensures multiset(a[1..]) == multiset(Others(b, i))
  {
    assert a == [a[0]] + a[1..];
    assert a[0] in multiset(b);
    i :| 0 <= i < |b| && b[i] == a[0];
    assert b == b[..i] + [b[i]] + b[i + 1..];
    assert multiset(Others(b, i)) == multiset(b) - multiset{a[0]};
    assert multiset(a[1..]) == multiset(a) - multiset{a[0]};
  }

  /** The revision depends on the members only, not on the order they are met in. */
  lemma {:induction false} RevIgnoresOrder(fingerprint: Fingerprint, acc: Word, a: seq<string>, b: seq<string>)
    requires multiset(a) == multiset(b)
    ensures Rev(fingerprint, acc, a) == Rev(fingerprint, acc, b)
    decreases |a|
  {
    hide Xor, Others;
    assert |a| == |multiset(a)| == |multiset(b)| == |b|;
    if a != [] {
      var i := FindMember(a, b);
      FoldedLast(fingerprint, acc, b, i);
      FoldedFirst(fingerprint, acc, a[0], Others(b, i));
      RevIgnoresOrder(fingerprint, FoldPathRev(fingerprint, acc, a[0]), a[1..], Others(b, i));
    }
  }

  /** Folding a member once more takes it out again. */
  lemma FoldingTwiceRemoves(fingerprint: Fingerprint, acc: Word, paths: seq<string>, i: nat)
    requires i < |paths|
    ensures FoldPathRev(fingerprint, Rev(fingerprint, acc, paths), paths[i]) == Rev(fingerprint, acc, Others(paths, i))
  {
    hide Xor, Others, Rev;
    FoldedLast(fingerprint, acc, paths, i);
    XorCancels(Rev(fingerprint, acc, Others(paths, i)), fingerprint(paths[i]));
  }

  lemma XorAssociates(a: Word, b: Word, c: Word)
    ensures Xor(Xor(a, b), c) == Xor(a, Xor(b, c))
  {
  }

  lemma XorWithNothing(a: Word)
    ensures Xor({}, a) == a == Xor(a, {})
  {
  }

  lemma {:induction false} RevConcat(fingerprint: Fingerprint, acc: Word, a: seq<string>, b: seq<string>)
    ensures Rev(fingerprint, acc, a + b) == Rev(fingerprint, Rev(fingerprint, acc, a), b)
    decreases |a|
  {
    if a == [] {
      assert a + b == b;
    } else {
      assert (a + b)[1..] == a[1..] + b;
      RevConcat(fingerprint, FoldPathRev(fingerprint, acc, a[0]), a[1..], b);
    }
  }

  lemma {:induction false} RevFrom(fingerprint: Fingerprint, acc: Word, paths: seq<string>)
    ensures Rev(fingerprint, acc, paths) == Xor(acc, Rev(fingerprint, {}, paths))
    decreases |paths|
  {
    hide Xor;
    XorWithNothing(acc);
    if paths != [] {
      var first := fingerprint(paths[0]);
      RevFrom(fingerprint, Xor(acc, first), paths[1..]);
      XorWithNothing(first);
      RevFrom(fingerprint, first, paths[1..]);
      XorAssociates(acc, first, Rev(fingerprint, {}, paths[1..]));
    }
  }

  lemma XorIsNothing(a: Word, b: Word)
    ensures Xor(a, b) == {} <==> a == b
  {
    XorTellsApart(a, b, a);
    assert Xor(a, a) == {};
  }

  lemma SameRevAsFolded(fingerprint: Fingerprint, acc: Word, a: seq<string>, b: seq<string>)
    ensures Rev(fingerprint, acc, a) == Rev(fingerprint, acc, b) <==> Rev(fingerprint, {}, a + b) == {}
  {
    hide Xor, Rev;
    RevFrom(fingerprint, acc, a);
    RevFrom(fingerprint, acc, b);
    RevConcat(fingerprint, {}, a, b);
    RevFrom(fingerprint, Rev(fingerprint, {}, a), b);
    XorTellsApart(acc, Rev(fingerprint, {}, a), Rev(fingerprint, {}, b));
    XorIsNothing(Rev(fingerprint, {}, a), Rev(fingerprint, {}, b));
  }

  /** Two memberships have the same revision exactly when the fingerprints of the paths that
      are in one and not in the other cancel: adding, removing, renaming and moving files move
      the revision, but for that. */
  lemma RevMovesExactly(fingerprint: Fingerprint, acc: Word, a: seq<string>, b: seq<string>,
      common: seq<string>, x: seq<string>, y: seq<string>)
    requires multiset(a) == multiset(common + x) && multiset(b) == multiset(common + y)
    ensures Rev(fingerprint, acc, a) == Rev(fingerprint, acc, b) <==> Rev(fingerprint, {}, x + y) == {}
  {
    hide Xor, Rev;
    RevIgnoresOrder(fingerprint, acc, a, common + x);
    RevIgnoresOrder(fingerprint, acc, b, common + y);
    RevConcat(fingerprint, acc, common, x);
    RevConcat(fingerprint, acc, common, y);
    SameRevAsFolded(fingerprint, Rev(fingerprint, acc, common), x, y);
  }

  /** Adding a file, or removing it again, moves the revision unless its fingerprint is zero. */
  lemma AddMovesRev(fingerprint: Fingerprint, acc: Word, paths: seq<string>, name: string)
    ensures Rev(fingerprint, acc, paths + [name]) == Rev(fingerprint, acc, paths) <==> fingerprint(name) == {}
  {
    hide Xor;
    RevConcat(fingerprint, acc, paths, [name]);
    var before := Rev(fingerprint, acc, paths);
    assert [name][1..] == [];
    assert Rev(fingerprint, before, [name]) == Xor(before, fingerprint(name));
    XorWithNothing(before);
    XorTellsApart(before, fingerprint(name), {});
  }

  /** Renaming a member moves the revision, except exactly when the two names have the same
      fingerprint. */
  lemma RenameMovesRev(fingerprint: Fingerprint, acc: Word, paths: seq<string>, i: nat, name: string)
    requires i < |paths|
    ensures Rev(fingerprint, acc, paths[i := name]) == Rev(fingerprint, acc, paths)
            <==> fingerprint(name) == fingerprint(paths[i])
  {
    hide Xor, Rev;
    var renamed := paths[i := name];
    assert Others(renamed, i) == Others(paths, i);
    FoldedLast(fingerprint, acc, paths, i);
    FoldedLast(fingerprint, acc, renamed, i);
    XorTellsApart(Rev(fingerprint, acc, Others(paths, i)), fingerprint(name), fingerprint(paths[i]));
  }
}
