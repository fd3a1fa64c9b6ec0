/** The freshness gate that runs before a command reads indexed files.

    An external writer may rewrite any file between any two looks at the disk.  Its whole
    behaviour is one arbitrary history, `world(t, path)`, and every look the gate takes
    happens one tick later than the one before, so whatever the writer does between two
    looks is some such history. */
module FreshnessGate {
  import opened Wrappers

  /** One file at one instant.  `version` moves with every rewrite; `content` is the content
      id of the bytes.  A file can be unreadable, or refuse a stat, without being rewritten. */
  datatype File = File(version: nat, content: nat, statable: bool, readable: bool)

  /** `ids` holds the content id each file was indexed with; `rows` is everything else. */
  datatype Index<R> = Index(ids: map<string, nat>, rows: R)

  datatype Session<R> = Session(index: Index<R>, stamps: map<string, nat>)

  datatype Freshness = Verified | Stale | Unknown

  /** What the gate cannot see into: the disk, the re-indexer, and the resolution of the
      command to file names. */
  datatype Env<!R> = Env(
    world: (nat, string) -> File,
    reindex: (Index<R>, string, nat) -> (Index<R>, bool),
    named: Index<R> -> seq<string>)

  datatype Verdict = Unchanged | Reindexed | Refused(reindexFailed: bool)

  // ----- Specification -----

  /** Size and mtime: present when the file can be stat'ed, and moved by every rewrite. */
  function StampAt<R>(env: Env<R>, t: nat, path: string): Option<nat>
  {
    var file := env.world(t, path);
    if file.statable then Some(file.version) else None
  }

  function FreshnessAt<R>(env: Env<R>, index: Index<R>, t: nat, path: string): Freshness
  {
    var file := env.world(t, path);
    if path !in index.ids || !file.readable then Unknown
    else if file.content == index.ids[path] then Verified
    else Stale
  }

  function Stamped(stamps: map<string, nat>, path: string, stamp: Option<nat>): map<string, nat>
  {
    if stamp.Some? then stamps[path := stamp.value] else stamps
  }

  datatype FileGate<R> = FileGate(session: Session<R>, now: nat, verdict: Verdict)

  /** `ensure_file_fresh`, looking at the disk at `t`, `t + 1`, …: stamp, hash, re-index,
      stamp, hash. */
  function EnsureFile<R>(env: Env<R>, s: Session<R>, t: nat, path: string): FileGate<R>
  {
    var stamp := StampAt(env, t, path);
    if stamp.Some? && path in s.stamps && s.stamps[path] == stamp.value then
      FileGate(s, t + 1, Unchanged)
    else
      match FreshnessAt(env, s.index, t + 1, path)
      case Verified => FileGate(s.(stamps := Stamped(s.stamps, path, stamp)), t + 2, Unchanged)
      case Unknown => FileGate(s, t + 2, Unchanged)
      case Stale => RestoreFile(env, s, t + 2, path)
  }

  /** The half of `ensure_file_fresh` that runs for a stale file. */
  function RestoreFile<R>(env: Env<R>, s: Session<R>, t: nat, path: string): FileGate<R>
  {
    var (index, ok) := env.reindex(s.index, path, t);
    var verified := StampAt(env, t + 1, path);
    if FreshnessAt(env, index, t + 2, path) != Verified then
      FileGate(s.(index := index), t + 3, Refused(!ok))
    else
      FileGate(Session(index, Stamped(s.stamps, path, verified)), t + 3, Reindexed)
  }

  datatype Gate<R> = Gate(session: Session<R>, now: nat, reindexed: seq<string>, refused: Option<string>)

  /** One pass over the files a command names.  `refused` is the file that stopped it. */
  function Pass<R>(env: Env<R>, s: Session<R>, t: nat, names: seq<string>, done: seq<string>): (g: Gate<R>)
    ensures done <= g.reindexed
    ensures Distinct(done) ==> Distinct(g.reindexed)
    ensures forall p :: p in g.reindexed ==> p in done || p in names
    ensures g.refused.Some? ==> g.refused.value in names
    decreases |names|
  {
    if names == [] then Gate(s, t, done, None)
    else
      var p := names[0];
      if p in done then Pass(env, s, t, names[1..], done)
      else
        var f := EnsureFile(env, s, t, p);
        match f.verdict
        case Unchanged => Pass(env, f.session, f.now, names[1..], done)
        case Reindexed => Pass(env, f.session, f.now, names[1..], done + [p])
        case Refused(_) => Gate(f.session, f.now, done, Some(p))
  }

  /** Every name the command can resolve to is one of finitely many files. */
  ghost predicate NamesWithin<R(!new)>(env: Env<R>, universe: set<string>)
  {
    forall index: Index<R> :: Elements(env.named(index)) <= universe
  }

  lemma LongerLeavesLess(universe: set<string>, done: seq<string>, more: seq<string>)
    requires done < more && Distinct(more)
    requires Elements(more) <= universe
    ensures universe - Elements(more) < universe - Elements(done)
  {
    var p := more[|done|];
    assert p in Elements(more);
    assert p !in done;
    assert Elements(done) <= Elements(more) by {
      assert forall i :: 0 <= i < |done| ==> done[i] == more[i];
    }
  }

  /** `ensure_files_fresh`: passes repeat until one re-indexes nothing. */
  ghost function EnsureFiles<R(!new)>(env: Env<R>, s: Session<R>, t: nat, done: seq<string>,
      universe: set<string>): Gate<R>
    requires NamesWithin(env, universe) && Distinct(done) && Elements(done) <= universe
    decreases universe - Elements(done)
  {
    var pass := Pass(env, s, t, env.named(s.index), done);
    assert Elements(env.named(s.index)) <= universe;
    assert Elements(pass.reindexed) <= universe by {
      assert forall p :: p in env.named(s.index) ==> p in Elements(env.named(s.index));
      assert forall p :: p in done ==> p in Elements(done);
    }
    if pass.refused.Some? || pass.reindexed == done then pass
    else
      LongerLeavesLess(universe, done, pass.reindexed);
      EnsureFiles(env, pass.session, pass.now, pass.reindexed, universe)
  }

  // ----- The gate -----

  class Engine<R(!new)> {
    const env: Env<R>
    var index: Index<R>
    var freshStamps: map<string, nat>
    var now: nat

    function Value(): Session<R>
      reads this
    {
      Session(index, freshStamps)
    }

    constructor (env: Env<R>, index: Index<R>)
      ensures this.env == env && this.index == index && freshStamps == map[]
    {
      this.env := env;
      this.index := index;
      freshStamps := map[];
      now := 0;
    }

    method EnsureFileFresh(path: string) returns (verdict: Verdict)
      modifies this
      ensures FileGate(Value(), now, verdict) == EnsureFile(env, old(Value()), old(now), path)
    {
      var stamp := StampAt(env, now, path);
      now := now + 1;
      if stamp.Some? && path in freshStamps && freshStamps[path] == stamp.value {
        return Unchanged;
      }
      var freshness := FreshnessAt(env, index, now, path);
      now := now + 1;
      match freshness {
        case Verified =>
          if stamp.Some? {
            freshStamps := freshStamps[path := stamp.value];
          }
          return Unchanged;
        case Unknown =>
          return Unchanged;
        case Stale =>
          verdict := RestoreStale(path);
      }
    }

    method RestoreStale(path: string) returns (verdict: Verdict)
      modifies this
      ensures FileGate(Value(), now, verdict) == RestoreFile(env, old(Value()), old(now), path)
    {
      var (reindexed, ok) := env.reindex(index, path, now);
      index := reindexed;
      now := now + 1;
      var verified := StampAt(env, now, path);
      now := now + 1;
      var again := FreshnessAt(env, index, now, path);
      now := now + 1;
      if again != Verified {
        return Refused(!ok);
      }
      if verified.Some? {
        freshStamps := freshStamps[path := verified.value];
      }
      return Reindexed;
    }

    /** `refused` is the file whose re-index failed, if any; the files re-indexed before it
        come back either way. */
    method EnsureFilesFresh(ghost universe: set<string>) returns (reindexed: seq<string>, refused: Option<string>)
      requires NamesWithin(env, universe)
      modifies this
      ensures Gate(Value(), now, reindexed, refused) == EnsureFiles(env, old(Value()), old(now), [], universe)
    {
      reindexed := [];
      var moved := true;
      while moved
        invariant Distinct(reindexed) && Elements(reindexed) <= universe
        invariant EnsureFiles(env, old(Value()), old(now), [], universe)
               == if moved then EnsureFiles(env, Value(), now, reindexed, universe)
                  else Gate(Value(), now, reindexed, None)
        decreases universe - Elements(reindexed), moved
      {
        ghost var s, t, done := Value(), now, reindexed;
        moved := false;
        var names := env.named(index);
        ghost var pass := Pass(env, s, t, names, done);
        var i := 0;
        while i < |names|
          invariant i <= |names|
          invariant done <= reindexed && moved == (reindexed != done)
          invariant pass == Pass(env, Value(), now, names[i..], reindexed)
        {
          var p := names[i];
          assert names[i..][1..] == names[i + 1..];
          i := i + 1;
          if p in reindexed {
            continue;
          }
          var verdict := EnsureFileFresh(p);
          match verdict {
            case Unchanged =>
            case Reindexed =>
              reindexed := reindexed + [p];
              moved := true;
            case Refused(_) =>
              return reindexed, Some(p);
          }
        }
        assert pass == Gate(Value(), now, reindexed, None);
        assert Elements(names) <= universe;
        assert Elements(reindexed) <= universe by {
          assert forall q :: q in names ==> q in Elements(names);
          assert forall q :: q in done ==> q in Elements(done);
        }
        if moved {
          LongerLeavesLess(universe, done, reindexed);
        }
      }
      refused := None;
    }
  }

  // ----- What is assumed of the world -----

  /** A rewrite moves the version, and a version is one content: the stamp's blind spot, a
      rewrite that moves neither size nor mtime, is excluded. */
  ghost predicate Grows<R>(env: Env<R>)
  {
    forall p: string, t: nat, u: nat :: t <= u ==>
      && env.world(t, p).version <= env.world(u, p).version
      && (env.world(t, p).version == env.world(u, p).version ==> env.world(t, p).content == env.world(u, p).content)
  }

  predicate SameId<R>(a: Index<R>, b: Index<R>, p: string)
  {
    (p in a.ids <==> p in b.ids) && (p in a.ids && p in b.ids ==> a.ids[p] == b.ids[p])
  }

  /** Re-indexing one file may do anything to that file's entry and to the rows, and can
      fail; it leaves the content ids of other files alone. */
  ghost predicate ReindexIsLocal<R(!new)>(env: Env<R>)
  {
    forall index: Index<R>, p: string, t: nat, q: string ::
      q != p ==> SameId(index, env.reindex(index, p, t).0, q)
  }

  ghost predicate LegalEnv<R(!new)>(env: Env<R>)
  {
    Grows(env) && ReindexIsLocal(env)
  }

  // ----- The stamp invariant -----

  /** A stamp that is still the file's stamp vouches for the bytes on disk. */
  ghost predicate StampVouches<R>(env: Env<R>, s: Session<R>, t: nat, p: string)
    requires p in s.stamps
  {
    && s.stamps[p] <= env.world(t, p).version
    && (s.stamps[p] == env.world(t, p).version ==> p in s.index.ids && s.index.ids[p] == env.world(t, p).content)
  }

  ghost predicate Sound<R>(env: Env<R>, s: Session<R>, t: nat)
  {
    forall p :: p in s.stamps ==> StampVouches(env, s, t, p)
  }

  /** The writer alone cannot break the invariant. */
  lemma WriterKeepsSound<R>(env: Env<R>, s: Session<R>, t: nat, u: nat)
    requires Grows(env) && Sound(env, s, t) && t <= u
    ensures Sound(env, s, u)
  {
    forall p | p in s.stamps ensures StampVouches(env, s, u, p) {
      assert StampVouches(env, s, t, p);
      assert env.world(t, p).version <= env.world(u, p).version;
    }
  }

  /** Nor can a mutation of ForgeQL's own: it rewrites some files and re-indexes them in any
      way at all, but every file it touches has moved by then. */
  lemma MutationKeepsSound<R>(env: Env<R>, s: Session<R>, t: nat, index: Index<R>, u: nat)
    requires Grows(env) && Sound(env, s, t) && t <= u
    requires forall p :: SameId(s.index, index, p) || env.world(t, p).version < env.world(u, p).version
    ensures Sound(env, s.(index := index), u)
  {
    WriterKeepsSound(env, s, t, u);
    forall p | p in s.stamps ensures StampVouches(env, s.(index := index), u, p) {
      assert StampVouches(env, s, t, p) && StampVouches(env, s, u, p);
      assert SameId(s.index, index, p) || env.world(t, p).version < env.world(u, p).version;
    }
  }

  /** A stamp taken at `t` may be kept when a later hash, at `u`, matched the index. */
  lemma StampBeforeHash<R>(env: Env<R>, s: Session<R>, t: nat, u: nat, now: nat, path: string)
    requires Grows(env) && Sound(env, s, u) && t <= u <= now
    requires FreshnessAt(env, s.index, u, path) == Verified
    ensures Sound(env, s.(stamps := Stamped(s.stamps, path, StampAt(env, t, path))), now)
  {
    WriterKeepsSound(env, s, u, now);
    var kept := s.(stamps := Stamped(s.stamps, path, StampAt(env, t, path)));
    forall p | p in kept.stamps ensures StampVouches(env, kept, now, p) {
      if p == path {
        assert env.world(t, p).version <= env.world(u, p).version <= env.world(now, p).version;
        assert p in s.stamps ==> StampVouches(env, s, now, p);
      } else {
        assert StampVouches(env, s, now, p);
      }
    }
  }

  // ----- One file -----

  /** At `t` the file had no comparable bytes, or the index described the bytes it had. */
  predicate Current<R>(env: Env<R>, index: Index<R>, t: nat, p: string)
  {
    var file := env.world(t, p);
    p !in index.ids || !file.readable || index.ids[p] == file.content
  }

  /** The index described the file at some instant of `[from, to)`. */
  ghost predicate Vouched<R>(env: Env<R>, index: Index<R>, p: string, from: nat, to: nat)
  {
    exists t: nat :: from <= t < to && Current(env, index, t, p)
  }

  /** The same, by a hash that compared the bytes. */
  ghost predicate Hashed<R>(env: Env<R>, index: Index<R>, p: string, from: nat, to: nat)
  {
    exists t: nat :: from <= t < to && FreshnessAt(env, index, t, p) == Verified
  }

  ghost predicate OnlyTouches<R>(a: Index<R>, b: Index<R>, touched: set<string>)
  {
    forall p :: p !in touched ==> SameId(a, b, p)
  }

  /** A stale file's old stamp cannot be its stamp any more. */
  lemma StaleStampIsOld<R>(env: Env<R>, s: Session<R>, t: nat, p: string)
    requires Sound(env, s, t) && FreshnessAt(env, s.index, t, p) == Stale && p in s.stamps
    ensures s.stamps[p] < env.world(t, p).version
  {
    assert StampVouches(env, s, t, p);
  }

  lemma RestoreKeepsSound<R(!new)>(env: Env<R>, s: Session<R>, t: nat, path: string)
    requires LegalEnv(env) && Sound(env, s, t) && 0 < t && FreshnessAt(env, s.index, t - 1, path) == Stale
    requires Sound(env, s, t - 1)
    ensures var f := RestoreFile(env, s, t, path);
      && Sound(env, f.session, f.now)
      && OnlyTouches(s.index, f.session.index, {path})
      && (f.verdict.Refused? ==> f.session.stamps == s.stamps)
      && (!f.verdict.Refused? ==> f.verdict == Reindexed && FreshnessAt(env, f.session.index, t + 2, path) == Verified)
  {
    var (index, ok) := env.reindex(s.index, path, t);
    var after := s.(index := index);
    WriterKeepsSound(env, s, t, t + 2);
    assert OnlyTouches(s.index, index, {path});
    forall p | p in after.stamps ensures StampVouches(env, after, t + 2, p) {
      assert StampVouches(env, s, t + 2, p);
      if p == path {
        StaleStampIsOld(env, s, t - 1, p);
        assert env.world(t - 1, p).version <= env.world(t + 2, p).version;
      } else {
        assert SameId(s.index, index, p);
      }
    }
    WriterKeepsSound(env, after, t + 2, t + 3);
    if FreshnessAt(env, index, t + 2, path) == Verified {
      StampBeforeHash(env, after, t + 1, t + 2, t + 3, path);
    }
  }

  /** One file through the gate, the writer stepping anywhere: the invariant is kept; only
      this file's entry can change; "unchanged" leaves the index alone and vouches for the
      file at an instant of the call; "re-indexed" means the file was stale and a second hash
      matched; a refusal stamps nothing. */
  lemma FileGateIsSound<R(!new)>(env: Env<R>, s: Session<R>, t: nat, path: string)
    requires LegalEnv(env) && Sound(env, s, t)
    ensures var f := EnsureFile(env, s, t, path);
      && t < f.now
      && Sound(env, f.session, f.now)
      && OnlyTouches(s.index, f.session.index, {path})
      && match f.verdict
         case Unchanged => f.session.index == s.index && Vouched(env, s.index, path, t, f.now)
         case Reindexed =>
           FreshnessAt(env, s.index, t + 1, path) == Stale && Hashed(env, f.session.index, path, t, f.now)
         case Refused(_) => FreshnessAt(env, s.index, t + 1, path) == Stale && f.session.stamps == s.stamps
  {
    var f := EnsureFile(env, s, t, path);
    WriterKeepsSound(env, s, t, t + 1);
    WriterKeepsSound(env, s, t, t + 2);
    var stamp := StampAt(env, t, path);
    if stamp.Some? && path in s.stamps && s.stamps[path] == stamp.value {
      assert StampVouches(env, s, t, path);
      assert Current(env, s.index, t, path);
    } else {
      match FreshnessAt(env, s.index, t + 1, path)
      case Verified =>
        assert Current(env, s.index, t + 1, path);
        StampBeforeHash(env, s, t, t + 1, t + 2, path);
      case Unknown =>
        assert Current(env, s.index, t + 1, path);
      case Stale =>
        RestoreKeepsSound(env, s, t + 2, path);
        if f.verdict == Reindexed {
          assert FreshnessAt(env, f.session.index, t + 4, path) == Verified;
        }
    }
  }

  /** Only a matching hash is ever stamped: an unreadable or unindexed file never is. */
  lemma OnlyVerifiedIsStamped<R(!new)>(env: Env<R>, s: Session<R>, t: nat, path: string)
    ensures var f := EnsureFile(env, s, t, path);
      f.session.stamps != s.stamps ==>
        && (|| FreshnessAt(env, f.session.index, t + 1, path) == Verified
            || FreshnessAt(env, f.session.index, t + 4, path) == Verified)
        && path in f.session.stamps
        && f.session.stamps == s.stamps[path := f.session.stamps[path]]
  {
  }

  // ----- The whole gate -----

  lemma HashedIsFramed<R>(env: Env<R>, a: Index<R>, b: Index<R>, p: string, from: nat, to: nat, until: nat)
    requires Hashed(env, a, p, from, to) && SameId(a, b, p) && to <= until
    ensures Hashed(env, b, p, from, until)
  {
    var t: nat :| from <= t < to && FreshnessAt(env, a, t, p) == Verified;
    assert FreshnessAt(env, b, t, p) == Verified;
  }

  lemma HashedIsVouched<R>(env: Env<R>, index: Index<R>, p: string, from: nat, to: nat)
    requires Hashed(env, index, p, from, to)
    ensures Vouched(env, index, p, from, to)
  {
    var t: nat :| from <= t < to && FreshnessAt(env, index, t, p) == Verified;
    assert Current(env, index, t, p);
  }

  lemma VouchedWidens<R>(env: Env<R>, index: Index<R>, p: string, from: nat, to: nat, from': nat, to': nat)
    requires Vouched(env, index, p, from, to) && from' <= from && to <= to'
    ensures Vouched(env, index, p, from', to')
  {
    var t: nat :| from <= t < to && Current(env, index, t, p);
  }

  ghost predicate AllHashed<R>(env: Env<R>, index: Index<R>, done: seq<string>, from: nat, to: nat)
  {
    forall p :: p in done ==> Hashed(env, index, p, from, to)
  }

  lemma AllHashedIsFramed<R>(env: Env<R>, a: Index<R>, b: Index<R>, done: seq<string>, touched: set<string>,
      from: nat, to: nat, until: nat)
    requires AllHashed(env, a, done, from, to) && OnlyTouches(a, b, touched) && to <= until
    requires forall p :: p in touched ==> p !in done
    ensures AllHashed(env, b, done, from, until)
  {
    forall p | p in done ensures Hashed(env, b, p, from, until) {
      HashedIsFramed(env, a, b, p, from, to, until);
    }
  }

  lemma TouchesCompose<R>(a: Index<R>, b: Index<R>, c: Index<R>, x: set<string>, y: set<string>)
    requires OnlyTouches(a, b, x) && OnlyTouches(b, c, y)
    ensures OnlyTouches(a, c, x + y)
  {
    forall p | p !in x + y ensures SameId(a, c, p) {
      assert SameId(a, b, p) && SameId(b, c, p);
    }
  }

  function RefusedSet(refused: Option<string>): set<string>
  {
    if refused.Some? then {refused.value} else {}
  }

  /** What a stretch of the gate establishes, from session `s` at `t` with `done` behind it. */
  ghost predicate StretchHolds<R>(env: Env<R>, s: Session<R>, t: nat, done: seq<string>, from: nat, g: Gate<R>)
  {
    && t <= g.now
    && Sound(env, g.session, g.now)
    && AllHashed(env, g.session.index, g.reindexed, from, g.now)
    && OnlyTouches(s.index, g.session.index, Elements(g.reindexed) - Elements(done) + RefusedSet(g.refused))
  }

  /** A pass that re-indexed nothing left the index alone and vouched for every name. */
  ghost predicate QuietPassVouches<R>(env: Env<R>, s: Session<R>, t: nat, names: seq<string>, done: seq<string>,
      g: Gate<R>)
  {
    g.refused.None? && g.reindexed == done ==>
      && g.session.index == s.index
      && forall p :: p in names ==> p in done || Vouched(env, s.index, p, t, g.now)
  }

  lemma {:induction false} PassIsSound<R(!new)>(env: Env<R>, s: Session<R>, t: nat, names: seq<string>,
      done: seq<string>, from: nat)
    requires LegalEnv(env) && Sound(env, s, t) && from <= t
    requires Distinct(done) && AllHashed(env, s.index, done, from, t)
    ensures StretchHolds(env, s, t, done, from, Pass(env, s, t, names, done))
    ensures QuietPassVouches(env, s, t, names, done, Pass(env, s, t, names, done))
    decreases |names|
  {
    var g := Pass(env, s, t, names, done);
    if names == [] {
    } else if names[0] in done {
      PassIsSound(env, s, t, names[1..], done, from);
    } else {
      var p := names[0];
      var f := EnsureFile(env, s, t, p);
      FileGateIsSound(env, s, t, p);
      AllHashedIsFramed(env, s.index, f.session.index, done, {p}, from, t, f.now);
      match f.verdict
      case Unchanged =>
        hide Sound, AllHashed, LegalEnv;
        PassIsSound(env, f.session, f.now, names[1..], done, from);
        if g.refused.None? && g.reindexed == done {
          VouchedWidens(env, s.index, p, t, f.now, t, g.now);
          forall q | q in names[1..] && q !in done ensures Vouched(env, s.index, q, t, g.now) {
            VouchedWidens(env, s.index, q, f.now, g.now, t, g.now);
          }
        }
      case Reindexed =>
        HashedIsFramed(env, f.session.index, f.session.index, p, t, f.now, f.now);
        HashedFromEarlier(env, f.session.index, p, t, f.now, from);
        PassIsSound(env, f.session, f.now, names[1..], done + [p], from);
        TouchesCompose(s.index, f.session.index, g.session.index, {p},
                       Elements(g.reindexed) - Elements(done + [p]) + RefusedSet(g.refused));
        assert p in g.reindexed by { assert (done + [p])[|done|] == p; }
        assert {p} + (Elements(g.reindexed) - Elements(done + [p]) + RefusedSet(g.refused))
            == Elements(g.reindexed) - Elements(done) + RefusedSet(g.refused);
      case Refused(_) =>
    }
  }

  lemma HashedFromEarlier<R>(env: Env<R>, index: Index<R>, p: string, t: nat, to: nat, from: nat)
    requires Hashed(env, index, p, t, to) && from <= t
    ensures Hashed(env, index, p, from, to)
  {
    var u: nat :| t <= u < to && FreshnessAt(env, index, u, p) == Verified;
  }

  /** The index a command is answered from, after the gate let it through. */
  ghost predicate ServesCurrent<R>(env: Env<R>, g: Gate<R>, from: nat)
  {
    forall p :: p in env.named(g.session.index) ==> Vouched(env, g.session.index, p, from, g.now)
  }

  /** The gate's last pass began at `last` with session `s`, re-indexed nothing and left the
      index alone; every file the index names was re-indexed earlier in the call or vouched for
      in that pass. */
  ghost predicate EndsQuietly<R>(env: Env<R>, g: Gate<R>, s: Session<R>, last: nat)
  {
    && last <= g.now
    && Pass(env, s, last, env.named(s.index), g.reindexed) == g
    && s.index == g.session.index
    && forall p :: p in env.named(g.session.index) ==>
         p in g.reindexed || Vouched(env, g.session.index, p, last, g.now)
  }

  lemma {:induction false} GateKeepsItsPromise<R(!new)>(env: Env<R>, s: Session<R>, t: nat, done: seq<string>,
      universe: set<string>, from: nat)
    requires LegalEnv(env) && NamesWithin(env, universe) && Sound(env, s, t) && from <= t
    requires Distinct(done) && Elements(done) <= universe && AllHashed(env, s.index, done, from, t)
    ensures var g := EnsureFiles(env, s, t, done, universe);
      && StretchHolds(env, s, t, done, from, g)
      && Distinct(g.reindexed) && done <= g.reindexed
      && (g.refused.None? ==> ServesCurrent(env, g, from))
      && (g.refused.None? ==> exists last: nat, sl: Session<R> :: t <= last && EndsQuietly(env, g, sl, last))
    decreases universe - Elements(done)
  {
    var names := env.named(s.index);
    var pass := Pass(env, s, t, names, done);
    PassIsSound(env, s, t, names, done, from);
    assert Elements(names) <= universe;
    assert Elements(pass.reindexed) <= universe by {
      assert forall p :: p in names ==> p in Elements(names);
      assert forall p :: p in done ==> p in Elements(done);
    }
    if pass.refused.Some? {
    } else if pass.reindexed == done {
      assert EndsQuietly(env, pass, s, t);
      forall p | p in env.named(pass.session.index) ensures Vouched(env, pass.session.index, p, from, pass.now) {
        if p in done {
          HashedIsVouched(env, pass.session.index, p, from, pass.now);
        } else {
          VouchedWidens(env, pass.session.index, p, t, pass.now, from, pass.now);
        }
      }
    } else {
      LongerLeavesLess(universe, done, pass.reindexed);
      GateKeepsItsPromise(env, pass.session, pass.now, pass.reindexed, universe, from);
      var g := EnsureFiles(env, pass.session, pass.now, pass.reindexed, universe);
      TouchesCompose(s.index, pass.session.index, g.session.index,
                     Elements(pass.reindexed) - Elements(done),
                     Elements(g.reindexed) - Elements(pass.reindexed) + RefusedSet(g.refused));
      assert Elements(pass.reindexed) <= Elements(g.reindexed) by {
        assert forall i :: 0 <= i < |pass.reindexed| ==> g.reindexed[i] == pass.reindexed[i];
      }
      WidenTouches(s.index, g.session.index,
                   Elements(pass.reindexed) - Elements(done) +
                       (Elements(g.reindexed) - Elements(pass.reindexed) + RefusedSet(g.refused)),
                   Elements(g.reindexed) - Elements(done) + RefusedSet(g.refused));
    }
  }

  lemma WidenTouches<R>(a: Index<R>, b: Index<R>, x: set<string>, y: set<string>)
    requires OnlyTouches(a, b, x) && x <= y
    ensures OnlyTouches(a, b, y)
  {
  }

  // ----- What the gate must do -----

  /** There are indexed bytes and bytes on disk to compare. */
  predicate Comparable<R>(env: Env<R>, index: Index<R>, t: nat, p: string)
  {
    p in index.ids && env.world(t, p).readable
  }

  predicate BytesMatch<R>(env: Env<R>, index: Index<R>, t: nat, p: string)
  {
    Comparable(env, index, t, p) && index.ids[p] == env.world(t, p).content
  }

  /** The file still carries the stamp it was last verified under. */
  predicate StampStands<R>(env: Env<R>, s: Session<R>, t: nat, p: string)
  {
    env.world(t, p).statable && p in s.stamps && s.stamps[p] == env.world(t, p).version
  }

  /** The verdict on one file, exactly.  It is left alone when its stamp stands, when there is
      nothing to compare, or when the bytes match.  Otherwise it is re-indexed, and let through
      if the bytes match the new index at the second hash, refused if they do not; a refusal
      says whether the re-indexer itself failed. */
  lemma FileVerdictExactly<R>(env: Env<R>, s: Session<R>, t: nat, path: string)
    ensures var f := EnsureFile(env, s, t, path);
      var (index, ok) := env.reindex(s.index, path, t + 2);
      if StampStands(env, s, t, path) || !Comparable(env, s.index, t + 1, path) || BytesMatch(env, s.index, t + 1, path)
      then f.verdict == Unchanged && f.session.index == s.index
      else
        && f.session.index == index && f.now == t + 5
        && f.verdict == (if BytesMatch(env, index, t + 4, path) then Reindexed else Refused(!ok))
  {
  }

  /** What is stamped, exactly: the stamp read just before the hash that matched. */
  lemma FileStampsExactly<R>(env: Env<R>, s: Session<R>, t: nat, path: string)
    ensures var f := EnsureFile(env, s, t, path);
      f.session.stamps ==
        if f.verdict == Unchanged && !StampStands(env, s, t, path) && BytesMatch(env, s.index, t + 1, path)
           && env.world(t, path).statable
        then s.stamps[path := env.world(t, path).version]
        else if f.verdict == Reindexed && env.world(t + 3, path).statable
        then s.stamps[path := env.world(t + 3, path).version]
        else s.stamps
  {
  }

  /** From `from` on the writer leaves the file alone. */
  ghost predicate Still<R>(env: Env<R>, from: nat, p: string)
  {
    forall t: nat :: from <= t ==> env.world(t, p) == env.world(from, p)
  }

  /** A file checked once and left alone since costs the next command one stat and no hash. */
  lemma SecondLookIsAStat<R>(env: Env<R>, s: Session<R>, t: nat, path: string, later: nat)
    requires Still(env, t, path) && env.world(t, path).statable
    requires var f := EnsureFile(env, s, t, path);
      f.now <= later && (f.verdict == Reindexed || BytesMatch(env, s.index, t + 1, path))
    ensures var f := EnsureFile(env, s, t, path);
      EnsureFile(env, f.session, later, path) == FileGate(f.session, later + 1, Unchanged)
  {
    assert env.world(t + 3, path) == env.world(t, path) && env.world(later, path) == env.world(t, path);
    FileStampsExactly(env, s, t, path);
  }

  /** A file the gate refused was hashed within the call, after its re-index, and did not match
      the index as it now stands. */
  ghost predicate RefusalIsEarned<R>(env: Env<R>, g: Gate<R>, from: nat)
  {
    g.refused.Some? ==> exists t: nat :: from <= t < g.now && !BytesMatch(env, g.session.index, t, g.refused.value)
  }

  lemma {:induction false} PassRefusalIsEarned<R(!new)>(env: Env<R>, s: Session<R>, t: nat, names: seq<string>,
      done: seq<string>, from: nat)
    requires from <= t
    ensures RefusalIsEarned(env, Pass(env, s, t, names, done), from)
    decreases |names|
  {
    if names != [] {
      if names[0] in done {
        PassRefusalIsEarned(env, s, t, names[1..], done, from);
      } else {
        var f := EnsureFile(env, s, t, names[0]);
        FileVerdictExactly(env, s, t, names[0]);
        match f.verdict
        case Unchanged => PassRefusalIsEarned(env, f.session, f.now, names[1..], done, from);
        case Reindexed => PassRefusalIsEarned(env, f.session, f.now, names[1..], done + [names[0]], from);
        case Refused(_) => assert !BytesMatch(env, f.session.index, t + 4, names[0]);
      }
    }
  }

  lemma {:induction false} GateRefusalIsEarned<R(!new)>(env: Env<R>, s: Session<R>, t: nat, done: seq<string>,
      universe: set<string>, from: nat)
    requires NamesWithin(env, universe) && Distinct(done) && Elements(done) <= universe && from <= t
    ensures RefusalIsEarned(env, EnsureFiles(env, s, t, done, universe), from)
    decreases universe - Elements(done)
  {
    var names := env.named(s.index);
    var pass := Pass(env, s, t, names, done);
    PassRefusalIsEarned(env, s, t, names, done, from);
    PassStaysWithin(env, s, t, done, universe);
    if pass.refused.None? && pass.reindexed != done {
      LongerLeavesLess(universe, done, pass.reindexed);
      PassTakesTime(env, s, t, names, done);
      GateRefusalIsEarned(env, pass.session, pass.now, pass.reindexed, universe, from);
    }
  }

  lemma PassStaysWithin<R(!new)>(env: Env<R>, s: Session<R>, t: nat, done: seq<string>, universe: set<string>)
    requires NamesWithin(env, universe) && Distinct(done) && Elements(done) <= universe
    ensures Elements(Pass(env, s, t, env.named(s.index), done).reindexed) <= universe
  {
    assert Elements(env.named(s.index)) <= universe;
    assert forall p :: p in env.named(s.index) ==> p in Elements(env.named(s.index));
    assert forall p :: p in done ==> p in Elements(done);
  }

  lemma {:induction false} PassTakesTime<R>(env: Env<R>, s: Session<R>, t: nat, names: seq<string>, done: seq<string>)
    ensures t <= Pass(env, s, t, names, done).now
    decreases |names|
  {
    if names != [] {
      if names[0] in done {
        PassTakesTime(env, s, t, names[1..], done);
      } else {
        var f := EnsureFile(env, s, t, names[0]);
        match f.verdict
        case Unchanged => PassTakesTime(env, f.session, f.now, names[1..], done);
        case Reindexed => PassTakesTime(env, f.session, f.now, names[1..], done + [names[0]]);
        case Refused(_) =>
      }
    }
  }

  // ----- With the writer away -----

  /** From `from` on nobody rewrites the files, and they can be read. */
  ghost predicate AllStill<R>(env: Env<R>, universe: set<string>, from: nat)
  {
    forall p, t: nat :: p in universe && from <= t ==>
      env.world(t, p) == env.world(from, p) && env.world(t, p).readable
  }

  /** Re-indexing one of the files records the bytes it then has. */
  ghost predicate ReindexWorks<R(!new)>(env: Env<R>, universe: set<string>, from: nat)
  {
    forall index: Index<R>, p, t: nat :: p in universe && from <= t ==>
      BytesMatch(env, env.reindex(index, p, t).0, t, p)
  }

  predicate IsStale<R>(env: Env<R>, index: Index<R>, t: nat, p: string)
  {
    Comparable(env, index, t, p) && !BytesMatch(env, index, t, p)
  }

  /** One file: re-indexed exactly when it is stale, and never refused. */
  lemma QuietFile<R(!new)>(env: Env<R>, s: Session<R>, t: nat, path: string, universe: set<string>)
    requires Sound(env, s, t) && path in universe
    requires AllStill(env, universe, t) && ReindexWorks(env, universe, t)
    ensures EnsureFile(env, s, t, path).verdict == if IsStale(env, s.index, t, path) then Reindexed else Unchanged
  {
    FileVerdictExactly(env, s, t, path);
    assert env.world(t + 1, path) == env.world(t, path) && env.world(t + 2, path) == env.world(t, path);
    assert env.world(t + 4, path) == env.world(t, path);
    assert BytesMatch(env, env.reindex(s.index, path, t + 2).0, t + 2, path);
    if StampStands(env, s, t, path) {
      assert StampVouches(env, s, t, path);
    }
  }

  lemma StillLater<R(!new)>(env: Env<R>, universe: set<string>, t: nat, u: nat)
    requires AllStill(env, universe, t) && ReindexWorks(env, universe, t) && t <= u
    ensures AllStill(env, universe, u) && ReindexWorks(env, universe, u)
  {
  }

  lemma StaysStale<R>(env: Env<R>, a: Index<R>, b: Index<R>, universe: set<string>, t: nat, u: nat, p: string)
    requires AllStill(env, universe, t) && p in universe && t <= u && SameId(a, b, p)
    ensures IsStale(env, a, t, p) == IsStale(env, b, u, p)
  {
    assert env.world(u, p) == env.world(t, p);
  }

  /** One pass: nothing is refused, and of the names not yet done exactly the stale are
      re-indexed. */
  ghost predicate PassDoesItsJob<R>(env: Env<R>, s: Session<R>, t: nat, names: seq<string>, done: seq<string>)
  {
    var g := Pass(env, s, t, names, done);
    && g.refused.None?
    && forall p :: p in names && p !in done ==> (p in g.reindexed <==> IsStale(env, s.index, t, p))
  }

  lemma {:induction false} QuietPass<R(!new)>(env: Env<R>, s: Session<R>, t: nat, names: seq<string>,
      done: seq<string>, universe: set<string>)
    requires LegalEnv(env) && Sound(env, s, t) && forall p :: p in names ==> p in universe
    requires AllStill(env, universe, t) && ReindexWorks(env, universe, t)
    ensures PassDoesItsJob(env, s, t, names, done)
    decreases |names|
  {
    if names != [] {
      var q, rest := names[0], names[1..];
      assert q in names && forall p :: p in names <==> p == q || p in rest;
      if q in done {
        QuietPass(env, s, t, rest, done, universe);
      } else {
        var f := EnsureFile(env, s, t, q);
        FileGateIsSound(env, s, t, q);
        QuietFile(env, s, t, q, universe);
        StillLater(env, universe, t, f.now);
        var done' := if IsStale(env, s.index, t, q) then done + [q] else done;
        QuietPass(env, f.session, f.now, rest, done', universe);
        assert Pass(env, s, t, names, done) == Pass(env, f.session, f.now, rest, done');
        assert IsStale(env, s.index, t, q) ==> done'[|done|] == q;
        PassStep(env, s, t, q, rest, done, done', universe);
      }
    }
  }

  lemma PassStep<R(!new)>(env: Env<R>, s: Session<R>, t: nat, q: string, rest: seq<string>,
      done: seq<string>, done': seq<string>, universe: set<string>)
    requires q in universe && (forall p :: p in rest ==> p in universe) && AllStill(env, universe, t)
    requires done' == if IsStale(env, s.index, t, q) then done + [q] else done
    requires var f := EnsureFile(env, s, t, q);
      && t <= f.now && OnlyTouches(s.index, f.session.index, {q})
      && (f.verdict == Unchanged ==> f.session.index == s.index)
      && f.verdict == (if IsStale(env, s.index, t, q) then Reindexed else Unchanged)
      && PassDoesItsJob(env, f.session, f.now, rest, done')
    ensures var f := EnsureFile(env, s, t, q);
      var g := Pass(env, f.session, f.now, rest, done');
      forall p :: (p == q || p in rest) && p !in done ==> (p in g.reindexed <==> IsStale(env, s.index, t, p))
  {
    var f := EnsureFile(env, s, t, q);
    var g := Pass(env, f.session, f.now, rest, done');
    forall p | (p == q || p in rest) && p !in done ensures p in g.reindexed <==> IsStale(env, s.index, t, p) {
      if p != q {
        StaysStale(env, s.index, f.session.index, universe, t, f.now, p);
        assert p !in done';
      } else if IsStale(env, s.index, t, q) {
        assert done'[|done|] == q && done' <= g.reindexed;
        assert g.reindexed[|done|] == q;
      } else if q in rest {
        StaysStale(env, s.index, f.session.index, universe, t, f.now, q);
      }
    }
  }

  /** What a later pass finds stale, the first one could have. */
  lemma NewlyStale<R(!new)>(env: Env<R>, s: Session<R>, t: nat, names: seq<string>, done: seq<string>,
      universe: set<string>)
    requires AllStill(env, universe, t)
    requires StretchHolds(env, s, t, done, 0, Pass(env, s, t, names, done))
    requires Pass(env, s, t, names, done).refused.None?
    ensures var pass := Pass(env, s, t, names, done);
      forall p :: p in universe && p !in pass.reindexed && IsStale(env, pass.session.index, pass.now, p) ==>
        IsStale(env, s.index, t, p)
  {
    var pass := Pass(env, s, t, names, done);
    forall p | p in universe && p !in pass.reindexed && IsStale(env, pass.session.index, pass.now, p)
      ensures IsStale(env, s.index, t, p)
    {
      assert p !in Elements(pass.reindexed) - Elements(done) + RefusedSet(pass.refused);
      StaysStale(env, s.index, pass.session.index, universe, t, pass.now, p);
    }
  }

  /** What the next pass starts from. */
  ghost predicate Ready<R(!new)>(env: Env<R>, s: Session<R>, t: nat, done: seq<string>, universe: set<string>)
  {
    && LegalEnv(env) && NamesWithin(env, universe) && Sound(env, s, t)
    && Distinct(done) && Elements(done) <= universe && AllHashed(env, s.index, done, 0, t)
    && AllStill(env, universe, t) && ReindexWorks(env, universe, t)
  }

  lemma PassLeavesReady<R(!new)>(env: Env<R>, s: Session<R>, t: nat, done: seq<string>, universe: set<string>)
    requires Ready(env, s, t, done, universe)
    ensures var names := env.named(s.index);
      var pass := Pass(env, s, t, names, done);
      && Ready(env, pass.session, pass.now, pass.reindexed, universe)
      && PassDoesItsJob(env, s, t, names, done)
      && Elements(names) <= universe && done <= pass.reindexed
      && forall p :: p in universe && p !in pass.reindexed && IsStale(env, pass.session.index, pass.now, p) ==>
           IsStale(env, s.index, t, p)
  {
    var names := env.named(s.index);
    assert Elements(names) <= universe && forall p :: p in names ==> p in Elements(names);
    QuietPass(env, s, t, names, done, universe);
    PassIsSound(env, s, t, names, done, 0);
    PassStaysWithin(env, s, t, done, universe);
    var pass := Pass(env, s, t, names, done);
    StillLater(env, universe, t, pass.now);
    NewlyStale(env, s, t, names, done, universe);
  }

  /** The whole gate, with the writer away and a re-indexer that works: nothing is refused,
      every stale file the command names is re-indexed, and nothing that was not stale is. */
  ghost predicate GateDoesItsJob<R>(env: Env<R>, s: Session<R>, t: nat, done: seq<string>, g: Gate<R>)
  {
    && g.refused.None? && done <= g.reindexed
    && (forall p :: p in env.named(s.index) && p !in done && IsStale(env, s.index, t, p) ==> p in g.reindexed)
    && (forall p :: p in g.reindexed && p !in done ==> IsStale(env, s.index, t, p))
  }

  /** The first pass and the passes after it. */
  lemma PassesCompose<R(!new)>(env: Env<R>, s: Session<R>, t: nat, done: seq<string>, pass: Gate<R>, g: Gate<R>,
      universe: set<string>)
    requires pass == Pass(env, s, t, env.named(s.index), done) && PassDoesItsJob(env, s, t, env.named(s.index), done)
    requires done <= pass.reindexed && GateDoesItsJob(env, pass.session, pass.now, pass.reindexed, g)
    requires Elements(g.reindexed) <= universe
    requires forall p :: p in universe && p !in pass.reindexed && IsStale(env, pass.session.index, pass.now, p) ==>
      IsStale(env, s.index, t, p)
    ensures GateDoesItsJob(env, s, t, done, g)
  {
    assert forall p :: p in pass.reindexed ==> p in g.reindexed;
    forall p | p in g.reindexed && p !in done ensures IsStale(env, s.index, t, p) {
      assert p in Elements(g.reindexed);
    }
  }

  lemma {:induction false} QuietGate<R(!new)>(env: Env<R>, s: Session<R>, t: nat, done: seq<string>,
      universe: set<string>)
    requires Ready(env, s, t, done, universe)
    ensures GateDoesItsJob(env, s, t, done, EnsureFiles(env, s, t, done, universe))
    ensures Elements(EnsureFiles(env, s, t, done, universe).reindexed) <= universe
    decreases universe - Elements(done)
  {
    var pass := Pass(env, s, t, env.named(s.index), done);
    PassLeavesReady(env, s, t, done, universe);
    if pass.reindexed != done {
      LongerLeavesLess(universe, done, pass.reindexed);
      hide Pass, PassDoesItsJob, GateDoesItsJob, IsStale, LegalEnv, AllStill, ReindexWorks, AllHashed;
      QuietGate(env, pass.session, pass.now, pass.reindexed, universe);
      var g := EnsureFiles(env, pass.session, pass.now, pass.reindexed, universe);
      PassesCompose(env, s, t, done, pass, g, universe);
    }
  }

  /** The same from the start of a command, with what it is then answered from: the bytes of
      every file it names, or a file the index holds no bytes of. */
  lemma QuietGateServes<R(!new)>(env: Env<R>, s: Session<R>, t: nat, universe: set<string>)
    requires LegalEnv(env) && NamesWithin(env, universe) && Sound(env, s, t)
    requires AllStill(env, universe, t) && ReindexWorks(env, universe, t)
    ensures var g := EnsureFiles(env, s, t, [], universe);
      && g.refused.None?
      && (forall p :: p in env.named(s.index) && IsStale(env, s.index, t, p) ==> p in g.reindexed)
      && (forall p :: p in g.reindexed ==> IsStale(env, s.index, t, p))
      && (forall p :: p in env.named(g.session.index) && p in g.session.index.ids ==>
            BytesMatch(env, g.session.index, g.now, p))
  {
    QuietGate(env, s, t, [], universe);
    GateKeepsItsPromise(env, s, t, [], universe, t);
    var g := EnsureFiles(env, s, t, [], universe);
    assert Elements(env.named(g.session.index)) <= universe;
    forall p | p in env.named(g.session.index) && p in g.session.index.ids
      ensures BytesMatch(env, g.session.index, g.now, p)
    {
      assert p in Elements(env.named(g.session.index));
      var u: nat :| t <= u < g.now && Current(env, g.session.index, u, p);
      assert env.world(u, p) == env.world(t, p) == env.world(g.now, p);
    }
  }

  /** The gate, from the start of a command: it ends whatever each re-index makes the command
      name.  When it lets the command through, every file the final index names was re-indexed
      in this call or, in the last pass, matched with its bytes or found to have none to
      compare; the index has not changed since that pass began.  Admitted or refused, the
      returned list has no duplicates, each file on it passed a verifying hash against the index
      as it now stands, and no content id changed outside it except that of the file that was
      refused. */
  lemma GateIsSound<R(!new)>(env: Env<R>, s: Session<R>, t: nat, universe: set<string>)
    requires LegalEnv(env) && NamesWithin(env, universe) && Sound(env, s, t)
    ensures var g := EnsureFiles(env, s, t, [], universe);
      && Sound(env, g.session, g.now)
      && Distinct(g.reindexed)
      && AllHashed(env, g.session.index, g.reindexed, t, g.now)
      && OnlyTouches(s.index, g.session.index, Elements(g.reindexed) + RefusedSet(g.refused))
      && (g.refused.None? ==> ServesCurrent(env, g, t))
      && (g.refused.None? ==> exists last: nat, sl: Session<R> :: t <= last && EndsQuietly(env, g, sl, last))
      && RefusalIsEarned(env, g, t)
  {
    GateKeepsItsPromise(env, s, t, [], universe, t);
    GateRefusalIsEarned(env, s, t, [], universe, t);
    var g := EnsureFiles(env, s, t, [], universe);
    assert Elements(g.reindexed) - Elements([]) + RefusedSet(g.refused)
        == Elements(g.reindexed) + RefusedSet(g.refused);
  }

  /** The order of stamp and hash matters: with a rewrite landing between a matching hash at 1
      and a stamp at 2, the stamp would vouch for bytes no hash ever saw. */
  lemma StampAfterHashWouldLie(env: Env<()>, s: Session<()>)
    requires env.world == ((t, _) => if t < 2 then File(0, 5, true, true) else File(1, 6, true, true))
    requires s == Session(Index(map["a.rs" := 5], ()), map[])
    ensures Grows(env) && Sound(env, s, 2)
    ensures FreshnessAt(env, s.index, 1, "a.rs") == Verified
    ensures !Sound(env, s.(stamps := Stamped(s.stamps, "a.rs", StampAt(env, 2, "a.rs"))), 2)
  {
    var late := s.(stamps := Stamped(s.stamps, "a.rs", StampAt(env, 2, "a.rs")));
    assert "a.rs" in late.stamps && !StampVouches(env, late, 2, "a.rs");
  }
}
