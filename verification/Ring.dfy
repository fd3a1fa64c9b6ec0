/** The ring of numbered slot files that UNDO and SHOW MORE keep: slot 0 is the most recent
    write, and every write first shifts the others up by one. */
module Ring {
  import opened Wrappers

  /** One entry per slot file; `None` is a missing file. */
  type Slots<T> = seq<Option<T>>

  /** Every slot moved up by one, the last one dropped, slot 0 free. */
  function Rotated<T>(slots: Slots<T>): (r: Slots<T>)
    ensures |r| == |slots|
  {
    if slots == [] then [] else [None] + slots[..|slots| - 1]
  }

  function EmptyRing<T>(size: nat): (slots: Slots<T>)
    ensures |slots| == size
  {
    seq(size, _ => None)
  }

  /** How a write of slot 0 ends: a write that fails leaves the first bytes of the content, or
      no file. */
  datatype Outcome = Whole | Torn(length: nat) | Missing

  /** What is in the slot after writing `content` to it. */
  function Kept(content: string, outcome: Outcome): Option<string>
  {
    match outcome
    case Whole => Some(content)
    case Torn(length) => Some(content[..Min(length, |content|)])
    case Missing => None
  }

  class SlotFiles {
    var slots: Slots<string>

    constructor (size: nat)
      ensures slots == EmptyRing(size)
    {
      slots := EmptyRing(size);
    }

    /** `rotate_ring`: a missing slot is skipped. */
    method Rotate()
      requires slots != []
      modifies this
      ensures slots == Rotated(old(slots))
    {
      var size := |slots|;
      slots := slots[size - 1 := None];
      for n := size - 1 downto 0
        invariant |slots| == size
        invariant forall m :: 0 <= m < n ==> slots[m] == old(slots)[m]
        invariant slots[n] == None
        invariant forall m :: n < m < size ==> slots[m] == old(slots)[m - 1]
      {
        if slots[n].Some? {
          slots := slots[n + 1 := slots[n]][n := None];
        }
      }
    }

    /** Rotating and then writing slot 0, which may fail. */
    method Write(content: string, outcome: Outcome)
      requires slots != []
      modifies this
      ensures slots == AfterWrite(old(slots), Kept(content, outcome))
    {
      Rotate();
      slots := slots[0 := Kept(content, outcome)];
    }
  }

  /** The effect of one write that leaves `content` in slot 0. */
  function AfterWrite<T>(slots: Slots<T>, content: Option<T>): Slots<T>
    requires slots != []
  {
    Rotated(slots)[0 := content]
  }

  function AfterWrites<T>(slots: Slots<T>, contents: seq<Option<T>>): (r: Slots<T>)
    requires slots != []
    ensures |r| == |slots|
  {
    if contents == [] then slots
    else AfterWrite(AfterWrites(slots, contents[..|contents| - 1]), contents[|contents| - 1])
  }

  /** What slot `n` should hold after a history of writes, oldest first. */
  function Recent<T>(contents: seq<Option<T>>, n: nat): Option<T>
  {
    if n < |contents| then contents[|contents| - 1 - n] else None
  }

  /** The ring agrees with the plain history of writes, failed ones included: slot n holds what
      the n-th most recent write left, for every slot the ring has. */
  lemma {:induction false} RingIsHistory<T>(size: nat, contents: seq<Option<T>>, n: nat)
    requires n < size
    ensures AfterWrites(EmptyRing(size), contents)[n] == Recent(contents, n)
    decreases |contents|
  {
    if contents != [] {
      var before := contents[..|contents| - 1];
      hide AfterWrites;
      LastWrite(EmptyRing(size), contents);
      if n > 0 {
        RingIsHistory(size, before, n - 1);
      }
    }
  }

  lemma LastWrite<T>(slots: Slots<T>, contents: seq<Option<T>>)
    requires slots != [] && contents != []
    ensures AfterWrites(slots, contents)
            == AfterWrite(AfterWrites(slots, contents[..|contents| - 1]), contents[|contents| - 1])
  {
  }
}
