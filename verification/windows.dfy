/** Small value wrappers and sequence facts shared by the models. */
module Wrappers {

  /** A Java reference that may be null. */
  datatype Option<+T> = None | Some(value: T)

  function Min(a: int, b: int): (m: int) { if a <= b then a else b }

  function Max(a: int, b: int): (m: int) { if a >= b then a else b }

  lemma AppendAssoc<T>(a: seq<T>, b: seq<T>, c: seq<T>)
    ensures (a + b) + c == a + (b + c)
  {
  }

  /** Two adjacent slices of one sequence join into the slice that covers both. */
  lemma SliceJoin<T>(f: seq<T>, a: nat, b: nat, c: nat)
    requires a <= b <= c <= |f|
    ensures f[a..b] + f[b..c] == f[a..c]
  {
  }
}

/**
  Bookkeeping shared by the two chunked memory-mapped streams: the window a
  stream currently has mapped, and the history of map and release events that
  lets a contract speak about how many mappings are live.
 */
module MappedWindows {
  import opened Wrappers

  /** One mapped region of the file: absolute `start`, `capacity` bytes, and
      the buffer's relative `cursor` (its position). */
  datatype Window = Window(start: nat, capacity: nat, cursor: nat) {
    predicate HasRemaining() { cursor < capacity }
  }

  /** A map call on the channel, or a release of that mapping. */
  datatype Event = Mapped(start: nat, size: nat) | Released(start: nat, size: nat)

  /** The event that maps `w`, if there is a window. */
  function MapOf(m: Option<Window>): (e: seq<Event>) {
    if m.Some? then [Mapped(m.value.start, m.value.capacity)] else []
  }

  /** The event that releases `w`, if there is a window; releasing null is a no-op. */
  function ReleaseOf(m: Option<Window>): (e: seq<Event>) {
    if m.Some? then [Released(m.value.start, m.value.capacity)] else []
  }

  /** The event at index `i` keeps the alternation: a map at even indices, and
      at odd ones a release of the region mapped just before it. */
  predicate PairedAt(log: seq<Event>, i: nat)
    requires i < |log|
  {
    if i % 2 == 0 then log[i].Mapped?
    else log[i] == Released(log[i - 1].start, log[i - 1].size)
  }

  /** Map and release events strictly alternate, starting with a map, and every
      release names the region mapped just before it. */
  predicate Alternating(log: seq<Event>) {
    forall i | 0 <= i < |log| :: PairedAt(log, i)
  }

  /** Mappings created minus mappings released. */
  function LiveCount(log: seq<Event>): (n: int)
    decreases |log|
  {
    if |log| == 0 then 0
    else LiveCount(log[..|log| - 1]) + (if log[|log| - 1].Mapped? then 1 else -1)
  }

  /** The history ends with `m` live (when there is a window) or with nothing live. */
  predicate LiveIs(log: seq<Event>, m: Option<Window>) {
    if m.Some? then |log| % 2 == 1 && log[|log| - 1] == Mapped(m.value.start, m.value.capacity)
    else |log| % 2 == 0
  }

  /** Appending one event that keeps the alternation keeps the whole history alternating. */
  lemma AppendPaired(log: seq<Event>, e: Event)
    requires Alternating(log) && PairedAt(log + [e], |log|)
    ensures Alternating(log + [e])
  {
    var log1 := log + [e];
    forall i | 0 <= i < |log1|
      ensures PairedAt(log1, i)
    {
      if i < |log| {
        assert PairedAt(log, i);
        if i > 0 {
          assert log1[i - 1] == log[i - 1];
        }
      }
    }
  }

  /** Releasing the live window (or nothing, with no window) leaves an
      alternating history with nothing live. */
  lemma AppendRelease(log: seq<Event>, m: Option<Window>)
    requires Alternating(log) && LiveIs(log, m)
    ensures Alternating(log + ReleaseOf(m)) && LiveIs(log + ReleaseOf(m), None)
  {
    if m.Some? {
      AppendPaired(log, Released(m.value.start, m.value.capacity));
    } else {
      assert log + ReleaseOf(m) == log;
    }
  }

  /** Mapping a window when nothing is live keeps the history alternating,
      with that window live. */
  lemma AppendMap(log: seq<Event>, m: Option<Window>)
    requires Alternating(log) && LiveIs(log, None)
    ensures Alternating(log + MapOf(m)) && LiveIs(log + MapOf(m), m)
  {
    if m.Some? {
      AppendPaired(log, Mapped(m.value.start, m.value.capacity));
    } else {
      assert log + MapOf(m) == log;
    }
  }

  /** Appending a release of the live window, then a map of the next one,
      keeps the history alternating. */
  lemma AlternatingStep(log: seq<Event>, prev: Option<Window>, next: Option<Window>)
    requires Alternating(log) && LiveIs(log, prev)
    ensures Alternating(log + ReleaseOf(prev) + MapOf(next))
    ensures LiveIs(log + ReleaseOf(prev) + MapOf(next), next)
  {
    AppendRelease(log, prev);
    AppendMap(log + ReleaseOf(prev), next);
  }

  /** Every prefix of an alternating history is alternating. */
  lemma AlternatingPrefix(log: seq<Event>, k: nat)
    requires Alternating(log) && k <= |log|
    ensures Alternating(log[..k])
  {
    forall i | 0 <= i < k
      ensures PairedAt(log[..k], i)
    {
      assert PairedAt(log, i);
    }
  }

  /** In an alternating history the number of live mappings is 1 right after a
      map and 0 right after a release: never two at once. */
  lemma {:induction false} LiveCountAlternating(log: seq<Event>)
    requires Alternating(log)
    ensures LiveCount(log) == |log| % 2
    decreases |log|
  {
    if |log| > 0 {
      AlternatingPrefix(log, |log| - 1);
      LiveCountAlternating(log[..|log| - 1]);
      assert PairedAt(log, |log| - 1);
    }
  }

  /** At every point of an alternating history at most one mapping is live. */
  lemma AtMostOneLive(log: seq<Event>)
    requires Alternating(log)
    ensures forall k | 0 <= k <= |log| :: 0 <= LiveCount(log[..k]) <= 1
  {
    forall k | 0 <= k <= |log|
      ensures 0 <= LiveCount(log[..k]) <= 1
    {
      AlternatingPrefix(log, k);
      LiveCountAlternating(log[..k]);
    }
  }
}
