/** The pool of Markdown converters that rendering draws from: a fixed
    number of instances and a bitmap saying which are still unused. Rendering
    claims the lowest unused instance and marks it used; hydration, once
    enough instances are used up, replaces them with fresh ones. */
module RenderPool {
  import opened Wrappers

  const LRU_SIZE := 64
  const POOL_SIZE := 32

  /** `POOL_SIZE / 4`, a float in the source. */
  const POOL_PRESSURE: real := POOL_SIZE as real / 4.0

  /** A Markdown converter, told apart from the others by the build that
      made it. */
  datatype Engine = Engine(build: nat)

  /** `POOL_BITMAP.count(False)`: how many slots are used up. */
  function CountUsed(bitmap: seq<bool>): (n: nat)
    ensures n <= |bitmap|
    ensures n == 0 <==> forall i :: 0 <= i < |bitmap| ==> bitmap[i]
  {
    if bitmap == [] then 0 else CountUsed(bitmap[..|bitmap| - 1]) + (if bitmap[|bitmap| - 1] then 0 else 1)
  }

  /** `POOL_BITMAP.index(True)`: the lowest unused slot, if there is one. */
  function FirstUnused(bitmap: seq<bool>): (r: Option<nat>)
    ensures r.Some? ==> r.value < |bitmap| && bitmap[r.value] && forall j :: 0 <= j < r.value ==> !bitmap[j]
    ensures r.None? <==> forall j :: 0 <= j < |bitmap| ==> !bitmap[j]
  {
    if bitmap == [] then None
    else if bitmap[0] then Some(0)
    else match FirstUnused(bitmap[1..]) case None => None case Some(i) => Some(i + 1)
  }

  /** Using up one unused slot adds one to the used count. */
  lemma {:induction false} CountUsedClaim(bitmap: seq<bool>, i: nat)
    requires i < |bitmap| && bitmap[i]
    ensures CountUsed(bitmap[i := false]) == CountUsed(bitmap) + 1
  {
    var n := |bitmap| - 1;
    if i < n {
      assert bitmap[i := false][..n] == bitmap[..n][i := false];
      CountUsedClaim(bitmap[..n], i);
    } else {
      assert bitmap[i := false][..n] == bitmap[..n];
    }
  }

  /** The rank of a used slot among the used slots: how many used slots
      come before it. */
  function UsedBefore(bitmap: seq<bool>, i: nat): nat
    requires i <= |bitmap|
  {
    CountUsed(bitmap[..i])
  }

  /** Whether hydration refills the pool: when at least `POOL_PRESSURE`
      slots are used up. */
  predicate UnderPressure(bitmap: seq<bool>) {
    CountUsed(bitmap) as real >= POOL_PRESSURE
  }

  /** The pressure threshold is eight used slots. */
  lemma PressureIsEight(bitmap: seq<bool>)
    ensures UnderPressure(bitmap) <==> CountUsed(bitmap) >= 8
  {
  }

  /** The converters and the bitmap (`POOL` and `POOL_BITMAP`). */
  class Pool {
    var engines: array<Engine>
    var bitmap: array<bool>

    /** Both arrays have one entry per slot. */
    predicate Valid()
      reads this
    {
      engines.Length == POOL_SIZE && bitmap.Length == POOL_SIZE
    }

    /** A full pool of fresh converters, all unused. */
    constructor(instances: seq<Engine>)
      requires |instances| == POOL_SIZE
      ensures Valid() && engines[..] == instances && forall i :: 0 <= i < POOL_SIZE ==> bitmap[i]
      ensures fresh(engines) && fresh(bitmap)
    {
      engines := new Engine[POOL_SIZE](i requires 0 <= i < POOL_SIZE => instances[i]);
      bitmap := new bool[POOL_SIZE](_ => true);
      new;
      assert engines[..] == instances;
    }

    /** The claiming half of `render`: the lowest unused slot is marked used
        and its converter handed out; with no slot unused nothing changes
        (the source then waits for hydration, which is not modelled). */
    method Claim() returns (r: Option<nat>)
      requires Valid()
      modifies bitmap
      ensures Valid()
      ensures r == FirstUnused(old(bitmap[..]))
      ensures r.None? ==> bitmap[..] == old(bitmap[..])
      ensures r.Some? ==> bitmap[..] == old(bitmap[..])[r.value := false]
                          && CountUsed(bitmap[..]) == CountUsed(old(bitmap[..])) + 1
    {
      var i := 0;
      while i < bitmap.Length && !bitmap[i]
        invariant 0 <= i <= bitmap.Length
        invariant forall j :: 0 <= j < i ==> !bitmap[j]
      {
        i := i + 1;
      }
      if i == bitmap.Length {
        FirstUnusedNone(bitmap[..]);
        return None;
      }
      FirstUnusedAt(bitmap[..], i);
      CountUsedClaim(bitmap[..], i);
      bitmap[i] := false;
      return Some(i);
    }

    /** `render(text)`: claim a converter and convert the text with it. */
    method Render(text: string, convert: (Engine, string) -> string) returns (html: Option<string>)
      requires Valid()
      modifies bitmap
      ensures Valid()
      ensures var slot := FirstUnused(old(bitmap[..]));
              && (slot.None? <==> html.None?)
              && (slot.Some? ==> html == Some(convert(engines[slot.value], text))
                                 && bitmap[..] == old(bitmap[..])[slot.value := false])
    {
      var slot := Claim();
      if slot.None? {
        return None;
      }
      return Some(convert(engines[slot.value], text));
    }

    /** One round of `hydrate`: when enough slots are used up, as many fresh
        converters are built as there are used slots, and each used slot in
        turn gets the next one and is marked unused again. */
    method Hydrate(build: nat -> Engine)
      requires Valid()
      modifies engines, bitmap
      ensures Valid()
      ensures !UnderPressure(old(bitmap[..])) ==> engines[..] == old(engines[..]) && bitmap[..] == old(bitmap[..])
      ensures UnderPressure(old(bitmap[..])) ==>
                && (forall i :: 0 <= i < POOL_SIZE ==> bitmap[i])
                && (forall i :: 0 <= i < POOL_SIZE && old(bitmap[i]) ==> engines[i] == old(engines[i]))
                && (forall i :: 0 <= i < POOL_SIZE && !old(bitmap[i]) ==>
                      engines[i] == build(UsedBefore(old(bitmap[..]), i)))
    {
      var required := CountUsed(bitmap[..]);
      if !(required as real >= POOL_PRESSURE) {
        return;
      }
      var instances := seq(required, k requires 0 <= k < required => build(k));
      ghost var before := bitmap[..];
      ghost var previous := engines[..];
      Refill(instances);
      RefilledAll(before, previous, build);
    }

    /** The refill loop of `hydrate`: each used slot in turn gets the next
        of `instances` and is marked unused again. */
    method Refill(instances: seq<Engine>)
      requires Valid() && |instances| == CountUsed(bitmap[..])
      modifies engines, bitmap
      ensures Valid()
      ensures bitmap[..] == Marked(old(bitmap[..]), POOL_SIZE)
      ensures engines[..] == Refilled(old(bitmap[..]), old(engines[..]), instances, POOL_SIZE)
    {
      ghost var before := bitmap[..];
      ghost var previous := engines[..];
      assert UsedBefore(before, 0) == 0 by { assert before[..0] == []; }
      var idx := 0;
      var next := 0;
      while idx < bitmap.Length
        invariant 0 <= idx <= bitmap.Length
        invariant bitmap[..] == Marked(before, idx)
        invariant engines[..] == Refilled(before, previous, instances, idx)
        invariant next == UsedBefore(before, idx)
      {
        UsedBeforeStep(before, idx);
        if !before[idx] {
          RankBelowCount(before, idx);
        }
        RefillStep(before, previous, instances, idx);
        if !bitmap[idx] {
          engines[idx] := instances[next];
          next := next + 1;
          bitmap[idx] := true;
        }
        idx := idx + 1;
      }
    }
  }

  /** The bitmap once the first `k` slots have been refilled: those are
      unused, the rest as they were. */
  function Marked(before: seq<bool>, k: nat): (r: seq<bool>)
    ensures |r| == |before|
    ensures forall i :: 0 <= i < |before| ==> r[i] == (i < k || before[i])
  {
    seq(|before|, i requires 0 <= i < |before| => i < k || before[i])
  }

  /** The converters once the first `k` slots have been refilled: each used
      one among them holds the converter of its rank, the rest are as they
      were. */
  function Refilled(before: seq<bool>, previous: seq<Engine>, built: seq<Engine>, k: nat): (r: seq<Engine>)
    requires |previous| == |before|
    ensures |r| == |before|
  {
    seq(|before|, i requires 0 <= i < |before| =>
      if i < k && !before[i] && UsedBefore(before, i) < |built| then built[UsedBefore(before, i)] else previous[i])
  }

  /** One more round of the refill loop. */
  lemma RefillStep(before: seq<bool>, previous: seq<Engine>, built: seq<Engine>, k: nat)
    requires |previous| == |before| && k < |before|
    requires UsedBefore(before, k) < |built| || before[k]
    ensures Marked(before, k + 1) == Marked(before, k)[k := true]
    ensures before[k] ==> Refilled(before, previous, built, k + 1) == Refilled(before, previous, built, k)
    ensures !before[k] ==> Refilled(before, previous, built, k + 1)
                           == Refilled(before, previous, built, k)[k := built[UsedBefore(before, k)]]
  {
  }

  /** After the whole pool, unused slots kept their converter and each used
      slot holds the converter built for its rank. */
  lemma RefilledAll(before: seq<bool>, previous: seq<Engine>, build: nat -> Engine)
    requires |previous| == |before|
    ensures var built := seq(CountUsed(before), k requires 0 <= k < CountUsed(before) => build(k));
            forall i :: 0 <= i < |before| ==>
              Refilled(before, previous, built, |before|)[i] == (if before[i] then previous[i] else build(UsedBefore(before, i)))
  {
    forall i | 0 <= i < |before| && !before[i] {
      RankBelowCount(before, i);
    }
  }

  /** When no slot is unused there is no lowest one. */
  lemma FirstUnusedNone(bitmap: seq<bool>)
    requires forall j :: 0 <= j < |bitmap| ==> !bitmap[j]
    ensures FirstUnused(bitmap).None?
  {
  }

  /** The first unused slot is the one a left-to-right search stops at. */
  lemma FirstUnusedAt(bitmap: seq<bool>, i: nat)
    requires i < |bitmap| && bitmap[i] && forall j :: 0 <= j < i ==> !bitmap[j]
    ensures FirstUnused(bitmap) == Some(i)
  {
  }

  /** Counting one more slot adds one exactly when that slot is used. */
  lemma UsedBeforeStep(bitmap: seq<bool>, i: nat)
    requires i < |bitmap|
    ensures UsedBefore(bitmap, i + 1) == UsedBefore(bitmap, i) + (if bitmap[i] then 0 else 1)
  {
    assert bitmap[..i + 1][..i] == bitmap[..i];
  }

  /** Counting more slots never counts fewer used ones. */
  lemma {:induction false} UsedBeforeMonotone(bitmap: seq<bool>, i: nat, j: nat)
    requires i <= j <= |bitmap|
    ensures UsedBefore(bitmap, i) <= UsedBefore(bitmap, j)
    decreases j - i
  {
    if i < j {
      UsedBeforeStep(bitmap, j - 1);
      UsedBeforeMonotone(bitmap, i, j - 1);
    }
  }

  /** A used slot's rank is below the number of used slots. */
  lemma RankBelowCount(bitmap: seq<bool>, i: nat)
    requires i < |bitmap| && !bitmap[i]
    ensures UsedBefore(bitmap, i) < CountUsed(bitmap)
  {
    UsedBeforeStep(bitmap, i);
    UsedBeforeMonotone(bitmap, i + 1, |bitmap|);
    assert bitmap[..|bitmap|] == bitmap;
  }

  /** Every used slot's rank is below the number of used slots and ranks
      grow along the pool, so the converters hydration builds are enough
      for all used slots and no two of them get the same one. */
  lemma RanksInRange(bitmap: seq<bool>)
    ensures forall i :: 0 <= i < |bitmap| && !bitmap[i] ==> UsedBefore(bitmap, i) < CountUsed(bitmap)
    ensures forall i, j :: 0 <= i < j < |bitmap| && !bitmap[i] ==> UsedBefore(bitmap, i) < UsedBefore(bitmap, j)
  {
    forall i | 0 <= i < |bitmap| && !bitmap[i] ensures UsedBefore(bitmap, i) < CountUsed(bitmap) {
      RankBelowCount(bitmap, i);
    }
    forall i, j | 0 <= i < j < |bitmap| && !bitmap[i] ensures UsedBefore(bitmap, i) < UsedBefore(bitmap, j) {
      UsedBeforeStep(bitmap, i);
      UsedBeforeMonotone(bitmap, i + 1, j);
    }
  }
}
