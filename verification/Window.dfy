/**
 The ring of buffered frames: window_size slots, a frame with sequence number k in slot
 k % window_size, and four counters. Nothing in the ring checks that the frame found in a
 slot is the one asked for.
 */
module Window {
  import opened Arithmetic
  import opened Options
  import opened Pdu

  /** The abstract value of a WindowArray: one optional frame per slot. */
  datatype RingState = Ring(slots: seq<Option<Frame>>, lower: nat, current: nat, upper: nat, highest: nat) {
    function Index(k: nat): nat
      requires |slots| > 0
    {
      k % |slots|
    }
  }

  /** make_window is called with a window size of at least one. */
  type Ring = r: RingState | |r.slots| > 0 witness Ring([None], 0, 0, 1, 0)

  function Size(r: Ring): nat {
    |r.slots|
  }

  function MakeWindow(size: nat): Ring
    requires size > 0
  {
    Ring(seq(size, _ => None), 0, 0, size, 0)
  }

  predicate CheckWindowOpen(r: Ring) {
    r.current < r.upper
  }

  function GetPdu(r: Ring, k: nat): Option<Frame> {
    r.slots[r.Index(k)]
  }

  predicate CheckPduValid(r: Ring, k: nat) {
    GetPdu(r, k).Some?
  }

  /** Insertion leaves an occupied slot alone. */
  function AddPdu(r: Ring, f: Frame, k: nat): Ring {
    if CheckPduValid(r, k) then r else r.(slots := r.slots[r.Index(k) := Some(f)])
  }

  function RemovePdu(r: Ring, k: nat): Ring {
    r.(slots := r.slots[r.Index(k) := None])
  }

  /** Both edges of the window move up by one. */
  function IncrementEdges(r: Ring): Ring {
    r.(lower := r.lower + 1, upper := r.upper + 1)
  }

  function IncrementAll(r: Ring): Ring {
    IncrementEdges(r).(current := r.current + 1)
  }

  // ----- Slots of an interval of Size(r) consecutive numbers do not collide -----

  /** The two ends of an interval of Size(r) + 1 numbers share a slot. */
  lemma Aliased(r: Ring, k: nat)
    ensures GetPdu(r, k + Size(r)) == GetPdu(r, k)
  {
    ResiduePeriodic(k, Size(r), 1);
  }

  predicate Near(r: Ring, j: nat, k: nat) {
    j < k + Size(r) && k < j + Size(r)
  }

  lemma SlotsDiffer(r: Ring, j: nat, k: nat)
    requires Near(r, j, k) && j != k
    ensures r.Index(j) != r.Index(k)
  {
    if r.Index(j) == r.Index(k) {
      ResidueUnique(j, k, Size(r));
    }
  }

  lemma GetAfterAdd(r: Ring, f: Frame, k: nat, j: nat)
    requires Near(r, j, k)
    ensures GetPdu(AddPdu(r, f, k), j) == if j == k && GetPdu(r, k) == None then Some(f) else GetPdu(r, j)
  {
    if j != k {
      SlotsDiffer(r, j, k);
    }
  }

  lemma GetAfterRemove(r: Ring, k: nat, j: nat)
    requires Near(r, j, k)
    ensures GetPdu(RemovePdu(r, k), j) == if j == k then None else GetPdu(r, j)
  {
    if j != k {
      SlotsDiffer(r, j, k);
    }
  }

  // ----- Refinement of a finite map -----

  /** The frames of the ring seen as a map over the Size(r) numbers from lo on. */
  function Contents(r: Ring, lo: nat): map<nat, Frame> {
    map k | lo <= k < lo + Size(r) && GetPdu(r, k).Some? :: GetPdu(r, k).value
  }

  predicate InWindow(r: Ring, lo: nat, k: int) {
    lo <= k < lo + Size(r)
  }

  /** The number of the Size(r) from lo on whose slot k is looked up in. */
  function Alias(r: Ring, lo: nat, k: nat): nat {
    lo + (k - lo) % Size(r)
  }

  /** Of any Size(r) consecutive numbers exactly one shares the slot of k. */
  lemma OneAlias(r: Ring, lo: nat, k: nat)
    ensures InWindow(r, lo, Alias(r, lo, k)) && GetPdu(r, Alias(r, lo, k)) == GetPdu(r, k)
    ensures forall j: nat :: InWindow(r, lo, j) && r.Index(j) == r.Index(k) ==> j == Alias(r, lo, k)
  {
    var q := (k - lo) / Size(r);
    assert k - lo == Size(r) * q + (k - lo) % Size(r);
    assert Alias(r, lo, k) == k + Size(r) * -q;
    ResiduePeriodic(k, Size(r), -q);
    forall j: nat | InWindow(r, lo, j) && r.Index(j) == r.Index(k)
      ensures j == Alias(r, lo, k)
    {
      ResidueUnique(j, Alias(r, lo, k), Size(r));
    }
  }

  lemma LookupRefinesMap(r: Ring, lo: nat, k: nat)
    requires InWindow(r, lo, k)
    ensures GetPdu(r, k) == if k in Contents(r, lo) then Some(Contents(r, lo)[k]) else None
    ensures CheckPduValid(r, k) <==> k in Contents(r, lo)
  {
  }

  lemma AddRefinesMap(r: Ring, lo: nat, f: Frame, k: nat)
    requires InWindow(r, lo, k)
    ensures Contents(AddPdu(r, f, k), lo) ==
            if k in Contents(r, lo) then Contents(r, lo) else Contents(r, lo)[k := f]
  {
    forall j | InWindow(r, lo, j)
      ensures GetPdu(AddPdu(r, f, k), j) == if j == k && GetPdu(r, k) == None then Some(f) else GetPdu(r, j)
    {
      GetAfterAdd(r, f, k, j);
    }
  }

  lemma RemoveRefinesMap(r: Ring, lo: nat, k: nat)
    requires InWindow(r, lo, k)
    ensures Contents(RemovePdu(r, k), lo) == Contents(r, lo) - {k}
  {
    forall j | InWindow(r, lo, j)
      ensures GetPdu(RemovePdu(r, k), j) == if j == k then None else GetPdu(r, j)
    {
      GetAfterRemove(r, k, j);
    }
  }

  /**
   Sliding the interval past its lowest number keeps the map exactly when that number is
   absent; otherwise the frame reappears under a number it was never stored for.
   */
  lemma SlideRefinesMap(r: Ring, lo: nat)
    ensures Contents(r, lo + 1) == Contents(r, lo) <==> lo !in Contents(r, lo)
    ensures lo in Contents(r, lo) ==> lo + Size(r) in Contents(r, lo + 1)
                                      && Contents(r, lo + 1)[lo + Size(r)] == Contents(r, lo)[lo]
  {
    Aliased(r, lo);
    assert lo !in Contents(r, lo + 1);
    if lo !in Contents(r, lo) {
      assert forall k :: k in Contents(r, lo) <==> k in Contents(r, lo + 1);
    }
  }
}
