/**
 * The shared resource counter of the second laboratory (`ResourcePool`):
 * one integer, starting at 50, that an adjustment may change only when the
 * result is not negative. The check and the update are made in Java's 32-bit
 * `int` arithmetic, which is written out here.
 */
module Resources {
  import opened Support

  /** The counter's value when the pool is created. */
  const InitialResources: int := 50

  /**
   * The value `modifyResources(d)` leaves when the counter holds `v`: the sum
   * when it is neither negative nor past the largest `int`, otherwise `v`.
   * (A sum past the largest `int` wraps to a negative number in Java, so the
   * guard rejects it as well.)
   */
  function Modified(v: int, d: int): (r: int)
    requires 0 <= v <= IntMax && IsInt32(d)
    ensures 0 <= r <= IntMax
    ensures r == (if 0 <= v + d <= IntMax then v + d else v)
  {
    var sum := Wrap32(v + d);
    assert v + d > IntMax ==> sum == v + d - 0x1_0000_0000;
    if sum < 0 then v else sum
  }

  /** The counter after the adjustments `ds`, applied in order, starting from `v`. */
  function ModifiedAll(v: int, ds: seq<int>): (r: int)
    requires 0 <= v <= IntMax
    requires forall i :: 0 <= i < |ds| ==> IsInt32(ds[i])
    ensures 0 <= r <= IntMax
    decreases |ds|
  {
    if ds == [] then v else ModifiedAll(Modified(v, ds[0]), ds[1..])
  }

  /** An adjustment that would make the counter negative leaves it as it was. */
  lemma RejectedLeavesValue(v: int, d: int)
    requires 0 <= v <= IntMax && IsInt32(d)
    requires v + d < 0
    ensures Modified(v, d) == v
  {
  }

  /** A non-negative adjustment is applied unless the sum leaves the `int` range. */
  lemma NonNegativeApplied(v: int, d: int)
    requires 0 <= v <= IntMax && IsInt32(d) && d >= 0
    ensures Modified(v, d) == v + d <==> v + d <= IntMax
  {
  }

  /**
   * A consumer only ever subtracts: from any value, a run of decrements keeps
   * the counter between zero and where it started, and never raises it.
   */
  lemma {:induction false} DecrementsStayInRange(v: int, ds: seq<int>)
    requires 0 <= v <= IntMax
    requires forall i :: 0 <= i < |ds| ==> IsInt32(ds[i]) && ds[i] <= 0
    ensures 0 <= ModifiedAll(v, ds) <= v
    decreases |ds|
  {
    if ds != [] {
      DecrementsStayInRange(Modified(v, ds[0]), ds[1..]);
    }
  }

  /** A run of adjustments is the same as its two halves one after the other. */
  lemma {:induction false} ModifiedAllAppend(v: int, ds: seq<int>, es: seq<int>)
    requires 0 <= v <= IntMax
    requires forall i :: 0 <= i < |ds| ==> IsInt32(ds[i])
    requires forall i :: 0 <= i < |es| ==> IsInt32(es[i])
    ensures ModifiedAll(v, ds + es) == ModifiedAll(ModifiedAll(v, ds), es)
    decreases |ds|
  {
    if ds != [] {
      assert (ds + es)[1..] == ds[1..] + es;
      ModifiedAllAppend(Modified(v, ds[0]), ds[1..], es);
    } else {
      assert ds + es == es;
    }
  }

  /** From 50, taking 60 is refused and taking 10 afterwards leaves 40. */
  lemma RefusedThenTaken()
    ensures ModifiedAll(InitialResources, [-60, -10]) == 40
  {
    assert [-60, -10][1..] == [-10];
  }

  /** The process-wide counter; `synchronized` and the atomic integer make each call one step. */
  class ResourcePool {
    var resources: int

    ghost predicate Valid()
      reads this
    {
      0 <= resources <= IntMax
    }

    constructor ()
      ensures Valid() && resources == InitialResources
    {
      resources := InitialResources;
    }

    /** Adds `d` when the 32-bit sum is not negative; otherwise does nothing. */
    method ModifyResources(d: int)
      requires Valid() && IsInt32(d)
      modifies this
      ensures Valid()
      ensures resources == Modified(old(resources), d)
      ensures old(resources) + d < 0 ==> resources == old(resources)
    {
      if !(Wrap32(resources + d) < 0) {
        resources := Wrap32(resources + d);
      }
    }

    method GetResources() returns (v: int)
      requires Valid()
      ensures v == resources && 0 <= v
    {
      v := resources;
    }
  }
}
