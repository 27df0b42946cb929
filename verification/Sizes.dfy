/** The machine's size type, whose sums and differences saturate. */
module Sizes {

  const USIZE_MAX: nat := 0xFFFF_FFFF_FFFF_FFFF

  function Min(a: nat, b: nat): nat { if a < b then a else b }

  function Max(a: nat, b: nat): nat { if a < b then b else a }

  function SatAdd(a: nat, b: nat): nat { Min(a + b, USIZE_MAX) }

  function SatSub(a: nat, b: nat): nat { if a < b then 0 else a - b }

  /** One octet past the room left is all that is ever written, and none at all once the total stood above the limit. */
  lemma OnePast(before: nat, start: nat, was: nat, now: nat, limit: nat)
    requires before <= USIZE_MAX && start <= was <= now && limit <= USIZE_MAX
    requires was == start || SatAdd(before, was) <= limit
    requires now <= was + SatSub(limit, SatAdd(before, was)) + 1
    ensures SatAdd(before, now) <= Max(limit, SatAdd(before, start)) + 1
    ensures limit < USIZE_MAX ==> before + now <= Max(limit, before + start) + 1
  {
  }
}
