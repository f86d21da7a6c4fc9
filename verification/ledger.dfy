/**
 A reference-count ledger for COM objects (pins, filters, monikers, the
 `pUnk` of a media type). A handle that is absent from the map has count 0;
 counts are plain integers, so a surplus `Release` shows up as a negative
 value instead of being hidden.
 */
module Ledger {

  /** An interface pointer, identified by number. */
  type Handle = nat

  type Refs = map<Handle, int>

  /** The current reference count of `h`. */
  function Count(refs: Refs, h: Handle): int {
    if h in refs then refs[h] else 0
  }

  /** `IUnknown::AddRef`: the count of `h` rises by one, every other count stays. */
  function AddRef(refs: Refs, h: Handle): (r: Refs)
    ensures forall k: Handle :: Count(r, k) == Count(refs, k) + (if k == h then 1 else 0)
  {
    refs[h := Count(refs, h) + 1]
  }

  /** `IUnknown::Release`: the count of `h` drops by one, every other count stays. */
  function Release(refs: Refs, h: Handle): (r: Refs)
    ensures forall k: Handle :: Count(r, k) == Count(refs, k) - (if k == h then 1 else 0)
  {
    refs[h := Count(refs, h) - 1]
  }
}
