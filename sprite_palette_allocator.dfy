/**
 * The sprite palette allocator of agb
 * (agb/src/display/object/sprites/sprite_allocator/palette.rs): a 16-bit
 * mask, one bit per 16-colour palette slot of sprite palette memory. A single
 * palette takes the lowest free slot; a multi palette claims a run of
 * consecutive slots at its fixed first index; freeing clears the claimed bits.
 */
module SpritePaletteAllocator {
  import opened Wrappers

  /** A `u16` mask as its sixteen bits: entry `i` is bit `i`, set when palette slot `i` is taken. */
  type Mask = m: seq<bool> | |m| == 16 witness seq(16, _ => false)

  const Empty: Mask := seq(16, _ => false)

  /** `a | b`. */
  function Or(a: Mask, b: Mask): (r: Mask)
  {
    seq(16, i requires 0 <= i < 16 => a[i] || b[i])
  }

  /** `a & !b`. */
  function AndNot(a: Mask, b: Mask): (r: Mask)
  {
    seq(16, i requires 0 <= i < 16 => a[i] && !b[i])
  }

  /** `a & b != 0`. */
  predicate Intersects(a: Mask, b: Mask)
  {
    exists i :: 0 <= i < 16 && a[i] && b[i]
  }

  /** `1u16 << i`. */
  function Bit(i: nat): (r: Mask)
    requires i < 16
  {
    seq(16, j => j == i)
  }

  /**
   * The claim of a multi palette with `len` palettes from slot `first`:
   * `((1u32 << len) - 1) << first`, the low `len` bits moved up by `first`.
   */
  function ClaimMask(len: nat, first: nat): (claim: Mask)
    requires 1 <= len <= 16 && first <= 16 - len
  {
    seq(16, i => first <= i < first + len)
  }

  /** The palette slots a mask marks as taken. */
  function Claimed(mask: Mask): (r: set<nat>)
    ensures forall i :: i in r <==> 0 <= i < 16 && mask[i]
  {
    set i | 0 <= i < 16 && mask[i]
  }

  /** The claim of a multi palette takes exactly the slots `first .. first + len`. */
  lemma ClaimMaskClaims(len: nat, first: nat)
    requires 1 <= len <= 16 && first <= 16 - len
    ensures forall i :: i in Claimed(ClaimMask(len, first)) <==> first <= i < first + len
  {
  }

  /** Setting the bit of slot `i` claims exactly that slot more. */
  lemma SetBitClaims(mask: Mask, i: nat)
    requires i < 16
    ensures Claimed(Or(mask, Bit(i))) == Claimed(mask) + {i}
  {
  }

  /** Clearing the bit of slot `i` releases exactly that slot. */
  lemma ClearBitReleases(mask: Mask, i: nat)
    requires i < 16
    ensures Claimed(AndNot(mask, Bit(i))) == Claimed(mask) - {i}
  {
  }

  /** Taking a claim that shares no slot with the mask, then freeing it, gives the mask back. */
  lemma ClaimThenFree(mask: Mask, claim: Mask)
    requires !Intersects(mask, claim)
    ensures AndNot(Or(mask, claim), claim) == mask
  {
    forall i | 0 <= i < 16
      ensures AndNot(Or(mask, claim), claim)[i] == mask[i]
    {
      assert !(mask[i] && claim[i]);
    }
  }

  /** `PaletteAllocator`: the mask held in a cell, shared by every sprite loader. */
  class PaletteAllocator {
    var allocation: Mask

    /** `new`: nothing taken. */
    constructor ()
      ensures allocation == Empty && Claimed(allocation) == {}
    {
      allocation := Empty;
    }

    /**
     * `allocate_single`: the lowest free slot, which becomes taken; `None`
     * (and no change) when all sixteen are taken.
     */
    method AllocateSingle() returns (r: Option<nat>)
      modifies this
      ensures r.None? <==> forall j :: 0 <= j < 16 ==> old(allocation)[j]
      ensures r.None? ==> allocation == old(allocation)
      ensures r.Some? ==> (r.value < 16 && !old(allocation)[r.value]
        && (forall j :: 0 <= j < r.value ==> old(allocation)[j])
        && allocation == Or(old(allocation), Bit(r.value)))
    {
      var current := allocation;
      var idx := 0;
      while idx < 16
        invariant idx <= 16 && allocation == current
        invariant forall j :: 0 <= j < idx ==> current[j]
      {
        var claim := Bit(idx);
        if !Intersects(current, claim) {
          assert claim[idx];
          allocation := Or(current, claim);
          return Some(idx);
        }
        idx := idx + 1;
      }
      return None;
    }

    /**
     * `allocate_multiple`: the `len` slots from `first` when all are free;
     * `None` with no change as soon as any is taken. The source states the
     * bounds on `len` and `first` as unchecked assumptions.
     */
    method AllocateMultiple(len: nat, first: nat) returns (r: Option<Mask>)
      requires 1 <= len <= 16 && first <= 16 - len
      modifies this
      ensures r.None? <==> exists i :: first <= i < first + len && old(allocation)[i]
      ensures r.None? ==> allocation == old(allocation)
      ensures r.Some? ==> r.value == ClaimMask(len, first) && allocation == Or(old(allocation), r.value)
    {
      var claim := ClaimMask(len, first);
      var current := allocation;
      if Intersects(current, claim) {
        return None;
      }
      allocation := Or(current, claim);
      return Some(claim);
    }

    /** `deallocate_single`: the slot index must be below 16 (it is asserted); clears that one bit. */
    method DeallocateSingle(idx: nat)
      requires idx < 16
      modifies this
      ensures allocation == AndNot(old(allocation), Bit(idx))
      ensures Claimed(allocation) == Claimed(old(allocation)) - {idx}
    {
      ClearBitReleases(allocation, idx);
      allocation := AndNot(allocation, Bit(idx));
    }

    /** `deallocate_multi`: clears the bits of the claim. */
    method DeallocateMulti(claim: Mask)
      modifies this
      ensures allocation == AndNot(old(allocation), claim)
    {
      allocation := AndNot(allocation, claim);
    }
  }

  /**
   * Two single palettes take slots 0 and 1; a two-slot multi palette at slot
   * 1 is refused, one at slot 2 is granted; freeing slot 0 makes it the next
   * single slot again.
   */
  method AllocatorExample() returns (a: Option<nat>, b: Option<nat>, m1: Option<Mask>, m2: Option<Mask>, c: Option<nat>)
    ensures a == Some(0) && b == Some(1) && m1 == None && m2 == Some(ClaimMask(2, 2)) && c == Some(0)
  {
    var p := new PaletteAllocator();
    assert !p.allocation[0] && !p.allocation[1] && !p.allocation[2] && !p.allocation[3];
    a := p.AllocateSingle();
    assert a.value == 0 && p.allocation[0] && !p.allocation[1] && !p.allocation[2] && !p.allocation[3];
    b := p.AllocateSingle();
    assert b.value == 1 && p.allocation[0] && p.allocation[1] && !p.allocation[2] && !p.allocation[3];
    m1 := p.AllocateMultiple(2, 1);
    assert p.allocation[1] && !p.allocation[2] && !p.allocation[3];
    m2 := p.AllocateMultiple(2, 2);
    p.DeallocateSingle(0);
    assert !p.allocation[0];
    c := p.AllocateSingle();
  }
}
