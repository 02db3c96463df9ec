/**
 * The dictionary object of dictionary.c: an open-addressing hash table keyed by the 64-bit hash
 * of a (key, group) pair, with linear probing, tombstones, growth by `2 n + 1` when the load
 * reaches `max_load`, and a sticky `failed` flag that turns every later operation into a no-op.
 */
module Dictionaries {
  import opened Machine
  import opened Hashing
  import opened Slots
  import opened Operations

  /** sizeof(_slot_t): a uint64_t, an int64_t, an unsigned int and an enum. */
  const SLOT_SIZE: nat := 24

  /**
   * The checked size computation at the top of `_resize`: n * a + b slots, refused when that
   * count or its size in bytes does not fit in a size_t.
   */
  function CheckedTarget(n: Word, a: Word, b: Word): (r: Option<Word>)
    ensures r.Some? <==> n * a + b <= SIZE_MAX && (n * a + b) * SLOT_SIZE <= SIZE_MAX
    ensures r.Some? ==> r.value == n * a + b
  {
    match SafeMul(n, a)
    case None => None
    case Some(m) =>
      match SafeAdd(m, b)
      case None => None
      case Some(t) => if SafeMul(t, SLOT_SIZE).Some? then Some(t) else None
  }

  /** Growth from `write`, `_resize(dict, n_alloc, 2, 1)`, succeeds: the new size fits and calloc returns memory. */
  predicate GrowthOk(nAlloc: Word, callocOk: bool)
  {
    CheckedTarget(nAlloc, 2, 1).Some? && callocOk
  }

  /**
   * The initial size `create` asks for, `n_alloc / max_load` truncated to a size_t: at least the
   * requested number of slots.
   */
  function InitialCapacity(req: Word, maxLoad: real): (t: Word)
    requires 0.0 < maxLoad <= 1.0 && req as real <= SIZE_MAX as real * maxLoad
    ensures req <= t
    ensures t as real <= req as real / maxLoad < t as real + 1.0
  {
    var q := req as real / maxLoad;
    Quotient(req as real, SIZE_MAX as real, maxLoad);
    q.Floor
  }

  /** The product of two non-negative reals is non-negative. */
  lemma ProductNonNegative(x: real, y: real)
    requires 0.0 <= x && 0.0 <= y
    ensures 0.0 <= x * y
  {
  }

  /** Dividing by a load bound in (0, 1] does not shrink, and keeps x / m <= y when x <= y * m. */
  lemma Quotient(x: real, y: real, m: real)
    requires 0.0 <= x && 0.0 < m <= 1.0 && x <= y * m
    ensures x <= x / m <= y
  {
    var q := x / m;
    assert q * m == x;
    assert q * m <= q * 1.0 by {
      assert q >= 0.0;
      ProductNonNegative(q, 1.0 - m);
    }
    ProductNonNegative(y - q, m);
  }

  /** Below the load bound there is a free slot: n < n_alloc * max_load <= n_alloc. */
  lemma BelowLoadHasRoom(n: nat, nAlloc: nat, maxLoad: real)
    requires 0.0 < maxLoad <= 1.0 && !(n as real >= nAlloc as real * maxLoad)
    ensures n < nAlloc
  {
    ProductNonNegative(nAlloc as real, 1.0 - maxLoad);
  }

  /** a / b for a <= b is a fraction in [0, 1]. */
  lemma Fraction(a: nat, b: nat)
    requires 0 < b && a <= b
    ensures 0.0 <= a as real / b as real <= 1.0
  {
    var f := a as real / b as real;
    assert f * b as real == a as real;
    ProductNonNegative(1.0 - f, b as real);
  }

  class Dictionary {
    var slots: array<Slot>
    var n: nat
    var nAlloc: nat
    var maxLoad: real
    var failed: bool

    /**
     * The invariant `create` establishes and every operation keeps: the array has n_alloc slots
     * whose byte size fits in a size_t, the load bound is in (0, 1], `n` counts the Occupied slots,
     * and every Occupied slot is reachable by the probe for its hash.
     */
    ghost predicate Valid()
      reads this, slots
    {
      slots.Length == nAlloc && nAlloc * SLOT_SIZE <= SIZE_MAX && 0.0 < maxLoad <= 1.0 &&
      Reachable(slots[..]) && UniqueHashes(slots[..]) && n == |OccIdx(slots[..])|
    }

    /** The contents: stored hash to (group, value). */
    ghost function View(): map<Word, Entry>
      reads this, slots
      requires Valid()
    {
      ViewOf(slots[..])
    }

    /** The field values of `_err_dict`. */
    ghost predicate IsPlaceholder()
      reads this
    {
      failed && n == 0 && nAlloc == 0 && maxLoad == 1.0
    }

    /** The load test at the top of `write`: `n >= n_alloc * max_load`. */
    predicate MustGrow()
      reads this
    {
      n as real >= nAlloc as real * maxLoad
    }

    /** `_err_dict`: no slots, and failed. */
    constructor Placeholder()
      ensures Valid() && IsPlaceholder() && View() == map[] && fresh(slots)
    {
      slots := new Slot[0];
      n, nAlloc, maxLoad, failed := 0, 0, 1.0, true;
    }

    /** The object `create` fills in before its first `_resize`. */
    constructor Empty(maxLoad: real)
      requires 0.0 < maxLoad <= 1.0
      ensures Valid() && !failed && n == 0 && nAlloc == 0 && this.maxLoad == maxLoad && View() == map[]
      ensures fresh(slots)
    {
      slots := new Slot[0];
      n, nAlloc, this.maxLoad, failed := 0, 0, maxLoad, false;
    }

    // -------------------------------------------------------------------------------------------
    // Queries

    /** `get_alloc_size`: the number of slots, 0 once failed. */
    function GetAllocSize(): (r: Word)
      reads this, slots
      requires Valid()
      ensures failed ==> r == 0
      ensures !failed ==> r == slots.Length && n <= r
    {
      OccIdxBound(slots[..]);
      if failed then 0 else nAlloc
    }

    /** `get_load`: the number of keys stored, 0 once failed. */
    function GetLoad(): (r: Word)
      reads this, slots
      requires Valid()
      ensures r == if failed then 0 else |View()|
    {
      OccIdxBound(slots[..]);
      CountIsSize(slots[..]);
      if failed then 0 else n
    }

    /**
     * `get_load_factor` in exact arithmetic: keys per slot, between 0 and 1; None stands for the
     * NaN of `0.0 / 0` when no slot is allocated.
     */
    function GetLoadFactor(): (r: Option<real>)
      reads this, slots
      requires Valid()
      ensures failed ==> r == Some(0.0)
      ensures !failed ==> (r.None? <==> slots.Length == 0)
      ensures r.Some? ==> 0.0 <= r.value <= 1.0
      ensures !failed && r.Some? ==> r.value == |View()| as real / slots.Length as real
    {
      OccIdxBound(slots[..]);
      CountIsSize(slots[..]);
      if failed then Some(0.0)
      else if nAlloc == 0 then None
      else
        Fraction(n, slots.Length);
        Some(n as real / slots.Length as real)
    }

    /** `has_failed`: the sticky failure flag; a failed dictionary reports no slots and no load. */
    function HasFailed(): (r: bool)
      reads this, slots
      requires Valid()
      ensures r == failed
      ensures r ==> GetLoad() == 0 && GetAllocSize() == 0 && GetLoadFactor() == Some(0.0)
      ensures !r ==> GetLoad() == |View()| && GetAllocSize() == slots.Length
    {
      failed
    }

    // -------------------------------------------------------------------------------------------
    // The probe

    /** `_find_slot`: the linear probe from `hash % n_alloc`, NULL (None) after a full cycle. */
    method FindSlot(h: Word, cutOff: State) returns (r: Option<nat>)
      requires 0 < nAlloc == slots.Length
      ensures r == Probe(slots[..], h, cutOff)
    {
      var i0 := h % nAlloc;
      var i := i0;
      ghost var k := 0;
      while Rank(cutOff) < Rank(slots[i].state) && slots[i].hash != h
        invariant 0 <= k < nAlloc && i == Idx(i0, k, nAlloc)
        invariant ProbeFrom(slots[..], h, cutOff, k) == Probe(slots[..], h, cutOff)
        decreases nAlloc - k
      {
        i := i + 1;
        if i >= nAlloc {
          i := 0;
        }
        k := k + 1;
        if i == i0 {
          return None;
        }
      }
      return Some(i);
    }

    // -------------------------------------------------------------------------------------------
    // Operations

    /** `find`: the value stored under the key's hash, read back as a size_t; nothing once failed. */
    method Find(key: Option<seq<Byte>>, group: Group) returns (r: Option<Word>)
      requires Valid()
      ensures var h := Hash(key, group);
        r == if !failed && h in View() then Some(ToWord(View()[h].value)) else None
    {
      if failed {
        return None;
      }
      var h := Hash(key, group);
      if n == 0 {
        CountIsSize(slots[..]);
        return None;
      }
      OccIdxBound(slots[..]);
      ProbeLookup(slots[..], h);
      var slot := FindSlot(h, Unused);
      if slot.None? || slots[slot.value].state != Occupied {
        return None;
      }
      return Some(ToWord(slots[slot.value].value));
    }

    /** `erase`: the key's live slot becomes a tombstone. */
    method Erase(key: Option<seq<Byte>>, group: Group)
      requires Valid()
      modifies this`n, slots
      ensures Valid()
      ensures old(failed) ==> n == old(n) && slots[..] == old(slots[..])
      ensures !old(failed) ==> slots[..] == Erased(old(slots[..]), Hash(key, group))
      ensures !old(failed) ==> View() == old(View()) - {Hash(key, group)}
      ensures !old(failed) ==> n == old(n) - (if Hash(key, group) in old(View()) then 1 else 0)
    {
      if failed {
        return;
      }
      var h := Hash(key, group);
      ErasedFacts(slots[..], h);
      if n == 0 {
        NoneOccupied(slots[..], 0, h);
        return;
      }
      OccIdxBound(slots[..]);
      ProbeLookup(slots[..], h);
      var slot := FindSlot(h, Unused);
      if slot.Some? && slots[slot.value].state == Occupied {
        assert slot.value in OccIdx(slots[..]);
        slots[slot.value] := slots[slot.value].(state := Deleted);
        n := n - 1;
      }
    }

    /** `clear`: every slot zeroed, no keys. */
    method Clear()
      requires Valid()
      modifies this`n, slots
      ensures Valid()
      ensures old(failed) ==> n == old(n) && slots[..] == old(slots[..])
      ensures !old(failed) ==> slots[..] == Cleared(nAlloc) && n == 0 && View() == map[]
    {
      if failed {
        return;
      }
      forall i | 0 <= i < slots.Length {
        slots[i] := ZERO;
      }
      n := 0;
      assert slots[..] == Cleared(nAlloc);
      ClearedEmpty(nAlloc);
    }

    /**
     * `clear_group`: every live slot of the group becomes a tombstone. The loop index is a
     * uint32_t, so the loop ends only for fewer than 2^32 slots.
     */
    method ClearGroup(group: Group)
      requires Valid()
      requires failed || n == 0 || nAlloc < 0x1_0000_0000
      modifies this`n, slots
      ensures Valid()
      ensures old(failed) ==> n == old(n) && slots[..] == old(slots[..])
      ensures !old(failed) ==> slots[..] == DemoteGroup(old(slots[..]), group)
      ensures !old(failed) ==> View() == WithoutGroup(old(View()), group)
    {
      if failed {
        return;
      }
      DemoteGroupFacts(slots[..], group);
      if n == 0 {
        NoneOccupied(slots[..], group, 0);
        return;
      }
      ghost var s0 := slots[..];
      DemoteGroupEnds(s0, group);
      var i := 0;
      while i < nAlloc
        invariant 0 <= i <= nAlloc == slots.Length < 0x1_0000_0000
        invariant slots[..] == DemoteGroupUpTo(s0, group, i)
        invariant n == |OccIdx(slots[..])|
      {
        DemoteGroupStep(s0, group, i);
        if slots[i].state == Occupied && slots[i].group == group {
          slots[i] := slots[i].(state := Deleted);
          n := n - 1;
        }
        i := i + 1;
      }
    }

    /**
     * `_resize(dict, base, a, b)`: grow to `base * a + b` slots. Overflow fails the dictionary; a
     * size that is not larger succeeds with no change; a calloc failure fails it and keeps the old
     * array; otherwise the live slots move to a fresh zeroed array.
     */
    method Resize(base: Word, a: Word, b: Word, callocOk: bool) returns (ok: bool)
      requires Valid()
      modifies this
      ensures Valid() && n == old(n) && maxLoad == old(maxLoad)
      ensures ok <==> CheckedTarget(base, a, b).Some? && (CheckedTarget(base, a, b).value <= old(nAlloc) || callocOk)
      ensures !ok ==> failed && slots == old(slots) && nAlloc == old(nAlloc)
      ensures ok && CheckedTarget(base, a, b).value <= old(nAlloc) ==> unchanged(this)
      ensures ok && CheckedTarget(base, a, b).value > old(nAlloc) ==>
        failed == old(failed) && fresh(slots) && nAlloc == CheckedTarget(base, a, b).value &&
        slots[..] == Rebuild(old(slots[..]), nAlloc, old(nAlloc)) && NoTombstones(slots[..])
      ensures ok ==> View() == old(View())
    {
      var t := CheckedTarget(base, a, b);
      if t.None? {
        failed := true;
        return false;
      }
      var target := t.value;
      if target <= nAlloc {
        return true;
      }
      if !callocOk {
        failed := true;
        return false;
      }
      var prev, prevLen := slots, nAlloc;
      slots := new Slot[target](_ => ZERO);
      nAlloc := target;
      assert slots[..] == Rebuild(prev[..], target, 0);
      var i := 0;
      while i < prevLen
        invariant 0 <= i <= prevLen == prev.Length && prev == old(slots)
        invariant slots.Length == nAlloc == target && fresh(slots)
        invariant slots[..] == Rebuild(prev[..], target, i)
        invariant n == old(n) && maxLoad == old(maxLoad) && failed == old(failed)
      {
        if prev[i].state == Occupied {
          MoveFindsSlot(prev[..], target, i);
          var u := FindSlot(prev[i].hash, Unused);
          slots[u.value] := prev[i];
        }
        i := i + 1;
      }
      Regrown(prev[..], target);
      return true;
    }

    /**
     * The placement half of `write`, on a table with a free slot: the probe with cut-off Deleted,
     * then the three cases of the switch.
     */
    method Place(h: Word, group: Group, v: I64)
      requires Valid() && n < nAlloc
      modifies this`n, slots
      ensures Valid()
      ensures slots[..] == Written(old(slots[..]), h, group, v)
      ensures View() == old(View())[h := Entry(if h in old(View()) && InPlace(old(slots[..]), h) then old(View())[h].group else group, v)]
      ensures n == old(n) + (if h in old(View()) then 0 else 1)
    {
      WrittenFacts(slots[..], h, group, v);
      ProbeLookup(slots[..], h);
      var u0 := ProbeInsert(slots[..], h);
      var slot := FindSlot(h, Deleted);
      var u := slot.value;
      match slots[u].state
      case Deleted =>
        var slot2 := FindSlot(h, Unused);
        if slot2.Some? && slots[slot2.value].state == Occupied {
          ViewAt(slots[..], slot2.value);
          assert slot2.value in OccIdx(slots[..]);
          slots[slot2.value] := slots[slot2.value].(state := Deleted);
          n := n - 1;
        }
        slots[u] := Slot(h, v, group, Occupied);
        n := n + 1;
      case Unused =>
        slots[u] := Slot(h, v, group, Occupied);
        n := n + 1;
      case Occupied =>
        ViewAt(slots[..], u);
        slots[u] := slots[u].(value := v);
    }

    /**
     * `write`: store value under the key's hash, growing first when the load has reached the
     * bound. A failed growth fails the dictionary and stores nothing. The key's old group is kept
     * when the probe overwrites its live slot in place; otherwise the new group is stored.
     */
    method Write(key: Option<seq<Byte>>, group: Group, value: Word, callocOk: bool)
      requires Valid()
      modifies this, slots
      ensures Valid() && maxLoad == old(maxLoad)
      ensures slots == old(slots) || fresh(slots)
      ensures old(failed) ==> unchanged(this) && slots[..] == old(slots[..])
      ensures !old(failed) && old(MustGrow()) && !GrowthOk(old(nAlloc), callocOk) ==>
        failed && slots == old(slots) && slots[..] == old(slots[..]) && n == old(n) && nAlloc == old(nAlloc)
      ensures !old(failed) && (!old(MustGrow()) || GrowthOk(old(nAlloc), callocOk)) ==>
        !failed &&
        nAlloc == (if old(MustGrow()) then 2 * old(nAlloc) + 1 else old(nAlloc)) &&
        slots[..] == Written(if old(MustGrow()) then Rebuild(old(slots[..]), nAlloc, old(nAlloc)) else old(slots[..]),
                             Hash(key, group), group, ToI64(value)) &&
        View() == old(View())[Hash(key, group) := Entry(
          if Hash(key, group) in old(View()) && (old(MustGrow()) || InPlace(old(slots[..]), Hash(key, group)))
          then old(View())[Hash(key, group)].group else group,
          ToI64(value))] &&
        n == old(n) + (if Hash(key, group) in old(View()) then 0 else 1)
    {
      if failed {
        return;
      }
      ghost var grow := MustGrow();
      var ok := MakeRoom(callocOk);
      if !ok {
        return;
      }
      if grow {
        NoTombstonesInPlace(slots[..], Hash(key, group));
      }
      Place(Hash(key, group), group, ToI64(value));
    }

    /**
     * The load test at the top of `write`: when `n >= n_alloc * max_load` the array grows to
     * `2 * n_alloc + 1` slots. Unless that growth fails, there is a free slot afterwards.
     */
    method MakeRoom(callocOk: bool) returns (ok: bool)
      requires Valid() && !failed
      modifies this
      ensures Valid() && n == old(n) && maxLoad == old(maxLoad) && View() == old(View())
      ensures ok <==> !old(MustGrow()) || GrowthOk(old(nAlloc), callocOk)
      ensures !ok ==> failed && slots == old(slots) && nAlloc == old(nAlloc)
      ensures ok ==> !failed && n < nAlloc
      ensures ok && !old(MustGrow()) ==> unchanged(this)
      ensures ok && old(MustGrow()) ==>
        fresh(slots) && nAlloc == 2 * old(nAlloc) + 1 && slots[..] == Rebuild(old(slots[..]), nAlloc, old(nAlloc)) &&
        NoTombstones(slots[..])
    {
      OccIdxBound(slots[..]);
      if MustGrow() {
        ok := Resize(nAlloc, 2, 1, callocOk);
        if ok {
          assert n < nAlloc;
        }
      } else {
        BelowLoadHasRoom(n, nAlloc, maxLoad);
        ok := true;
      }
    }
  }

  /** The library's static state: the one `_err_dict` object, and the functions that hand it out. */
  class Statics {
    const placeholder: Dictionary

    ghost predicate Valid()
      reads this, placeholder, placeholder.slots
    {
      placeholder.Valid() && placeholder.IsPlaceholder()
    }

    constructor ()
      ensures Valid() && fresh(placeholder) && fresh(placeholder.slots)
    {
      placeholder := new Dictionary.Placeholder();
    }

    /**
     * `create(n_alloc, max_load)`: the placeholder when the requested size exceeds what max_load
     * allows or malloc fails; otherwise a new empty dictionary sized by InitialCapacity, failed
     * when that size overflows or calloc fails.
     */
    method Create(nAllocReq: Word, maxLoad: real, mallocOk: bool, callocOk: bool) returns (d: Dictionary)
      requires Valid() && 0.0 < maxLoad <= 1.0
      ensures Valid()
      ensures nAllocReq as real > SIZE_MAX as real * maxLoad || !mallocOk ==> d == placeholder
      ensures nAllocReq as real <= SIZE_MAX as real * maxLoad && mallocOk ==>
        var t := InitialCapacity(nAllocReq, maxLoad);
        fresh(d) && fresh(d.slots) && d.Valid() && d.maxLoad == maxLoad && d.n == 0 && d.View() == map[] &&
        (d.failed <==> t * SLOT_SIZE > SIZE_MAX || (t > 0 && !callocOk)) &&
        (!d.failed ==> d.nAlloc == t && nAllocReq <= d.nAlloc)
    {
      if nAllocReq as real > SIZE_MAX as real * maxLoad {
        return placeholder;
      }
      if !mallocOk {
        return placeholder;
      }
      d := new Dictionary.Empty(maxLoad);
      var _ := d.Resize(InitialCapacity(nAllocReq, maxLoad), 1, 0, callocOk);
    }

    /** `destroy`: the handle is left pointing at the placeholder (the placeholder itself is never freed). */
    method Destroy(d: Dictionary) returns (r: Dictionary)
      requires Valid()
      ensures r == placeholder && r.IsPlaceholder()
    {
      return placeholder;
    }

    /** `get_placeholder`: the failed dictionary every failing constructor returns. */
    method GetPlaceholder() returns (r: Dictionary)
      requires Valid()
      ensures r == placeholder && r.failed && r.Valid() && r.View() == map[]
    {
      return placeholder;
    }
  }
}
