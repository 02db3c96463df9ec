/**
 * The pointer tracker of tracker.c: a growable, duplicate-free stack of opaque pointers with a
 * status word; every handler except init and reset does nothing unless the status is SUCCESS.
 */
module Trackers {
  import opened Machine

  datatype Status = NotInit | Success | Failure

  /** No element occurs twice. */
  ghost predicate Distinct<T>(s: seq<T>)
  {
    forall i, j :: 0 <= i < j < |s| ==> s[i] != s[j]
  }

  /** s with the element at index i taken out, the rest in order. */
  function RemoveAt<T>(s: seq<T>, i: nat): (r: seq<T>)
    requires i < |s|
    ensures |r| == |s| - 1
    ensures forall j :: 0 <= j < i ==> r[j] == s[j]
    ensures forall j :: i <= j < |r| ==> r[j] == s[j + 1]
  {
    s[..i] + s[i + 1..]
  }

  /** Taking an element out of a duplicate-free sequence leaves it duplicate-free and removes exactly that element. */
  lemma RemoveAtDistinct<T>(s: seq<T>, i: nat)
    requires Distinct(s) && i < |s|
    ensures Distinct(RemoveAt(s, i))
    ensures s[i] !in RemoveAt(s, i)
    ensures multiset(RemoveAt(s, i)) == multiset(s) - multiset{s[i]}
  {
    var r := RemoveAt(s, i);
    assert s == s[..i] + [s[i]] + s[i + 1..];
    assert r == s[..i] + s[i + 1..];
    forall j | 0 <= j < |r|
      ensures r[j] != s[i]
    {
      if j < i {
        assert r[j] == s[j];
      } else {
        assert r[j] == s[j + 1];
      }
    }
  }

  /** One step of the shifting loop of `pull_index`: position i takes the element after it. */
  lemma ShiftStep<T>(s: seq<T>, index: nat, i: nat)
    requires index <= i && i + 1 < |s|
    ensures (s[..index] + s[index + 1..i + 1] + s[i..])[i + 1] == s[i + 1]
    ensures (s[..index] + s[index + 1..i + 1] + s[i..])[i := s[i + 1]] == s[..index] + s[index + 1..i + 2] + s[i + 1..]
  {
    var a := s[..index] + s[index + 1..i + 1] + s[i..];
    var b := s[..index] + s[index + 1..i + 2] + s[i + 1..];
    assert |a| == |b| == |s|;
    forall j | 0 <= j < |s|
      ensures a[i := s[i + 1]][j] == b[j]
    {
      if j < index {
        assert a[j] == s[j] && b[j] == s[j];
      } else if j < i {
        assert a[j] == s[j + 1] && b[j] == s[j + 1];
      } else if j > i {
        assert a[j] == s[j] && b[j] == s[j];
      }
    }
  }

  /** When the shifting loop of `pull_index` ends, the first m - 1 elements are s[..m] without index, and the rest is as before. */
  lemma ShiftDone<T>(s: seq<T>, index: nat, m: nat)
    requires index < m <= |s|
    ensures (s[..index] + s[index + 1..m] + s[m - 1..])[..m - 1] == RemoveAt(s[..m], index)
    ensures (s[..index] + s[index + 1..m] + s[m - 1..])[m - 1..] == s[m - 1..]
  {
    var a := s[..index] + s[index + 1..m] + s[m - 1..];
    assert a[..m - 1] == s[..index] + s[index + 1..m];
    assert s[..m][..index] == s[..index] && s[..m][index + 1..] == s[index + 1..m];
  }

  /** Appending an element not yet present keeps a sequence duplicate-free. */
  lemma AppendDistinct<T>(s: seq<T>, x: T)
    requires Distinct(s) && x !in s
    ensures Distinct(s + [x])
  {
    var t := s + [x];
    forall i, j | 0 <= i < j < |t|
      ensures t[i] != t[j]
    {
      if j == |s| {
        assert t[i] == s[i];
      }
    }
  }

  /**
   * Where `find` starts scanning: the hint when it is given and below n, otherwise n - 1. The
   * value -1 stands for the SIZE_MAX that `n - 1` wraps to when n is 0.
   */
  function ScanStart(hint: Option<nat>, n: nat): (i0: int)
    ensures -1 <= i0 < n
    ensures n == 0 ==> i0 == -1
  {
    if hint.Some? && hint.value < n then hint.value else n - 1
  }

  /**
   * k is the position `find` stops at for p: the nearest occurrence at or below i0, and when there
   * is none, the first one above it.
   */
  ghost predicate ScanFinds<T>(s: seq<T>, p: T, i0: int, k: nat)
  {
    k < |s| && s[k] == p &&
    if k <= i0 then forall j :: k < j <= i0 && j < |s| ==> s[j] != p
    else forall j :: 0 <= j < k ==> s[j] != p
  }

  /** In a duplicate-free sequence the scan order does not matter: `find` stops at the one occurrence. */
  lemma ScanFindsUnique<T>(s: seq<T>, p: T, i0: int, k: nat)
    requires Distinct(s) && k < |s|
    ensures ScanFinds(s, p, i0, k) <==> s[k] == p
  {
    if s[k] == p {
      forall j | 0 <= j < |s| && j != k
        ensures s[j] != p
      {
        if j < k {
          assert s[j] != s[k];
        } else {
          assert s[k] != s[j];
        }
      }
    }
  }

  class Tracker<T(==,0)> {
    var ptr: array<T>
    var n: nat
    var nAlloc: nat
    var status: Status

    /**
     * `n <= n_alloc`; with SUCCESS the array has n_alloc elements (after a failed growth n_alloc is
     * already doubled while the array is not); the tracked pointers are duplicate-free.
     */
    ghost predicate Valid()
      reads this, ptr
    {
      n <= ptr.Length <= nAlloc && (status == Success ==> ptr.Length == nAlloc) && Distinct(ptr[..n])
    }

    /** The tracked pointers, `ptr[0 .. n)`. */
    ghost function Contents(): seq<T>
      reads this, ptr
      requires Valid()
    {
      ptr[..n]
    }

    /** A tracker no handler has been called on yet. */
    constructor Uninit()
      ensures Valid() && status == NotInit && Contents() == [] && fresh(ptr)
    {
      ptr := new T[0];
      n, nAlloc, status := 0, 0, NotInit;
    }

    /**
     * `find`: scan down from the start index to 0, then up from just above it to n - 1. The hint
     * (None for a NULL `index`) is replaced by the position found and left alone otherwise.
     */
    method Find(p: T, hint: Option<nat>) returns (found: bool, index: Option<nat>)
      requires Valid()
      ensures found <==> status == Success && p in Contents()
      ensures !found || hint.None? ==> index == hint
      ensures found && hint.Some? ==> index.Some? && ScanFinds(Contents(), p, ScanStart(hint, n), index.value)
    {
      if status != Success {
        return false, hint;
      }
      var i0 := ScanStart(hint, n);
      var i := i0;
      // i == -1 stands for the SIZE_MAX that ends the downward loop once i0 .. 0 are scanned
      while i >= 0
        invariant -1 <= i <= i0
        invariant forall j :: i < j <= i0 ==> ptr[j] != p
      {
        if ptr[i] == p {
          assert Contents()[i] == p;
          return true, if hint.Some? then Some(i as nat) else None;
        }
        i := i - 1;
      }
      i := i0 + 1;
      while i < n
        invariant i0 + 1 <= i <= n
        invariant forall j :: 0 <= j < i ==> ptr[j] != p
      {
        if ptr[i] == p {
          assert Contents()[i] == p;
          return true, if hint.Some? then Some(i as nat) else None;
        }
        i := i + 1;
      }
      assert p !in Contents();
      return false, hint;
    }

    /** `_extend`: n_alloc doubles (or becomes 1), then realloc either fails the tracker or copies the pointers over. */
    method Extend(reallocOk: bool) returns (ok: bool)
      requires Valid() && ptr.Length == nAlloc
      modifies this
      ensures Valid() && n == old(n)
      ensures nAlloc == if old(nAlloc) > 0 then 2 * old(nAlloc) else 1
      ensures ok <==> reallocOk
      ensures ok ==> status == old(status) && fresh(ptr) && ptr.Length == nAlloc && ptr[..old(ptr.Length)] == old(ptr[..])
      ensures !ok ==> status == Failure && ptr == old(ptr)
      ensures Contents() == old(Contents())
    {
      nAlloc := if nAlloc > 0 then nAlloc * 2 else 1;
      if !reallocOk {
        status := Failure;
        return false;
      }
      var tmp := new T[nAlloc];
      forall i | 0 <= i < ptr.Length {
        tmp[i] := ptr[i];
      }
      assert tmp[..n] == ptr[..n];
      ptr := tmp;
      return true;
    }

    /**
     * `push`: a pointer already present changes nothing and reports its position; a new one goes
     * at the end, after growing the array when it is full. A failed growth fails the tracker.
     */
    method Push(p: T, hint: Option<nat>, reallocOk: bool) returns (index: Option<nat>)
      requires Valid()
      modifies this, ptr
      ensures Valid() && (ptr == old(ptr) || fresh(ptr))
      ensures old(status) != Success ==> unchanged(this) && ptr[..] == old(ptr[..]) && index == hint
      ensures old(status) == Success && p in old(Contents()) ==>
        unchanged(this) && ptr[..] == old(ptr[..]) &&
        (hint.Some? ==> index.Some? && ScanFinds(Contents(), p, ScanStart(hint, n), index.value)) &&
        (hint.None? ==> index.None?)
      ensures old(status) == Success && p !in old(Contents()) && old(n) >= old(nAlloc) && !reallocOk ==>
        status == Failure && Contents() == old(Contents()) && index == hint &&
        nAlloc == (if old(nAlloc) > 0 then 2 * old(nAlloc) else 1)
      ensures old(status) == Success && p !in old(Contents()) && (old(n) < old(nAlloc) || reallocOk) ==>
        status == Success && Contents() == old(Contents()) + [p] &&
        index == (if hint.Some? then Some(old(n)) else None) &&
        nAlloc == (if old(n) < old(nAlloc) then old(nAlloc) else if old(nAlloc) > 0 then 2 * old(nAlloc) else 1)
    {
      if status != Success {
        return hint;
      }
      var found, idx := Find(p, hint);
      if found {
        return idx;
      }
      if n >= nAlloc {
        var ok := Extend(reallocOk);
        if !ok {
          return hint;
        }
      }
      index := if hint.Some? then Some(n) else None;
      AppendDistinct(ptr[..n], p);
      ptr[n] := p;
      n := n + 1;
      assert ptr[..n] == old(ptr[..n]) + [p];
    }

    /**
     * `pull_index`: with index < n, the pointer there is removed and the later ones shift down by
     * one; the array is not shrunk, and the slots from the new n on keep their old contents.
     */
    method PullIndex(index: nat)
      requires Valid()
      modifies this`n, ptr
      ensures Valid() && ptr.Length == old(ptr.Length)
      ensures old(status) != Success || index >= old(n) ==> n == old(n) && ptr[..] == old(ptr[..])
      ensures old(status) == Success && index < old(n) ==>
        n == old(n) - 1 && Contents() == RemoveAt(old(Contents()), index) &&
        ptr[n..] == old(ptr[..])[n..]
    {
      if status != Success {
        return;
      }
      if index < n {
        ghost var s, m := ptr[..], n;
        n := n - 1;
        var i := index;
        while i < n
          invariant index <= i <= n == m - 1 && m <= |s| == ptr.Length
          invariant ptr[..] == s[..index] + s[index + 1..i + 1] + s[i..]
        {
          ShiftStep(s, index, i);
          ptr[i] := ptr[i + 1];
          i := i + 1;
        }
        ShiftDone(s, index, m);
        RemoveAtDistinct(s[..m], index);
      }
    }

    /** `pull_pointer`: find from hint 0, then pull that index; afterwards the pointer is absent. */
    method PullPointer(p: T)
      requires Valid()
      modifies this`n, ptr
      ensures Valid()
      ensures p !in Contents() || old(status) != Success
      ensures old(status) != Success || p !in old(Contents()) ==> n == old(n) && ptr[..] == old(ptr[..])
      ensures old(status) == Success && p in old(Contents()) ==>
        n == old(n) - 1 && multiset(Contents()) == multiset(old(Contents())) - multiset{p} &&
        exists k :: 0 <= k < old(n) && old(Contents())[k] == p && Contents() == RemoveAt(old(Contents()), k)
    {
      if status != Success {
        return;
      }
      var found, idx := Find(p, Some(0));
      if found {
        ghost var s := Contents();
        RemoveAtDistinct(s, idx.value);
        PullIndex(idx.value);
      }
    }

    /** `clear`: the pointers are dropped and the array released; the tracker stays initialised. */
    method Clear()
      requires Valid()
      modifies this
      ensures Valid() && status == old(status)
      ensures old(status) != Success ==> unchanged(this)
      ensures old(status) == Success ==> fresh(ptr) && n == 0 && nAlloc == 0 && ptr.Length == 0 && Contents() == []
    {
      if status != Success {
        return;
      }
      ptr := new T[0];
      n, nAlloc := 0, 0;
    }

    /** `init`: an empty tracker with room for k pointers; SUCCESS unless a nonzero allocation fails. */
    method Init(k: Word, mallocOk: bool)
      modifies this
      ensures Valid() && n == 0 && nAlloc == k && Contents() == [] && fresh(ptr)
      ensures status == if k == 0 || mallocOk then Success else Failure
      ensures status == Success ==> ptr.Length == k
    {
      n, nAlloc := 0, k;
      if k > 0 && mallocOk {
        ptr := new T[k];
      } else {
        ptr := new T[0];
      }
      status := if k == 0 || mallocOk then Success else Failure;
    }

    /** `reset`: the tracker becomes uninitialised, so every handler but init is a no-op until init is called again. */
    method Reset()
      requires Valid()
      modifies this`status
      ensures Valid() && status == NotInit
    {
      status := NotInit;
    }
  }
}
