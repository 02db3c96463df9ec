/**
 * The slot array of the open-addressing dictionary: slot states, the linear probe that
 * `_find_slot` performs, the invariants the dictionary keeps over its slots, and the
 * abstract contents (a map from stored hash to entry) that the slots represent.
 */
module Slots {
  import opened Machine
  import opened Hashing

  datatype State = Unused | Deleted | Occupied

  /** The value of each state in the C enum (_UNUSED = 0, _DELETED = 1, _OCCUPIED = 2), which the probe compares. */
  function Rank(st: State): nat
  {
    match st
    case Unused => 0
    case Deleted => 1
    case Occupied => 2
  }

  datatype Slot = Slot(hash: Word, value: I64, group: Group, state: State)

  /** A slot of all-zero bytes, as calloc and memset leave it. */
  const ZERO: Slot := Slot(0, 0, 0, Unused)

  /** The probe stops at a slot no more occupied than the cut-off, or at one carrying the hash. */
  predicate Stops(slot: Slot, h: Word, cutOff: State)
  {
    Rank(slot.state) <= Rank(cutOff) || slot.hash == h
  }

  /** The index k steps after `start`, wrapping to 0 past the last slot. */
  function Idx(start: nat, k: nat, len: nat): (i: nat)
    requires start < len && k < len
    ensures i < len
  {
    if start + k < len then start + k else start + k - len
  }

  /** How many steps after `start` the probe reaches index p: the inverse of Idx. */
  function Off(start: nat, p: nat, len: nat): (k: nat)
    requires start < len && p < len
    ensures k < len && Idx(start, k, len) == p
  {
    if p >= start then p - start else p + len - start
  }

  /** The probe from step k on: the index of the first slot it stops at, None after a full cycle. */
  function ProbeFrom(s: seq<Slot>, h: Word, cutOff: State, k: nat): (r: Option<nat>)
    requires 0 < |s| && k <= |s|
    ensures r.Some? ==> r.value < |s| && Stops(s[r.value], h, cutOff)
    decreases |s| - k
  {
    if k == |s| then None
    else
      var i := Idx(h % |s|, k, |s|);
      if Stops(s[i], h, cutOff) then Some(i) else ProbeFrom(s, h, cutOff, k + 1)
  }

  /** What `_find_slot(dict, h, cutOff)` returns: the probe from `h % n_alloc`. */
  function Probe(s: seq<Slot>, h: Word, cutOff: State): (r: Option<nat>)
    requires 0 < |s|
    ensures r.Some? ==> r.value < |s| && Stops(s[r.value], h, cutOff)
  {
    ProbeFrom(s, h, cutOff, 0)
  }

  /** Every slot the probe for h visits before it reaches index p lets it go on. */
  ghost predicate PassesTo(s: seq<Slot>, h: Word, cutOff: State, p: nat)
    requires p < |s|
  {
    forall k :: 0 <= k < Off(h % |s|, p, |s|) ==> !Stops(s[Idx(h % |s|, k, |s|)], h, cutOff)
  }

  lemma {:induction false} ProbeFromFacts(s: seq<Slot>, h: Word, cutOff: State, k: nat)
    requires 0 < |s| && k <= |s|
    ensures ProbeFrom(s, h, cutOff, k).None? ==>
      forall j :: k <= j < |s| ==> !Stops(s[Idx(h % |s|, j, |s|)], h, cutOff)
    ensures ProbeFrom(s, h, cutOff, k).Some? ==>
      var q := ProbeFrom(s, h, cutOff, k).value;
      q < |s| && k <= Off(h % |s|, q, |s|) && Stops(s[q], h, cutOff) &&
      forall j :: k <= j < Off(h % |s|, q, |s|) ==> !Stops(s[Idx(h % |s|, j, |s|)], h, cutOff)
    decreases |s| - k
  {
    if k < |s| {
      ProbeFromFacts(s, h, cutOff, k + 1);
    }
  }

  /** The probe returns p exactly when p is a stopping slot and every slot before it lets the probe pass. */
  lemma ProbeIff(s: seq<Slot>, h: Word, cutOff: State, p: nat)
    requires 0 < |s|
    ensures Probe(s, h, cutOff) == Some(p) <==> p < |s| && Stops(s[p], h, cutOff) && PassesTo(s, h, cutOff, p)
  {
    ProbeFromFacts(s, h, cutOff, 0);
    var st := h % |s|;
    if p < |s| && Stops(s[p], h, cutOff) && PassesTo(s, h, cutOff, p) {
      var kp := Off(st, p, |s|);
      assert Probe(s, h, cutOff).Some? by {
        assert s[Idx(st, kp, |s|)] == s[p];
      }
      var q := Probe(s, h, cutOff).value;
      var kq := Off(st, q, |s|);
      assert kq >= kp by {
        assert s[Idx(st, kq, |s|)] == s[q];
      }
      assert kp >= kq;
    }
  }

  /** The probe finds nothing exactly when no slot stops it. */
  lemma ProbeNoneIff(s: seq<Slot>, h: Word, cutOff: State)
    requires 0 < |s|
    ensures Probe(s, h, cutOff).None? <==> forall p :: 0 <= p < |s| ==> !Stops(s[p], h, cutOff)
  {
    ProbeFromFacts(s, h, cutOff, 0);
    var st := h % |s|;
    if Probe(s, h, cutOff).None? {
      forall p | 0 <= p < |s| ensures !Stops(s[p], h, cutOff) {
        assert s[Idx(st, Off(st, p, |s|), |s|)] == s[p];
      }
    }
  }

  // ---------------------------------------------------------------------------------------------
  // Invariants over the slot array

  /** Every Occupied slot is where `_find_slot(hash, _UNUSED)` stops: no Unused slot and no slot with its hash comes first. */
  ghost predicate Reachable(s: seq<Slot>)
  {
    forall p :: 0 <= p < |s| && s[p].state == Occupied ==> PassesTo(s, s[p].hash, Unused, p)
  }

  /** No two Occupied slots carry the same hash. */
  ghost predicate UniqueHashes(s: seq<Slot>)
  {
    forall p, q ::
      0 <= p < |s| && 0 <= q < |s| && s[p].state == Occupied && s[q].state == Occupied && s[p].hash == s[q].hash
      ==> p == q
  }

  /** The indices of the Occupied slots; the dictionary's `n` is their number. */
  ghost function OccIdx(s: seq<Slot>): set<nat>
  {
    set p: nat | p < |s| && s[p].state == Occupied
  }

  /** The Occupied slot records themselves. */
  ghost function OccSlots(s: seq<Slot>): set<Slot>
  {
    set p | 0 <= p < |s| && s[p].state == Occupied :: s[p]
  }

  ghost predicate NoTombstones(s: seq<Slot>)
  {
    forall p :: 0 <= p < |s| ==> s[p].state != Deleted
  }

  /** What a key maps to: its group tag and stored value. */
  datatype Entry = Entry(group: Group, value: I64)

  ghost predicate HashKeyed(S: set<Slot>)
  {
    forall e1, e2 :: e1 in S && e2 in S && e1.hash == e2.hash ==> e1 == e2
  }

  ghost function EntriesOf(S: set<Slot>): map<Word, Entry>
    requires HashKeyed(S)
  {
    map e | e in S :: e.hash := Entry(e.group, e.value)
  }

  lemma UniqueKeyed(s: seq<Slot>)
    requires UniqueHashes(s)
    ensures HashKeyed(OccSlots(s))
  {
  }

  /** The dictionary's contents: each Occupied slot's hash mapped to its group and value. */
  ghost function ViewOf(s: seq<Slot>): map<Word, Entry>
    requires UniqueHashes(s)
  {
    UniqueKeyed(s);
    EntriesOf(OccSlots(s))
  }

  // ---------------------------------------------------------------------------------------------
  // The invariants and what they give

  /** The central invariant restated: every Occupied slot is the first slot `_find_slot(hash, _UNUSED)` reaches. */
  lemma ReachProbe(s: seq<Slot>, p: nat)
    requires Reachable(s) && p < |s| && s[p].state == Occupied
    ensures Probe(s, s[p].hash, Unused) == Some(p)
  {
    ProbeIff(s, s[p].hash, Unused, p);
  }

  /**
   * Reachability rules out two Occupied slots with one hash: the later one would be behind the
   * earlier. The lemma documents that `UniqueHashes` follows from `Reachable`. `Valid()` still
   * names both, so the proofs about each operation can keep them apart.
   */
  lemma ReachUnique(s: seq<Slot>)
    requires Reachable(s)
    ensures UniqueHashes(s)
  {
    forall p, q | 0 <= p < |s| && 0 <= q < |s| && s[p].state == Occupied && s[q].state == Occupied &&
      s[p].hash == s[q].hash
      ensures p == q
    {
      ReachProbe(s, p);
      ReachProbe(s, q);
    }
  }

  /**
   * Writing an Occupied slot x at index u keeps every Occupied slot reachable, when the probe for
   * x's hash passes every slot before u and no other Occupied slot carries that hash.
   */
  lemma StampKeepsReach(s: seq<Slot>, u: nat, x: Slot)
    requires Reachable(s) && u < |s| && x.state == Occupied
    requires PassesTo(s, x.hash, Unused, u)
    requires forall q :: 0 <= q < |s| && q != u && s[q].state == Occupied ==> s[q].hash != x.hash
    ensures Reachable(s[u := x])
  {
    var t := s[u := x];
    forall p | 0 <= p < |t| && t[p].state == Occupied
      ensures PassesTo(t, t[p].hash, Unused, p)
    {
      var h := t[p].hash;
      var st := h % |s|;
      forall k | 0 <= k < Off(st, p, |s|)
        ensures !Stops(t[Idx(st, k, |s|)], h, Unused)
      {
        var i := Idx(st, k, |s|);
        if p == u {
          assert Off(st, i, |s|) == k;
          assert t[i] == s[i];
        } else if i == u {
          assert !Stops(s[u], h, Unused);
        }
      }
    }
  }

  /** Turning an Occupied slot into a tombstone keeps every other Occupied slot reachable. */
  lemma DemoteKeepsReach(s: seq<Slot>, p: nat)
    requires Reachable(s) && p < |s| && s[p].state == Occupied
    ensures Reachable(s[p := s[p].(state := Deleted)])
  {
    var t := s[p := s[p].(state := Deleted)];
    forall q | 0 <= q < |t| && t[q].state == Occupied
      ensures PassesTo(t, t[q].hash, Unused, q)
    {
      var h := t[q].hash;
      var st := h % |s|;
      forall k | 0 <= k < Off(st, q, |s|)
        ensures !Stops(t[Idx(st, k, |s|)], h, Unused)
      {
        assert !Stops(s[Idx(st, k, |s|)], h, Unused);
      }
    }
  }

  /** A table with fewer Occupied slots than slots has a slot that is not Occupied. */
  lemma FreeSlotExists(s: seq<Slot>) returns (w: nat)
    requires |OccIdx(s)| < |s|
    ensures w < |s| && s[w].state != Occupied
  {
    RangeSize(|s|);
    assert OccIdx(s) != Range(|s|);
    assert OccIdx(s) <= Range(|s|);
    assert Range(|s|) - OccIdx(s) != {};
    w :| w in Range(|s|) - OccIdx(s);
  }

  /** The indices 0 .. len - 1. */
  ghost function Range(len: nat): set<nat>
  {
    if len == 0 then {} else Range(len - 1) + {len - 1}
  }

  lemma {:induction false} RangeSize(len: nat)
    ensures |Range(len)| == len
    ensures forall i :: i in Range(len) <==> 0 <= i < len
  {
    if len > 0 {
      RangeSize(len - 1);
    }
  }

  /** At most |s| slots are Occupied. */
  lemma OccIdxBound(s: seq<Slot>)
    ensures |OccIdx(s)| <= |s|
  {
    RangeSize(|s|);
    assert OccIdx(s) <= Range(|s|);
    SubsetSize(OccIdx(s), Range(|s|));
  }

  lemma {:induction false} SubsetSize(a: set<nat>, b: set<nat>)
    requires a <= b
    ensures |a| <= |b|
    decreases b
  {
    if a != {} {
      var x :| x in a;
      SubsetSize(a - {x}, b - {x});
    }
  }

  // ---------------------------------------------------------------------------------------------
  // The contents the slots represent

  /** An Occupied slot is in the contents under its hash, with its group and value. */
  lemma ViewAt(s: seq<Slot>, p: nat)
    requires UniqueHashes(s) && p < |s| && s[p].state == Occupied
    ensures s[p].hash in ViewOf(s) && ViewOf(s)[s[p].hash] == Entry(s[p].group, s[p].value)
  {
    assert s[p] in OccSlots(s);
  }

  /** A hash in the contents is carried by an Occupied slot. */
  lemma ViewHas(s: seq<Slot>, h: Word) returns (p: nat)
    requires UniqueHashes(s) && h in ViewOf(s)
    ensures p < |s| && s[p].state == Occupied && s[p].hash == h
  {
    var e :| e in OccSlots(s) && e.hash == h;
    p :| 0 <= p < |s| && s[p].state == Occupied && s[p] == e;
  }

  /**
   * What `find` relies on: the probe with cut-off Unused stops at an Occupied slot exactly when
   * the hash is in the contents, and that slot holds its entry.
   */
  lemma ProbeLookup(s: seq<Slot>, h: Word)
    requires 0 < |s| && Reachable(s) && UniqueHashes(s)
    ensures Probe(s, h, Unused).None? ==> h !in ViewOf(s)
    ensures Probe(s, h, Unused).Some? ==>
      var q := Probe(s, h, Unused).value;
      q < |s| && (s[q].state == Occupied <==> h in ViewOf(s)) &&
      (s[q].state == Occupied ==> ViewOf(s)[h] == Entry(s[q].group, s[q].value))
  {
    ProbeFromFacts(s, h, Unused, 0);
    if h in ViewOf(s) {
      var p := ViewHas(s, h);
      ReachProbe(s, p);
      ViewAt(s, p);
    } else if Probe(s, h, Unused).Some? {
      var q := Probe(s, h, Unused).value;
      if s[q].state == Occupied {
        ViewAt(s, q);
      }
    }
  }

  /** The probe `write` makes (cut-off Deleted) lands on the existing copy. */
  ghost predicate InPlace(s: seq<Slot>, h: Word)
  {
    0 < |s| && Probe(s, h, Deleted).Some? && Probe(s, h, Deleted).value < |s| &&
    s[Probe(s, h, Deleted).value].state == Occupied
  }

  /**
   * The insertion probe of `write` on a table with a free slot: it finds a slot u; every slot before
   * u is Occupied with another hash; u is either the copy of h or not Occupied; and a slot that is
   * Unused there means h is absent.
   */
  lemma ProbeInsert(s: seq<Slot>, h: Word) returns (u: nat)
    requires Reachable(s) && UniqueHashes(s) && |OccIdx(s)| < |s|
    ensures Probe(s, h, Deleted) == Some(u) && u < |s|
    ensures PassesTo(s, h, Deleted, u) && PassesTo(s, h, Unused, u)
    ensures s[u].state == Occupied ==> s[u].hash == h
    ensures s[u].state == Unused ==> h !in ViewOf(s)
    ensures InPlace(s, h) ==> h in ViewOf(s)
  {
    var w := FreeSlotExists(s);
    ProbeNoneIff(s, h, Deleted);
    assert Stops(s[w], h, Deleted);
    u := Probe(s, h, Deleted).value;
    ProbeIff(s, h, Deleted, u);
    var st := h % |s|;
    forall k | 0 <= k < Off(st, u, |s|) ensures !Stops(s[Idx(st, k, |s|)], h, Unused) {
      assert !Stops(s[Idx(st, k, |s|)], h, Deleted);
    }
    if s[u].state == Occupied {
      ViewAt(s, u);
    }
    if h in ViewOf(s) {
      // the copy of h is not before u (it would stop the probe) and u is not Unused (it is on the copy's path, or is the copy)
      var q := ViewHas(s, h);
      var kq, ku := Off(st, q, |s|), Off(st, u, |s|);
      assert s[Idx(st, kq, |s|)] == s[q];
      assert s[Idx(st, ku, |s|)] == s[u];
    }
  }

  /** Without tombstones the insertion probe lands on the existing copy exactly when the hash is present. */
  lemma NoTombstonesInPlace(s: seq<Slot>, h: Word)
    requires Reachable(s) && UniqueHashes(s) && |OccIdx(s)| < |s| && NoTombstones(s)
    ensures InPlace(s, h) <==> h in ViewOf(s)
  {
    var u := ProbeInsert(s, h);
  }

  // ---------------------------------------------------------------------------------------------
  // How single-slot updates change the count and the contents

  /** Writing x at u under the same conditions: hashes stay unique and u joins the Occupied indices. */
  lemma StampIdx(s: seq<Slot>, u: nat, x: Slot)
    requires UniqueHashes(s) && u < |s| && x.state == Occupied
    requires forall q :: 0 <= q < |s| && q != u && s[q].state == Occupied ==> s[q].hash != x.hash
    ensures UniqueHashes(s[u := x])
    ensures OccIdx(s[u := x]) == OccIdx(s) + {u}
  {
    var t := s[u := x];
    assert OccIdx(t) == OccIdx(s) + {u};
  }

  /**
   * Writing an Occupied slot x at u, where u held x's key or no entry and no other slot holds
   * x's hash: one more Occupied index (unless u was already Occupied) and x's entry under its hash.
   */
  lemma StampView(s: seq<Slot>, u: nat, x: Slot)
    requires UniqueHashes(s) && u < |s| && x.state == Occupied
    requires s[u].state == Occupied ==> s[u].hash == x.hash
    requires forall q :: 0 <= q < |s| && q != u && s[q].state == Occupied ==> s[q].hash != x.hash
    ensures UniqueHashes(s[u := x])
    ensures OccIdx(s[u := x]) == OccIdx(s) + {u}
    ensures ViewOf(s[u := x]) == ViewOf(s)[x.hash := Entry(x.group, x.value)]
  {
    StampIdx(s, u, x);
    StampViewOld(s, u, x, ViewOf(s), ViewOf(s[u := x]));
    StampViewNew(s, u, x, ViewOf(s), ViewOf(s[u := x]));
    assert ViewOf(s[u := x]) == ViewOf(s)[x.hash := Entry(x.group, x.value)];
  }

  /** After the stamp, every key of the contents is x's or an unchanged old key. */
  lemma StampViewNew(s: seq<Slot>, u: nat, x: Slot, m: map<Word, Entry>, m': map<Word, Entry>)
    requires UniqueHashes(s) && u < |s| && x.state == Occupied && UniqueHashes(s[u := x])
    requires m == ViewOf(s) && m' == ViewOf(s[u := x])
    ensures forall k :: k in m' ==>
      k in m[x.hash := Entry(x.group, x.value)] && m'[k] == m[x.hash := Entry(x.group, x.value)][k]
  {
    var t := s[u := x];
    ViewAt(t, u);
    forall k | k in m'
      ensures k in m[x.hash := Entry(x.group, x.value)] && m'[k] == m[x.hash := Entry(x.group, x.value)][k]
    {
      var p := ViewHas(t, k);
      ViewAt(t, p);
      if p != u {
        ViewAt(s, p);
      }
    }
  }

  /** After the stamp, x's key and every old key other than x's are in the contents. */
  lemma StampViewOld(s: seq<Slot>, u: nat, x: Slot, m: map<Word, Entry>, m': map<Word, Entry>)
    requires UniqueHashes(s) && u < |s| && x.state == Occupied && UniqueHashes(s[u := x])
    requires s[u].state == Occupied ==> s[u].hash == x.hash
    requires m == ViewOf(s) && m' == ViewOf(s[u := x])
    ensures x.hash in m'
    ensures forall k :: k in m && k != x.hash ==> k in m'
  {
    var t := s[u := x];
    ViewAt(t, u);
    forall k | k in m && k != x.hash
      ensures k in m'
    {
      var p := ViewHas(s, k);
      assert p != u;
      ViewAt(t, p);
    }
  }

  /** Turning the Occupied slot p into a tombstone: one Occupied index less and its hash gone from the contents. */
  lemma DemoteView(s: seq<Slot>, p: nat)
    requires UniqueHashes(s) && p < |s| && s[p].state == Occupied
    ensures UniqueHashes(s[p := s[p].(state := Deleted)])
    ensures OccIdx(s[p := s[p].(state := Deleted)]) == OccIdx(s) - {p}
    ensures ViewOf(s[p := s[p].(state := Deleted)]) == ViewOf(s) - {s[p].hash}
  {
    var t := s[p := s[p].(state := Deleted)];
    assert OccIdx(t) == OccIdx(s) - {p};
    var m, m' := ViewOf(s), ViewOf(t);
    var r := m - {s[p].hash};
    forall k | k in m'
      ensures k in r && m'[k] == r[k]
    {
      var q := ViewHas(t, k);
      ViewAt(t, q);
      ViewAt(s, q);
    }
    forall k | k in r
      ensures k in m'
    {
      var q := ViewHas(s, k);
      ViewAt(t, q);
    }
    assert m' == r;
  }

  /** A hash carried by no Occupied slot is not in the contents. */
  lemma NotInView(s: seq<Slot>, h: Word)
    requires UniqueHashes(s)
    requires forall p :: 0 <= p < |s| && s[p].state == Occupied ==> s[p].hash != h
    ensures h !in ViewOf(s)
  {
  }

  /** A hash not in the contents is carried by no Occupied slot. */
  lemma AbsentNoSlot(s: seq<Slot>, h: Word)
    requires UniqueHashes(s) && h !in ViewOf(s)
    ensures forall p :: 0 <= p < |s| && s[p].state == Occupied ==> s[p].hash != h
  {
    forall p | 0 <= p < |s| && s[p].state == Occupied
      ensures s[p].hash != h
    {
      ViewAt(s, p);
    }
  }

  /** In a table without tombstones and with a free slot, the probe for an absent hash ends on an Unused slot. */
  lemma ProbeFresh(s: seq<Slot>, h: Word) returns (u: nat)
    requires Reachable(s) && UniqueHashes(s) && NoTombstones(s) && |OccIdx(s)| < |s| && h !in ViewOf(s)
    ensures Probe(s, h, Unused) == Some(u) && u < |s| && s[u].state == Unused
    ensures PassesTo(s, h, Unused, u)
  {
    u := ProbeInsert(s, h);
    AbsentNoSlot(s, h);
    ProbeIff(s, h, Unused, u);
  }

  /** A tombstone made at a slot the probe for h would stop at does not close the path to u. */
  lemma PassesAfterDemote(s: seq<Slot>, h: Word, u: nat, p: nat)
    requires u < |s| && p < |s| && PassesTo(s, h, Deleted, u) && Stops(s[p], h, Deleted)
    ensures PassesTo(s[p := s[p].(state := Deleted)], h, Unused, u)
  {
    var t := s[p := s[p].(state := Deleted)];
    var st := h % |s|;
    forall k | 0 <= k < Off(st, u, |s|)
      ensures !Stops(t[Idx(st, k, |s|)], h, Unused)
    {
      assert !Stops(s[Idx(st, k, |s|)], h, Deleted);
    }
  }

  /** Appending one slot: what it adds to the count and the contents. */
  lemma SnocView(s: seq<Slot>, x: Slot)
    requires UniqueHashes(s + [x])
    ensures UniqueHashes(s)
    ensures OccIdx(s + [x]) == if x.state == Occupied then OccIdx(s) + {|s|} else OccIdx(s)
    ensures x.state == Occupied ==> x.hash !in ViewOf(s)
    ensures ViewOf(s + [x]) == if x.state == Occupied then ViewOf(s)[x.hash := Entry(x.group, x.value)] else ViewOf(s)
  {
    var t := s + [x];
    assert forall p :: 0 <= p < |s| ==> t[p] == s[p];
    assert t[|s|] == x;
    assert OccSlots(t) == if x.state == Occupied then OccSlots(s) + {x} else OccSlots(s);
    if x.state == Occupied {
      NotInView(s, x.hash);
    }
  }

  /** The count of Occupied slots is the number of keys in the contents. */
  lemma {:induction false} CountIsSize(s: seq<Slot>)
    requires UniqueHashes(s)
    ensures |OccIdx(s)| == |ViewOf(s)|
    decreases |s|
  {
    if s != [] {
      var init, x := s[..|s| - 1], s[|s| - 1];
      assert s == init + [x];
      SnocView(init, x);
      CountIsSize(init);
      if x.state == Occupied {
        assert |init| !in OccIdx(init);
        assert |OccIdx(s)| == |OccIdx(init)| + 1;
        assert |ViewOf(s)| == |ViewOf(init)| + 1;
      }
    }
  }
}
