/**
 * What each dictionary operation does to the slot array, as functions on sequences, and the
 * lemmas that say what that means for the invariants, the count and the contents. The methods of
 * the Dictionary class are proved to produce exactly these sequences.
 */
module Operations {
  import opened Machine
  import opened Hashing
  import opened Slots

  // ---------------------------------------------------------------------------------------------
  // clear

  /** `memset(slots, 0, ...)`: every slot all-zero bytes. */
  ghost function Cleared(len: nat): seq<Slot>
  {
    seq(len, _ => ZERO)
  }

  lemma ClearedEmpty(len: nat)
    ensures Reachable(Cleared(len)) && UniqueHashes(Cleared(len)) && NoTombstones(Cleared(len))
    ensures OccIdx(Cleared(len)) == {} && ViewOf(Cleared(len)) == map[]
  {
  }

  /** With a count of zero no slot is Occupied, so the early returns on `n == 0` change nothing the loops would have. */
  lemma NoneOccupied(s: seq<Slot>, g: Group, h: Word)
    requires |OccIdx(s)| == 0
    ensures forall p :: 0 <= p < |s| ==> s[p].state != Occupied
    ensures DemoteGroup(s, g) == s && Erased(s, h) == s
  {
    assert forall p :: 0 <= p < |s| && s[p].state == Occupied ==> p in OccIdx(s);
  }

  // ---------------------------------------------------------------------------------------------
  // clear_group

  /** One step of `clear_group`: an Occupied slot of group g becomes a tombstone. */
  function DemoteIf(x: Slot, g: Group): Slot
  {
    if x.state == Occupied && x.group == g then x.(state := Deleted) else x
  }

  ghost function DemoteGroup(s: seq<Slot>, g: Group): seq<Slot>
  {
    seq(|s|, i requires 0 <= i < |s| => DemoteIf(s[i], g))
  }

  /** The entries whose group is not g. */
  ghost function WithoutGroup(m: map<Word, Entry>, g: Group): map<Word, Entry>
  {
    map h | h in m && m[h].group != g :: m[h]
  }

  /** Clearing a group keeps every remaining Occupied slot reachable. */
  lemma DemoteGroupReach(s: seq<Slot>, g: Group)
    requires Reachable(s)
    ensures Reachable(DemoteGroup(s, g))
  {
    var t := DemoteGroup(s, g);
    forall q | 0 <= q < |t| && t[q].state == Occupied
      ensures PassesTo(t, t[q].hash, Unused, q)
    {
      var h := t[q].hash;
      var st := h % |s|;
      forall k | 0 <= k < Off(st, q, |s|)
        ensures !Stops(t[Idx(st, k, |s|)], h, Unused)
      {
        assert !Stops(s[Idx(st, k, |s|)], h, Unused);
      }
    }
  }

  /** Clearing a group removes exactly the keys of that group from the contents. */
  lemma DemoteGroupView(s: seq<Slot>, g: Group)
    requires UniqueHashes(s)
    ensures UniqueHashes(DemoteGroup(s, g))
    ensures ViewOf(DemoteGroup(s, g)) == WithoutGroup(ViewOf(s), g)
  {
    var t := DemoteGroup(s, g);
    assert UniqueHashes(t) by {
      forall p, q | 0 <= p < |t| && 0 <= q < |t| && t[p].state == Occupied && t[q].state == Occupied && t[p].hash == t[q].hash
        ensures p == q
      {
        assert s[p].state == Occupied && s[q].state == Occupied;
      }
    }
    var m, m' := ViewOf(s), ViewOf(t);
    forall k | k in m'
      ensures k in m && m[k].group != g && m'[k] == m[k]
    {
      var p := ViewHas(t, k);
      ViewAt(t, p);
      ViewAt(s, p);
    }
    forall k | k in m && m[k].group != g
      ensures k in m'
    {
      var p := ViewHas(s, k);
      ViewAt(s, p);
      ViewAt(t, p);
    }
    assert m' == WithoutGroup(m, g);
  }

  /**
   * Clearing a group keeps every remaining slot reachable and removes exactly the keys of that
   * group from the contents; no slot of another group changes.
   */
  lemma DemoteGroupFacts(s: seq<Slot>, g: Group)
    requires Reachable(s) && UniqueHashes(s)
    ensures Reachable(DemoteGroup(s, g)) && UniqueHashes(DemoteGroup(s, g))
    ensures ViewOf(DemoteGroup(s, g)) == WithoutGroup(ViewOf(s), g)
    ensures forall h :: h in ViewOf(DemoteGroup(s, g)) ==> ViewOf(DemoteGroup(s, g))[h].group != g
  {
    DemoteGroupReach(s, g);
    DemoteGroupView(s, g);
  }

  /** The state inside the `clear_group` loop: the first i slots have the group demoted. */
  ghost function DemoteGroupUpTo(s: seq<Slot>, g: Group, i: nat): (t: seq<Slot>)
    ensures |t| == |s|
  {
    seq(|s|, j requires 0 <= j < |s| => if j < i then DemoteIf(s[j], g) else s[j])
  }

  /**
   * One iteration of the `clear_group` loop: it changes slot i only, and lowers the count of
   * Occupied slots by one exactly when slot i is demoted.
   */
  lemma DemoteGroupStep(s: seq<Slot>, g: Group, i: nat)
    requires UniqueHashes(s) && i < |s|
    ensures var t := DemoteGroupUpTo(s, g, i);
      UniqueHashes(t) && t[i] == s[i] &&
      DemoteGroupUpTo(s, g, i + 1) == t[i := DemoteIf(s[i], g)] &&
      |OccIdx(DemoteGroupUpTo(s, g, i + 1))| ==
        |OccIdx(t)| - (if s[i].state == Occupied && s[i].group == g then 1 else 0)
  {
    var t := DemoteGroupUpTo(s, g, i);
    assert UniqueHashes(t) by {
      forall p, q | 0 <= p < |t| && 0 <= q < |t| && t[p].state == Occupied && t[q].state == Occupied && t[p].hash == t[q].hash
        ensures p == q
      {
        assert s[p].state == Occupied && s[q].state == Occupied;
      }
    }
    assert DemoteGroupUpTo(s, g, i + 1) == t[i := DemoteIf(s[i], g)];
    if s[i].state == Occupied && s[i].group == g {
      DemoteView(t, i);
    } else {
      assert DemoteGroupUpTo(s, g, i + 1) == t;
    }
  }

  /** The loop starts from the old slots and ends with the whole group demoted. */
  lemma DemoteGroupEnds(s: seq<Slot>, g: Group)
    ensures DemoteGroupUpTo(s, g, 0) == s
    ensures DemoteGroupUpTo(s, g, |s|) == DemoteGroup(s, g)
  {
  }

  // ---------------------------------------------------------------------------------------------
  // erase

  /** `erase`: the slot the Unused-cut-off probe reaches becomes a tombstone if it is Occupied. */
  ghost function Erased(s: seq<Slot>, h: Word): seq<Slot>
  {
    if |s| == 0 then s
    else
      match Probe(s, h, Unused)
      case None => s
      case Some(p) => if s[p].state == Occupied then s[p := s[p].(state := Deleted)] else s
  }

  /** Erasing removes the key from the contents, and only it; the count drops by one exactly when it was present. */
  lemma ErasedFacts(s: seq<Slot>, h: Word)
    requires Reachable(s) && UniqueHashes(s)
    ensures Reachable(Erased(s, h)) && UniqueHashes(Erased(s, h))
    ensures ViewOf(Erased(s, h)) == ViewOf(s) - {h}
    ensures |OccIdx(Erased(s, h))| == |OccIdx(s)| - (if h in ViewOf(s) then 1 else 0)
  {
    if |s| == 0 {
      assert ViewOf(s) == map[];
    } else {
      ProbeLookup(s, h);
      match Probe(s, h, Unused)
      case None =>
      case Some(p) =>
        if s[p].state == Occupied {
          DemoteKeepsReach(s, p);
          DemoteView(s, p);
        }
    }
  }

  // ---------------------------------------------------------------------------------------------
  // _resize

  /** `*_find_slot(dict, x.hash, _UNUSED) = x`, on the new array. */
  ghost function Insert(t: seq<Slot>, x: Slot): seq<Slot>
    requires 0 < |t|
  {
    match Probe(t, x.hash, Unused)
    case None => t
    case Some(u) => t[u := x]
  }

  /** The new array of `_resize` after the first i old slots are moved: a zeroed array of n slots, each Occupied old slot inserted in order. */
  ghost function Rebuild(prev: seq<Slot>, n: nat, i: nat): (t: seq<Slot>)
    requires 0 < n && i <= |prev|
    ensures |t| == n
  {
    if i == 0 then Cleared(n)
    else
      var t := Rebuild(prev, n, i - 1);
      if prev[i - 1].state == Occupied then Insert(t, prev[i - 1]) else t
  }

  /** One move of `_resize`: an absent key goes into an Unused slot of the tombstone-free new array. */
  lemma InsertFacts(t: seq<Slot>, x: Slot)
    requires Reachable(t) && UniqueHashes(t) && NoTombstones(t) && |OccIdx(t)| < |t|
    requires x.state == Occupied && x.hash !in ViewOf(t)
    ensures Reachable(Insert(t, x)) && UniqueHashes(Insert(t, x)) && NoTombstones(Insert(t, x))
    ensures ViewOf(Insert(t, x)) == ViewOf(t)[x.hash := Entry(x.group, x.value)]
    ensures |OccIdx(Insert(t, x))| == |OccIdx(t)| + 1
  {
    var u := ProbeFresh(t, x.hash);
    assert Insert(t, x) == t[u := x];
    AbsentNoSlot(t, x.hash);
    StampKeepsReach(t, u, x);
    StampView(t, u, x);
  }

  /**
   * Moving into a larger array: the old Occupied slots land in a tombstone-free array that keeps
   * the invariants and holds the same contents and the same count; tombstones are not carried over.
   */
  lemma {:induction false} RebuildFacts(prev: seq<Slot>, n: nat, i: nat)
    requires UniqueHashes(prev) && i <= |prev| < n
    ensures UniqueHashes(prev[..i])
    ensures Reachable(Rebuild(prev, n, i)) && UniqueHashes(Rebuild(prev, n, i)) && NoTombstones(Rebuild(prev, n, i))
    ensures ViewOf(Rebuild(prev, n, i)) == ViewOf(prev[..i])
    ensures |OccIdx(Rebuild(prev, n, i))| == |OccIdx(prev[..i])|
  {
    if i == 0 {
      ClearedEmpty(n);
      assert prev[..0] == [];
    } else {
      var x := prev[i - 1];
      assert prev[..i] == prev[..i - 1] + [x];
      assert UniqueHashes(prev[..i]) by {
        forall p | 0 <= p < i ensures prev[..i][p] == prev[p] { }
      }
      RebuildFacts(prev, n, i - 1);
      MoveStep(Rebuild(prev, n, i - 1), prev[..i - 1], x);
    }
  }

  /**
   * One iteration of the move loop: if the new array t holds what the old slots `done` held,
   * then after moving x (when Occupied) it holds what `done + [x]` held.
   */
  lemma MoveStep(t: seq<Slot>, done: seq<Slot>, x: Slot)
    requires UniqueHashes(done + [x]) && |done| + 1 < |t|
    requires UniqueHashes(done) && Reachable(t) && UniqueHashes(t) && NoTombstones(t)
    requires ViewOf(t) == ViewOf(done) && |OccIdx(t)| == |OccIdx(done)|
    ensures var t' := if x.state == Occupied then Insert(t, x) else t;
      Reachable(t') && UniqueHashes(t') && NoTombstones(t') &&
      ViewOf(t') == ViewOf(done + [x]) && |OccIdx(t')| == |OccIdx(done + [x])|
  {
    SnocView(done, x);
    if x.state == Occupied {
      OccIdxBound(done);
      InsertFacts(t, x);
      assert |done| !in OccIdx(done);
    }
  }

  /** Each move finds its slot: the dereference of `_find_slot`'s result in `_resize` never meets NULL. */
  lemma MoveFindsSlot(prev: seq<Slot>, n: nat, i: nat)
    requires UniqueHashes(prev) && i < |prev| < n && prev[i].state == Occupied
    ensures Probe(Rebuild(prev, n, i), prev[i].hash, Unused).Some?
  {
    RebuildFacts(prev, n, i + 1);
    RebuildFacts(prev, n, i);
    assert prev[..i + 1] == prev[..i] + [prev[i]];
    SnocView(prev[..i], prev[i]);
    OccIdxBound(prev[..i]);
    var u := ProbeFresh(Rebuild(prev, n, i), prev[i].hash);
  }

  /** The whole move: the grown array holds what the old one held. */
  lemma Regrown(prev: seq<Slot>, n: nat)
    requires UniqueHashes(prev) && |prev| < n
    ensures Reachable(Rebuild(prev, n, |prev|)) && UniqueHashes(Rebuild(prev, n, |prev|))
    ensures NoTombstones(Rebuild(prev, n, |prev|))
    ensures ViewOf(Rebuild(prev, n, |prev|)) == ViewOf(prev)
    ensures |OccIdx(Rebuild(prev, n, |prev|))| == |OccIdx(prev)|
  {
    RebuildFacts(prev, n, |prev|);
    assert prev[..|prev|] == prev;
  }

  // ---------------------------------------------------------------------------------------------
  // write (after the growth check)

  /**
   * The placement `write` makes: probe with cut-off Deleted; on an Occupied slot replace the value
   * only; on an Unused slot stamp the new slot; on a tombstone first turn a live copy of the key
   * further on into a tombstone, then stamp the new slot there.
   */
  ghost function Written(s: seq<Slot>, h: Word, g: Group, v: I64): seq<Slot>
  {
    if |s| == 0 then s
    else
      match Probe(s, h, Deleted)
      case None => s
      case Some(u) =>
        match s[u].state
        case Occupied => s[u := s[u].(value := v)]
        case Unused => s[u := Slot(h, v, g, Occupied)]
        case Deleted =>
          var t :=
            match Probe(s, h, Unused)
            case Some(p) => if s[p].state == Occupied then s[p := s[p].(state := Deleted)] else s
            case None => s;
          t[u := Slot(h, v, g, Occupied)]
  }

  /** The placement landing on the live copy of the key: only its value changes. */
  lemma OverwriteFacts(s: seq<Slot>, u: nat, v: I64)
    requires Reachable(s) && UniqueHashes(s) && u < |s| && s[u].state == Occupied
    ensures Reachable(s[u := s[u].(value := v)]) && UniqueHashes(s[u := s[u].(value := v)])
    ensures ViewOf(s[u := s[u].(value := v)]) == ViewOf(s)[s[u].hash := Entry(s[u].group, v)]
    ensures OccIdx(s[u := s[u].(value := v)]) == OccIdx(s)
  {
    var y := s[u].(value := v);
    ReachProbe(s, u);
    ProbeIff(s, s[u].hash, Unused, u);
    StampKeepsReach(s, u, y);
    StampView(s, u, y);
  }

  /** The placement stamping a new slot for an absent key at a slot on its Unused-probe path. */
  lemma StampFacts(s: seq<Slot>, u: nat, x: Slot)
    requires Reachable(s) && UniqueHashes(s) && u < |s| && s[u].state != Occupied
    requires x.state == Occupied && x.hash !in ViewOf(s) && PassesTo(s, x.hash, Unused, u)
    ensures Reachable(s[u := x]) && UniqueHashes(s[u := x])
    ensures ViewOf(s[u := x]) == ViewOf(s)[x.hash := Entry(x.group, x.value)]
    ensures |OccIdx(s[u := x])| == |OccIdx(s)| + 1
  {
    AbsentNoSlot(s, x.hash);
    StampKeepsReach(s, u, x);
    StampView(s, u, x);
  }

  /** The placement landing on a tombstone while a live copy of the key sits further on. */
  lemma ReplaceFacts(s: seq<Slot>, h: Word, u: nat, x: Slot)
    requires Reachable(s) && UniqueHashes(s) && u < |s| && s[u].state == Deleted
    requires x.state == Occupied && x.hash == h && h in ViewOf(s) && PassesTo(s, h, Deleted, u)
    ensures Probe(s, h, Unused).Some? && s[Probe(s, h, Unused).value].state == Occupied
    ensures var p := Probe(s, h, Unused).value;
      var t := s[p := s[p].(state := Deleted)];
      Reachable(t[u := x]) && UniqueHashes(t[u := x]) &&
      ViewOf(t[u := x]) == ViewOf(s)[h := Entry(x.group, x.value)] &&
      |OccIdx(t[u := x])| == |OccIdx(s)|
  {
    var p := ViewHas(s, h);
    ReachProbe(s, p);
    var t := s[p := s[p].(state := Deleted)];
    DemoteKeepsReach(s, p);
    DemoteView(s, p);
    PassesAfterDemote(s, h, u, p);
    StampFacts(t, u, x);
  }

  /**
   * With a free slot, the placement always finds a slot (the NULL return of `_find_slot` cannot
   * happen), keeps the invariants, maps the key to the new value, keeps the old group only when it
   * overwrites a live slot in place, and adds one to the count exactly when the key was absent.
   */
  lemma WrittenFacts(s: seq<Slot>, h: Word, g: Group, v: I64)
    requires Reachable(s) && UniqueHashes(s) && |OccIdx(s)| < |s|
    ensures Probe(s, h, Deleted).Some?
    ensures Reachable(Written(s, h, g, v)) && UniqueHashes(Written(s, h, g, v))
    ensures ViewOf(Written(s, h, g, v)) ==
      ViewOf(s)[h := Entry(if h in ViewOf(s) && InPlace(s, h) then ViewOf(s)[h].group else g, v)]
    ensures |OccIdx(Written(s, h, g, v))| == |OccIdx(s)| + (if h in ViewOf(s) then 0 else 1)
  {
    var u := ProbeInsert(s, h);
    var x := Slot(h, v, g, Occupied);
    match s[u].state
    case Occupied =>
      ViewAt(s, u);
      OverwriteFacts(s, u, v);
    case Unused =>
      StampFacts(s, u, x);
    case Deleted =>
      if h in ViewOf(s) {
        ReplaceFacts(s, h, u, x);
      } else {
        ProbeLookup(s, h);
        StampFacts(s, u, x);
      }
  }
}
