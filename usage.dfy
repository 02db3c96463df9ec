/**
 * The use of the dictionary shown by examples/dictionary.c, driven through the public methods
 * one after another: each call's contract is what the next one starts from.
 */
module Usage {
  import opened Machine
  import opened Hashing
  import opened Slots
  import opened Dictionaries
  import opened Trackers

  /** Asking for no slots gives no slots, whatever the load bound. */
  lemma NoInitialSlots(maxLoad: real)
    requires 0.0 < maxLoad <= 1.0
    ensures 0.0 <= SIZE_MAX as real * maxLoad
    ensures InitialCapacity(0, maxLoad) == 0
  {
    ProductNonNegative(SIZE_MAX as real, maxLoad);
    assert 0.0 / maxLoad == 0.0;
  }

  /**
   * `create(0, max_load)` followed by two writes under different hashes, every allocation
   * succeeding: the dictionary is live and both keys are stored with their group and value.
   */
  method CreateAndWriteTwo(s: Statics, k1: Option<seq<Byte>>, k2: Option<seq<Byte>>, g: Group, v1: Word, v2: Word,
    maxLoad: real) returns (d: Dictionary)
    requires s.Valid() && 0.0 < maxLoad <= 1.0
    requires Hash(k1, g) != Hash(k2, g)
    ensures fresh(d) && fresh(d.slots) && d.Valid() && !d.failed
    ensures d.View() == map[Hash(k1, g) := Entry(g, ToI64(v1)), Hash(k2, g) := Entry(g, ToI64(v2))]
  {
    d := s.Create(0, maxLoad, true, true);
    NoInitialSlots(maxLoad);
    assert !d.failed && d.nAlloc == 0 && d.n == 0;
    d.Write(k1, g, v1, true);
    assert !d.failed && d.nAlloc == 1 && d.n == 1;
    assert d.View() == map[Hash(k1, g) := Entry(g, ToI64(v1))];
    d.Write(k2, g, v2, true);
  }

  /**
   * `erase` of one of two stored keys, then the count and a find of each: one key is left, the
   * erased one is gone and the other still holds its value.
   */
  method EraseOneOfTwo(d: Dictionary, k1: Option<seq<Byte>>, k2: Option<seq<Byte>>, g: Group, e1: Entry, e2: Entry)
    returns (load: Word, after: Option<Word>, other: Option<Word>)
    requires d.Valid() && !d.failed && Hash(k1, g) != Hash(k2, g)
    requires d.View() == map[Hash(k1, g) := e1, Hash(k2, g) := e2]
    modifies d, d.slots
    ensures load == 1 && after == None && other == Some(ToWord(e2.value))
  {
    ghost var written := d.View();
    d.Erase(k1, g);
    ghost var left := written - {Hash(k1, g)};
    assert d.View() == left;
    assert left.Keys == {Hash(k2, g)};
    load := d.GetLoad();
    after := d.Find(k1, g);
    other := d.Find(k2, g);
  }

  /**
   * The two writes, then a find, an erase and a second find: the first find returns the first
   * value, one key is left after the erase, and the erased key is no longer found.
   */
  method WriteFindErase(s: Statics, k1: Option<seq<Byte>>, k2: Option<seq<Byte>>, g: Group, v1: Word, v2: Word,
    maxLoad: real) returns (before: Option<Word>, load: Word, after: Option<Word>, other: Option<Word>)
    requires s.Valid() && 0.0 < maxLoad <= 1.0
    requires Hash(k1, g) != Hash(k2, g)
    ensures before == Some(v1) && load == 1 && after == None && other == Some(v2)
  {
    var d := CreateAndWriteTwo(s, k1, k2, g, v1, v2, maxLoad);
    before := d.Find(k1, g);
    load, after, other := EraseOneOfTwo(d, k1, k2, g, Entry(g, ToI64(v1)), Entry(g, ToI64(v2)));
  }

  /**
   * A tracker initialised with no room, then two distinct pushes, a duplicate push and a pull of
   * the first pointer: the pushes land at 0 and 1, the duplicate reports 1, and afterwards only
   * the second pointer is tracked.
   */
  method PushPushPull<T(==,0)>(p1: T, p2: T) returns (i1: Option<nat>, i2: Option<nat>, dup: Option<nat>, left: seq<T>)
    requires p1 != p2
    ensures i1 == Some(0) && i2 == Some(1) && dup == Some(1) && left == [p2]
  {
    var t := new Tracker<T>.Uninit();
    t.Init(0, true);
    i1 := t.Push(p1, Some(0), true);
    assert t.Contents() == [p1];
    i2 := t.Push(p2, Some(0), true);
    assert t.Contents() == [p1, p2];
    dup := t.Push(p2, Some(0), true);
    assert ScanFinds(t.Contents(), p2, ScanStart(Some(0), 2), dup.value);
    t.PullPointer(p1);
    left := t.ptr[..t.n];
    assert left == [p2];
  }
}
