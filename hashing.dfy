/** The key hash of the dictionary: an FNV-1a style fold of the group tag and then of the key's bytes. */
module Hashing {
  import opened Machine

  /** The dictionary's `unsigned int` group tag. */
  type Group = bv32

  /** The 64-bit FNV offset basis and FNV prime. */
  const OFFSET_BASIS: bv64 := 14695981039346656037
  const PRIME: bv64 := 1099511628211

  /** One round of the fold: XOR the operand in, then multiply by the prime, both modulo 2^64. */
  function Step(h: bv64, x: bv64): bv64
  {
    (h ^ x) * PRIME
  }

  /**
   * The operand of group round i: `group & (0xFF << i)`. The shift is by i BITS, so the four
   * masks are 0xFF, 0x1FE, 0x3FC and 0x7F8, and bits 11 to 31 of the group never reach the hash.
   */
  function GroupOperand(g: Group, i: nat): bv64
    requires i < 4
  {
    (g & (0xFF << i)) as bv64
  }

  /** Rounds i..3 of the group fold (sizeof(unsigned int) == 4 rounds in all). */
  function FoldGroup(h: bv64, g: Group, i: nat): bv64
    requires i <= 4
    decreases 4 - i
  {
    if i == 4 then h else FoldGroup(Step(h, GroupOperand(g, i)), g, i + 1)
  }

  /**
   * A key byte as `h ^ str[i]` sees it: `char` is signed, so a byte of 128 or more is
   * sign-extended to int and then converted to uint64_t.
   */
  function Promote(c: Byte): bv64
  {
    if c < 128 then c as bv64 else (c + 0xFFFF_FFFF_FFFF_FF00) as bv64
  }

  /** The string rounds: one per byte, up to (not including) the first NUL or the end of the buffer. */
  function FoldString(h: bv64, s: seq<Byte>): bv64
    decreases |s|
  {
    if |s| == 0 || s[0] == 0 then h else FoldString(Step(h, Promote(s[0])), s[1..])
  }

  /** The 64 bits `_hash(str, group)` returns; a NULL key (None) folds the group only. */
  function HashBits(key: Option<seq<Byte>>, g: Group): bv64
  {
    var h := FoldGroup(OFFSET_BASIS, g, 0);
    if key.Some? then FoldString(h, key.value) else h
  }

  /** `_hash(str, group)` as the uint64_t the dictionary stores and compares. */
  function Hash(key: Option<seq<Byte>>, g: Group): Word
  {
    HashBits(key, g) as int
  }

  lemma {:induction false} FoldStringStopsAtNul(h: bv64, s: seq<Byte>, t: seq<Byte>)
    ensures FoldString(h, s + [0] + t) == FoldString(h, s)
    decreases |s|
  {
    if |s| != 0 && s[0] != 0 {
      assert (s + [0] + t)[1..] == s[1..] + [0] + t;
      FoldStringStopsAtNul(Step(h, Promote(s[0])), s[1..], t);
    }
  }

  /** Only the bytes before the first NUL take part: the key is a C string. A NULL key hashes like "". */
  lemma NulTerminatesKey(s: seq<Byte>, t: seq<Byte>, g: Group)
    ensures Hash(Some(s + [0] + t), g) == Hash(Some(s), g)
    ensures Hash(Some([0] + t), g) == Hash(None, g)
  {
    var h := FoldGroup(OFFSET_BASIS, g, 0);
    FoldStringStopsAtNul(h, s, t);
    assert HashBits(Some(s + [0] + t), g) == HashBits(Some(s), g);
    assert FoldString(h, [0] + t) == h;
    assert HashBits(Some([0] + t), g) == HashBits(None, g);
  }

  lemma {:induction false} FoldGroupLow(h: bv64, g: Group, i: nat)
    requires i <= 4
    ensures FoldGroup(h, g, i) == FoldGroup(h, g & 0x7FF, i)
    decreases 4 - i
  {
    if i < 4 {
      assert GroupOperand(g, i) == GroupOperand(g & 0x7FF, i);
      FoldGroupLow(Step(h, GroupOperand(g, i)), g, i + 1);
    }
  }

  /** Only bits 0..10 of the group reach the hash: groups that agree on those collide for every key. */
  lemma GroupHighBitsIgnored(key: Option<seq<Byte>>, g: Group)
    ensures Hash(key, g) == Hash(key, g & 0x7FF)
  {
    FoldGroupLow(OFFSET_BASIS, g, 0);
    assert HashBits(key, g) == HashBits(key, g & 0x7FF);
  }
}
