# Dafny model of the cobj dictionary, the du pointer tracker and the colour hex parser

This project models three self-contained, sequential parts of the derelict C library and proves
properties about them.

- **The open-addressing dictionary** (`src/dictionary.c`). It maps a key `(string, group)` to a
  64-bit value through a circular array of slots. Each slot is Unused, Deleted (a tombstone) or
  Occupied. A key is reduced to a 64-bit FNV-1a-style hash, and slots are matched on that stored
  hash alone. The dictionary is modelled as the class `Dictionaries.Dictionary`, with the fields
  `slots: array<Slot>`, `n`, `nAlloc`, `failed` and `maxLoad: real`. Every state-changing
  operation is a method whose `ensures` gives the new slot array as a function of the old one
  (`Cleared`, `DemoteGroup`, `Erased`, `Rebuild`, `Written` in module `Operations`). Lemmas about
  those functions then prove three invariants, which `Valid()` keeps:
  - every Occupied slot is the first stop of a probe for its hash with cut-off Unused;
  - no two Occupied slots share a hash;
  - `n` is the number of Occupied slots.

  They also prove how the abstract view changes. The view maps each hash to its `(group, value)`
  entry. The shared failure placeholder `_err_dict` is the `placeholder` of the class
  `Dictionaries.Statics`.
- **The pointer tracker** (`old/src/tracker.c`, `old/include/du-tracker.h`). It is a growable,
  duplicate-free stack of opaque pointers, modelled as the class `Trackers.Tracker<T>` over an
  `array<T>`, with the fields `n`, `nAlloc` and `status`. Its contents are `ptr[..n]`, and
  `Valid()` keeps `n <= nAlloc` and the absence of duplicates.
- **The colour parser** (`src/color.c`), integer part only: the hex digit table, the
  `#RRGGBB[AA]` parser with its local nibble array, the ARGB channel split and the string
  dispatch. A colour is the four bytes passed to `cobj_color_convert_rgba`.

Module `Machine` holds the machine words:
- `size_t`/`uint64_t` parameters, results and hashes are `Word` (0 .. 2^64-1), and `SIZE_MAX` is
  2^64-1. The counters `n` and `nAlloc` of both classes and the tracker's index hint are `nat`.
  In the dictionary `Valid()` bounds them by `SIZE_MAX`, since `nAlloc * SLOT_SIZE <= SIZE_MAX`
  and `n <= nAlloc`. In the tracker only `n <= nAlloc` holds.
- The slot value is a signed 64-bit `I64`. `ToI64` and `ToWord` convert between the two by
  two's complement.
- `SafeMul` and `SafeAdd` are the checked `size_t` operations of `src/safe.h`. That header only
  declares them, so the functions carry no contract of their own: they are the assumed behaviour,
  `None` when the exact result exceeds `SIZE_MAX`.

Module `Hashing` holds `_hash` (src/dictionary.c:384-406) as `Hashing.Hash`, computed by
`Hashing.HashBits` with bit-vector arithmetic modulo 2^64. `_find_slot` is the recursive
function `Slots.Probe`, and its loop is the method `Dictionaries.Dictionary.FindSlot`. The slot
array after each state-changing operation is given by a function in module `Operations`:
- `Written` for `cobj_dictionary_write`;
- `Erased` for `cobj_dictionary_erase`;
- `DemoteGroup` for `cobj_dictionary_clear_group`;
- `Cleared` for `cobj_dictionary_clear`;
- `Rebuild`, built from `Insert` one slot at a time, for the copy loop of `_resize`.

In module `Colors`, `cobj_color_convert_argb_uint` is the function `Colors.ConvertArgbUint`, and
`Colors.PackArgb` is its inverse.

Two details of the C code shape what the dictionary promises:
- **Group mask.** `_hash` folds `group & (0xFF << i)` for i in 0..3. The shift is by bits, so only
  bits 0..10 of a group reach the hash. Groups that differ only above bit 10 have the same hash
  for every key and so share entries (`Hashing.GroupHighBitsIgnored`).
- **Group kept on overwrite.** `cobj_dictionary_write` (src/dictionary.c:326-346) probes for the
  hash with cut-off Deleted.
  - When the probe lands on an Occupied slot, only `value` is stored, and the slot keeps the
    group it had.
  - When it lands on a Deleted slot, a second probe with cut-off Unused looks for a live copy of
    the same hash further on. If it finds one, that copy is turned into a tombstone and `n` goes
    down.
  - On a Deleted or Unused landing, the slot then gets the hash, the new group and the value,
    and `n` goes up.

  The contract of `Dictionaries.Dictionary.Write` states exactly when the group is kept.

Every method that may replace the slot array or the tracker's pointer array says so in its
contract. The array afterwards is either the one it had before or a newly allocated one. So the
public operations can be called one after another, as module `Usage` does with the sequence of
`examples/dictionary.c` and with a push/pull sequence on a tracker.

## Model

| member | source | states |
|---|---|---|
| Machine.ToI64 | src/dictionary.c:344 | storing a `size_t` value in the signed slot is two's complement: converting back gives the same word, and the result is negative exactly when bit 63 is set |
| Hashing.FoldStringStopsAtNul | src/dictionary.c:399-402 | the string fold stops at the first NUL: anything after it does not change the accumulator |
| Hashing.NulTerminatesKey | src/dictionary.c:397-403 | a key hashes like its prefix before the first NUL, and an empty key hashes like a NULL key (group only) |
| Hashing.FoldGroupLow | src/dictionary.c:392-395 | the four group rounds depend only on bits 0..10 of the group, because the mask is `0xFF << i` with a bit shift |
| Hashing.GroupHighBitsIgnored | src/dictionary.c:384-406 | the hash of `(key, g)` equals the hash of `(key, g & 0x7FF)` |
| Slots.Idx | src/dictionary.c:362-371 | the circular index `start + k` wraps around and stays inside the array |
| Slots.Off | src/dictionary.c:362-371 | every slot is reached from any start after some number of steps below the array length |
| Slots.ProbeIff | src/dictionary.c:354-380 | the probe returns slot p exactly when p stops it (state at or below the cut-off, or equal stored hash) and every earlier slot on the circular path from `hash % n_alloc` does not |
| Slots.ProbeNoneIff | src/dictionary.c:366-375 | the probe returns NULL exactly when no slot of the array stops it (a full cycle) |
| Slots.ProbeFromFacts | src/dictionary.c:366-377 | from step k, a probe result is a stopping slot with all slots between passed, and NULL means no slot from step k on stops |
| Slots.ReachProbe | src/dictionary.c:224 | under the reachability invariant, probing an Occupied slot's hash with cut-off Unused returns that slot |
| Slots.ReachUnique | src/dictionary.c:366 | reachability alone rules out two Occupied slots with the same hash |
| Slots.ProbeLookup | src/dictionary.c:224-234 | a probe with cut-off Unused finds an Occupied slot exactly when the hash is in the view, and then returns that entry |
| Slots.ProbeInsert | src/dictionary.c:320-326 | with a free slot, the probe with cut-off Deleted always stops; an Occupied stop holds the same hash; an Unused stop means the hash is absent |
| Slots.NoTombstonesInPlace | src/dictionary.c:326-345 | in an array without tombstones, the write lands on an Occupied slot exactly when the key is present |
| Slots.StampKeepsReach | src/dictionary.c:337-339 | stamping a new hash into a slot the probe passes to keeps every Occupied slot reachable |
| Slots.DemoteKeepsReach | src/dictionary.c:200 | turning an Occupied slot into a tombstone keeps every other Occupied slot reachable |
| Slots.StampView | src/dictionary.c:337-344 | stamping an entry adds its index to the Occupied set and maps its hash to its group and value in the view |
| Slots.DemoteView | src/dictionary.c:200-201 | demoting a slot removes its index from the Occupied set and its hash from the view |
| Slots.PassesAfterDemote | src/dictionary.c:328-333 | demoting the later Occupied copy lets a probe with cut-off Unused reach the earlier tombstone |
| Slots.ProbeFresh | src/dictionary.c:454-456 | in a tombstone-free array with room, an absent hash probes to an Unused slot |
| Slots.FreeSlotExists | src/dictionary.c:316-324 | fewer Occupied slots than slots leaves a non-Occupied slot |
| Slots.OccIdxBound | src/dictionary.c:316 | the number of Occupied slots never exceeds the array length |
| Slots.CountIsSize | src/dictionary.c:255-265 | with unique hashes, the number of Occupied slots is the number of keys in the view |
| Slots.SnocView | src/dictionary.c:452-458 | appending a slot extends the Occupied set and the view by that slot exactly when the slot is Occupied |
| Operations.ClearedEmpty | src/dictionary.c:100-101 | a zero-filled array keeps every invariant, has no Occupied slot and an empty view |
| Operations.NoneOccupied | src/dictionary.c:116-119 | when `n == 0` no slot is Occupied, so clearing a group or erasing a key would change nothing (the early returns) |
| Operations.DemoteGroupFacts | src/dictionary.c:121-128 | demoting the Occupied slots of a group keeps the invariants and removes exactly that group's entries from the view |
| Operations.ErasedFacts | src/dictionary.c:193-202 | erasing keeps the invariants, removes the hash from the view, and lowers the count by one exactly when the key was present |
| Operations.InsertFacts | src/dictionary.c:454-457 | moving one Occupied slot into the new array keeps the invariants, adds its entry to the view and adds one to the count |
| Operations.RebuildFacts | src/dictionary.c:452-458 | after moving the first i old slots, the new array keeps the invariants without tombstones and holds exactly their entries |
| Operations.MoveFindsSlot | src/dictionary.c:456 | each move finds a slot in the new array, so the unchecked dereference of `_find_slot` is safe |
| Operations.Regrown | src/dictionary.c:438-458 | the grown array keeps the invariants, has no tombstones, the same view and the same count |
| Operations.OverwriteFacts | src/dictionary.c:343-345 | overwriting the value of an Occupied slot keeps the invariants, the Occupied set and the group, and maps the hash to the new value |
| Operations.StampFacts | src/dictionary.c:336-345 | stamping an absent key into a non-Occupied slot keeps the invariants, adds the entry and adds one to the count |
| Operations.ReplaceFacts | src/dictionary.c:328-345 | writing a present key into an earlier tombstone demotes its later Occupied copy, keeps the invariants and the count, and maps the key to the new entry |
| Operations.WrittenFacts | src/dictionary.c:320-346 | with a free slot, the write always finds a slot (the NULL branch is unreachable), keeps the invariants, maps the key to the new value (keeping the old group only for an in-place overwrite), and adds one to the count exactly when the key was absent |
| Dictionaries.CheckedTarget | src/dictionary.c:419-429 | the growth target `n*a+b` is defined exactly when neither it nor its byte size overflows `size_t`, and then it is `n*a+b` |
| Dictionaries.InitialCapacity | src/dictionary.c:140-156 | the initial capacity is `n_alloc / max_load` truncated, at least the requested `n_alloc`, and within one of the exact quotient |
| Dictionaries.BelowLoadHasRoom | src/dictionary.c:316 | when no growth is triggered, `n < n_alloc`, so there is a free slot |
| Dictionaries.Dictionary.Placeholder | src/dictionary.c:77-84 | the placeholder is valid, failed, has no slots and `max_load` 1, over a newly allocated empty array |
| Dictionaries.Dictionary.Empty | src/dictionary.c:150-154 | a new dictionary starts valid, not failed, with no slots and an empty view, over a newly allocated empty array |
| Dictionaries.Dictionary.GetAllocSize | src/dictionary.c:239-250 | the capacity is 0 once failed, otherwise the slot count, which bounds `n` |
| Dictionaries.Dictionary.GetLoad | src/dictionary.c:254-265 | the load is 0 once failed, otherwise the number of keys in the view |
| Dictionaries.Dictionary.GetLoadFactor | src/dictionary.c:269-280 | the load factor is 0 once failed, undefined (NaN) for no slots, and otherwise the number of keys divided by the capacity, in [0, 1] |
| Dictionaries.Dictionary.HasFailed | src/dictionary.c:291-297 | reports the failure flag; a failed dictionary reports zero load, zero capacity and zero load factor, and a live one its number of entries and its slot count |
| Dictionaries.Dictionary.FindSlot | src/dictionary.c:354-380 | the probe loop returns the circular probe `Slots.Probe` of the current slots |
| Dictionaries.Dictionary.Find | src/dictionary.c:207-235 | lookup returns the stored value exactly when the dictionary has not failed and the key's hash is in the view, and nothing otherwise |
| Dictionaries.Dictionary.Erase | src/dictionary.c:181-203 | erase does nothing once failed; otherwise it removes the key from the view and lowers `n` by one exactly when it was present |
| Dictionaries.Dictionary.Clear | src/dictionary.c:90-102 | clear does nothing once failed; otherwise every slot becomes zero (Unused), `n` becomes 0, the view becomes empty and the capacity is kept |
| Dictionaries.Dictionary.ClearGroup | src/dictionary.c:106-129 | group clear does nothing once failed; otherwise it demotes exactly the Occupied slots of the group and removes exactly that group's entries from the view |
| Dictionaries.Dictionary.Resize | src/dictionary.c:410-465 | growth fails (setting `failed`, old array kept) on overflow or allocation failure, changes nothing when the target fits, and otherwise installs the rebuilt array of the target size with the same view and no tombstones |
| Dictionaries.Dictionary.Place | src/dictionary.c:320-346 | with a free slot, the placement yields `Written` of the old slots, keeps the invariants, maps the key to the value and counts it once |
| Dictionaries.Dictionary.MakeRoom | src/dictionary.c:316-318 | the load test before a write: below the load it changes nothing; at the load it grows to `2*n_alloc+1` slots with the same view and no tombstones, or sets `failed` when growth fails; whenever it succeeds there is a free slot (`n < n_alloc`) |
| Dictionaries.Dictionary.Write | src/dictionary.c:301-347 | write does nothing once failed; it grows to `2*n_alloc+1` when the load is reached, fails if growth fails, and otherwise maps the key to the value (then a later find returns it), with `n` up by one exactly when the key was new; the slot array is the old one or, after growth, a newly allocated one |
| Dictionaries.Statics.Create | src/dictionary.c:133-159 | create returns the placeholder for a request above `SIZE_MAX * max_load` or on malloc failure; otherwise a fresh, valid, empty dictionary over a newly allocated slot array, whose capacity is the truncated quotient, failed exactly when the slot array's byte size overflows or its allocation fails |
| Dictionaries.Statics.Destroy | src/dictionary.c:163-177 | destroying sets the handle to the placeholder, which stays the failed placeholder (destroying it again is a no-op) |
| Dictionaries.Statics.GetPlaceholder | src/dictionary.c:283-287 | the placeholder is the shared failed, empty dictionary |
| Trackers.RemoveAt | old/src/tracker.c:111-117 | removal at i keeps the entries before i and shifts the ones after it left by one |
| Trackers.RemoveAtDistinct | old/include/du-tracker.h:87-91 | removing from a duplicate-free sequence keeps it duplicate-free, removes the element entirely, and removes exactly one copy from the multiset |
| Trackers.AppendDistinct | old/src/tracker.c:151-156 | appending a pointer not yet present keeps the sequence duplicate-free |
| Trackers.ScanStart | old/src/tracker.c:58 | the scan starts at the hint when it is below n, otherwise at `n - 1`, which is the wrapped SIZE_MAX when n is 0 |
| Trackers.ScanFindsUnique | old/src/tracker.c:63-75 | without duplicates, the backward-then-forward scan stops at k exactly when k holds the pointer |
| Trackers.Tracker.Uninit | old/include/du-tracker.h:48-53 | a tracker starts uninitialised and empty, over a newly allocated array |
| Trackers.Tracker.Find | old/src/tracker.c:52-88 | find is true exactly when initialised and the pointer is among the n entries; the index is then the position the two scans reach, and it is untouched when not found or not given |
| Trackers.Tracker.Extend | old/src/tracker.c:174-184 | extension doubles `n_alloc` (0 becomes 1) before reallocating; on success the entries are kept in a fresh, larger array, on failure status becomes FAILURE with `n_alloc` already bumped |
| Trackers.Tracker.Push | old/src/tracker.c:137-157 | push does nothing unless initialised; a duplicate changes nothing and reports its index; otherwise the pointer goes at the end and its index is the old n, or status becomes FAILURE when extension fails; the array is the old one or, after extension, a newly allocated one |
| Trackers.Tracker.PullIndex | old/src/tracker.c:105-118 | pulling an index below n removes that entry, keeps the order of the others and keeps the allocation; an index at or above n, or an uninitialised tracker, changes nothing |
| Trackers.Tracker.PullPointer | old/src/tracker.c:122-133 | pulling a pointer removes its one occurrence, so it is absent afterwards; an absent pointer changes nothing |
| Trackers.Tracker.Clear | old/src/tracker.c:38-48 | clearing an initialised tracker empties it and zeroes `n` and `n_alloc` without uninitialising it, and leaves a newly allocated empty array |
| Trackers.Tracker.Init | old/src/tracker.c:92-101 | init empties the tracker with `n_alloc` as given and succeeds exactly when `n_alloc` is 0 or the allocation succeeds, over a newly allocated array |
| Trackers.Tracker.Reset | old/src/tracker.c:161-168 | reset sets the status to NOT_INIT |
| Colors.HexToInt | src/color.c:213-275 | a character is a hex digit exactly when the table gives a value other than 255 (then below 16), and the value is the digit's value, case-insensitively |
| Colors.HexCaseInsensitive | src/color.c:213-275 | a lower-case and an upper-case digit give the same value |
| Colors.CLen | src/color.c:171 | the scan stops at the first NUL of the buffer, or at its end |
| Colors.ConvertHex | src/color.c:165-192 | the error flag is set exactly when it was set before or the text is not 6 or 8 hex digits followed by NUL (it is never cleared), and the colour is assembled from the scanned nibbles over the defaults |
| Colors.SixDigitsOpaque | src/color.c:168 | with 6 digits the alpha nibbles keep their defaults, so alpha is 0xFF |
| Colors.AcceptedChannels | src/color.c:187-191 | for accepted text, channel k is `16*d[2k] + d[2k+1]`, and alpha is the last pair with 8 digits and 0xFF with 6 |
| Colors.NonDigitPair | src/color.c:171-178 | for every string and every channel, when both characters of its pair lie within the scanned text and neither is a hex digit, the string is rejected and that channel is `(0xFF << 4) + 0xFF` truncated to 8 bits, 0xEF |
| Colors.Hex8RoundTrip | src/color.c:165-192 | parsing the eight hex digits of a colour is accepted and gives the colour back |
| Colors.Hex6RoundTrip | src/color.c:165-192 | parsing the six hex digits of a colour is accepted and gives its r, g, b with alpha 0xFF |
| Colors.SplitPack | src/color.c:41-48 | splitting the word `a<<24 \| r<<16 \| g<<8 \| b` gives back r, g, b and a |
| Colors.PackSplit | src/color.c:43-47 | every 32-bit word is the packing of its split channels: no bit is lost or shared |
| Colors.ConvertStr | src/color.c:67-94 | NULL gives TRANSPARENT and a failure; a leading '#' parses the rest as hex; anything else takes the `strtoul` result truncated to 32 bits as ARGB and fails when nothing was consumed; the flag is written only through a given error pointer, and starts false |
| Usage.NoInitialSlots | src/dictionary.c:140-156 | `create(0, max_load)` passes the size bound and asks `_resize` for no slots, whatever `max_load` is |
| Usage.CreateAndWriteTwo | examples/dictionary.c:45-50 | after `create(0, max_load)` and two writes under different hashes, with every allocation succeeding, the dictionary is live and holds exactly those two keys with their group and value |
| Usage.EraseOneOfTwo | examples/dictionary.c:74-79 | erasing one of two stored keys leaves a load of 1; the erased key is no longer found and the other still returns its value |
| Usage.WriteFindErase | examples/dictionary.c:45-78 | create, two writes, find, erase, find: the first find returns the written value, the load is then 1, the erased key is gone and the other key keeps its value |
| Usage.PushPushPull | old/include/du-tracker.h:98-121 | on an initialised tracker, two distinct pushes report positions 0 and 1, a duplicate push reports 1 and adds nothing, and pulling the first pointer leaves only the second |

## Left out

- Floating point in the dictionary. `max_load` is an exact `real`. The test `n >= n_alloc * max_load`, the bound `SIZE_MAX * max_load` and the quotient `n_alloc / max_load` are exact real arithmetic, and the quotient is truncated toward zero. Double rounding, including `(double)SIZE_MAX` being 2^64, is not modelled.
- Dictionaries.Dictionary.GetLoadFactor: returns the exact rational `n / n_alloc` instead of a rounded double, and `None` for the 0/0 case, where the C code produces NaN.
- Floating point in the colour code. The division by 255.0 in `cobj_color_convert_rgba`, `cobj_color_get_argb_uint`, `cobj_color_interpolate` and `_bind_d`/`_bind_color` are not modelled. A colour is its four bytes.
- `strtoul`, a libc call. Colors.ConvertStr takes its result as parameters: the parsed `unsigned long` and whether any character was consumed. So `_convert_ulong` is modelled only through that result.
- COBJ_COLOR_TRANSPARENT is defined in a header that is not part of this model. It is taken to be all channels 0.
- Memory management. `malloc`, `calloc` and `realloc` are boolean success inputs. `free` is not modelled. `memset` and the zero-fill of `calloc` are modelled by their effect: all-zero slots (`Slots.ZERO`). Freed memory and dangling pointers are not represented: `du_tracker_reset` frees the array but leaves the field pointing to it, and the model keeps the array.
- Dictionaries.Dictionary.ClearGroup: requires fewer than 2^32 slots when the dictionary is live and non-empty. The `uint32_t` loop counter would wrap and loop forever on a larger array.
- Trackers.Tracker.Init: the byte size `n_alloc * sizeof(void*)` is an unbounded integer, not wrapped to `size_t`. For `n_alloc >= 2^61` the C product wraps, `malloc` may then return a buffer shorter than `n_alloc` pointers, and the tracker still reports SUCCESS. The model instead gives a successful init an array of exactly `n_alloc` elements, so it does not capture that short buffer.
- Trackers.Tracker.Extend: the doubled `n_alloc` and the byte size `n_alloc * sizeof(void*)` are unbounded integers, not wrapped to `size_t`.
- `safe_mul`/`safe_add` are only declared, under other names, in `src/safe.h`. Their contract is assumed: a `size_t` result, and failure on overflow.
- `du_status_test`/`du_status_assert` (du-status.h) are not part of this model. They are taken as "return unless SUCCESS" and "set FAILURE and return when the pointer is NULL".
- Pointer parameters. A NULL index pointer in the tracker is `None`. A NULL key is `None`. A NULL `value` pointer in `find` is covered by returning the value as an `Option`. The caller's `**dict` in destroy is the returned handle.
- Characters. Key characters are bytes, and a C `char` is assumed signed, so bytes 128..255 are sign-extended before the XOR (`Hashing.Promote`). Colour text is `seq<char>`, compared only against ASCII.
- `assert` on NULL handles and on the `max_load` range are preconditions, and the handles are non-null references.
- src/rand.c: its seeding and output go through floating point.
- old/include/du-inputs.h: it is only a header, and its implementation is not part of this model.
- The string and book modules used by the example programs are not part of this model. The example and demo programs are drivers with output.
