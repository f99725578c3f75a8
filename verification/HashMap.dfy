/**
 The HashMap object: a 16 KiB top index of its own and nodes in an arena's memory, changed in place.

 `Valid` ties that state to `contents`, the finite map it stands for. Offsets stand for the pointers
 that the API returns (address = arena base + offset, value field 24 bytes in); offset 0 is NULL.
 The OS's answer to a commit request is the parameter `ok`.
 */
module HashMap {
  import opened Machine
  import opened Bytes
  import opened Descent
  import opened TrieShape
  import opened HashFunc
  import opened HashMapLayout
  import opened HashMapPut
  import opened HashMapNodes
  import opened HashMapPersist
  import opened HashMapValidate
  import opened Memory
  import opened HashMapMemory
  import opened HashMapState
  import opened KeyCompare
  import Arena
  import Model = ArenaModel

  datatype Status = OK | NO_MEMORY | INVALID | FORMAT

  class HashMap {
    const H: Hasher<Key>
    const top: array<u32>
    var arena: Arena.Arena
    ghost var offs: set<nat>
    ghost var contents: map<Key, u64>

    /** A map object whose storage is separate from the arena; not yet initialised. */
    constructor (H: Hasher<Key>, arena: Arena.Arena)
      ensures this.H == H && this.arena == arena && fresh(top) && top.Length == TOP_SIZE
    {
      this.H, this.arena := H, arena;
      top := new u32[TOP_SIZE](_ => 0);
      offs, contents := {}, map[];
    }

    ghost predicate Bound()
      reads this, arena
    {
      && arena.Valid() && arena.base % 64 == 0
      && top.Length == TOP_SIZE && (top as object) != (arena.mem as object)
    }

    /** The arena's bytes below its position. */
    ghost function Image(): Image
      requires Bound()
      reads this, arena, arena.mem
    {
      arena.mem[..arena.pos]
    }

    ghost function Snap(): MapState
      requires Bound()
      reads this, arena, arena.mem, top
    {
      MapState(Image(), top[..], offs, contents)
    }

    ghost predicate Valid()
      reads this, arena, arena.mem, top
    {
      Bound() && MapOk(H, Snap())
    }

    /** What Open establishes for any file it accepts: safe to walk. */
    ghost predicate Readable()
      reads this, arena, arena.mem, top
    {
      Bound() && SafeRoots(Image(), top[..])
    }

    /** The sentinel line is the map's own: `Init` ran on a fresh arena, or `Open` restored it. */
    ghost predicate OwnsHeader()
      requires Bound()
      reads this, arena, arena.mem, top
    {
      AllFit(Image(), offs) && HeaderOk(Image(), offs, arena.reserved)
    }

    // ---------------------------------------------------------------------------
    // Lookup.

    /** The fast reject on digest and length, then the byte comparison. */
    method Matches(cur: nat, hfull: u64, k: Key) returns (hit: bool)
      requires Readable() && Fits(Image(), cur) && hfull == H.digest(k)
      ensures hit <==> Hit(H, Image(), cur, k)
    {
      hide Load32, SafeRoots;
      ghost var m := Image();
      if Word64(arena.mem, cur + 16) != hfull {
        return false;
      }
      if Word32(arena.mem, cur + 32) != |k| {
        return false;
      }
      var stored := arena.mem[cur + 40..cur + 40 + |k|];
      assert stored == KeyAt(m, cur);
      if |k| == 0 {
        return true;
      }
      hit := KeysEqual(stored, k);
    }

    /** A child slot of a node. */
    method LoadChild(off: u32, c: nat) returns (q: u32)
      requires Readable() && c < 4 && off + 40 <= |Image()|
      ensures q == Link(Image(), off, c)
    {
      hide SafeRoots, Load32;
      q := Word32(arena.mem, off + 4 * c);
    }

    /** `rgHashMapGet`. */
    method Get(k: Key) returns (r: nat)
      requires Readable()
      ensures r == Lookup(H, Image(), top[..], k)
    {
      hide Safe, Hit, Find;
      ghost var (m, t) := (Image(), top[..]);
      var hfull := H.digest(k);
      var index := hfull / 0x10_0000_0000_0000;
      if |k| > 0xFFFF_FFFF {
        LongKeyMisses(H, m, k, t[index], Start(H, k));
        return 0;
      }
      var h: u64, round: u32 := hfull * 4096 % TWO_64, 0;
      var cur: nat := top[index];
      while cur != 0
        invariant cur == 0 || Safe(m, cur)
        invariant Find(H, m, k, cur, Reg(h, round)) == Lookup(H, m, t, k)
        decreases if cur == 0 then 0 else |m| - cur
      {
        FindStep(H, m, k, cur, Reg(h, round));
        var hit := Matches(cur, hfull, k);
        if hit {
          return cur;
        }
        cur := Word32(arena.mem, cur + 4 * (h / 0x4000_0000_0000_0000));
        h := h * 4 % TWO_64;
        if h == 0 {
          round := (round + 1) % TWO_32;
          h := H.reseed(k, round);
        }
      }
      FindEmpty(H, m, k, Reg(h, round));
      return 0;
    }

    // ---------------------------------------------------------------------------
    // Upsert.

    /** `rgm_hash_map_node_create`: allocate and fill in, or 0. */
    method NodeCreate(k: Key, hfull: u64, ok: bool) returns (off: u32)
      requires Bound() && 0 < arena.pos && |k| < 0x1_0000_0000 && hfull == H.digest(k)
      modifies arena, arena.mem
      ensures Bound() && old(arena.pos) <= arena.pos
      ensures off == NewOffset(old(arena.State()), |k|, ok) && arena.State() == NewArena(old(arena.State()), |k|, ok)
      ensures Image()[..old(arena.pos)] == old(Image())
      ensures off != 0 ==> Appended(H, old(Image()), Image(), off, k)
    {
      hide Model.PowerOfTwo, Model.AllocAligned, Model.Multiple, Load32, NodeAt, Appended, Fits;
      var total := NODE_SIZE + |k|;
      ghost var (before, p) := (arena.mem[..], arena.pos);
      AllocFacts(arena.State(), total, ok);
      var block := arena.AllocAligned(total, CACHE_LINE, ok);
      if block.None? {
        return 0;
      }
      var q := block.value;
      if q > 0xFFFF_FFFF {
        arena.Pop(total);
        return 0;
      }
      WriteNode(arena.mem, q, hfull, k);
      NodeAppended(H, before, arena.mem[..], p, q, k);
      return q;
    }

    /** Writing the link: into the top index, or into the parent's child field. */
    method WriteSlot(slot: Slot, q: u32)
      requires Bound() && (slot.Top? ==> slot.i < top.Length)
      requires slot.Child? ==> Fits(Image(), slot.p) && slot.c < 4
      modifies arena.mem, top
      ensures Bound() && arena.State() == old(arena.State())
      ensures Image() == LinkImage(old(Image()), slot, q)
      ensures top[..] == LinkTop(old(top[..]), slot, q)
    {
      hide Put32, Load32;
      match slot
      case Top(i) =>
        top[i] := q;
      case Child(p, c) =>
        Put32Prefix(arena.mem[..], arena.pos, p + 4 * c, q);
        Store32(arena.mem, p + 4 * c, q);
    }

    /** The walk of `rgHashMapPut`: the node that holds `k`, or the empty slot where it belongs. */
    method Seek(k: Key, hfull: u64) returns (cur: u32, slot: Slot, ghost n: nat)
      requires Valid() && hfull == H.digest(k)
      ensures cur != 0 ==> k in contents && cur == Lookup(H, Image(), top[..], k)
      ensures cur == 0 ==> EndsAt(H, Snap(), k, n, slot)
    {
      hide MapOk, Hit, Lookup, Walking, EndsAt, Load32;
      ghost var s := Snap();
      var h: u64, round: u32 := hfull * 4096 % TWO_64, 0;
      slot, n := Top(hfull / 0x10_0000_0000_0000), 1;
      MapOkSafe(H, s);
      WalkStart(H, s, k);
      while true
        invariant Walking(H, s, k, n, slot, Reg(h, round))
        decreases SlotRank(s.m, slot)
      {
        WalkSlot(H, s, k, n, slot, Reg(h, round));
        cur := if slot.Top? then top[slot.i] else Word32(arena.mem, slot.p + 4 * slot.c);
        if cur == 0 {
          return;
        }
        WalkTurn(H, s, k, n, slot, Reg(h, round), cur);
        var hit := Matches(cur, hfull, k);
        if hit {
          return;
        }
        slot, n := Child(cur, h / 0x4000_0000_0000_0000), n + 1;
        h := h * 4 % TWO_64;
        if h == 0 {
          round := (round + 1) % TWO_32;
          h := H.reseed(k, round);
        }
      }
    }

    /** Put at an empty slot: create the node, then publish its offset. */
    method Insert(k: Key, hfull: u64, slot: Slot, ghost n: nat, ok: bool) returns (r: u32)
      requires Valid() && |k| < 0x1_0000_0000 && hfull == H.digest(k) && EndsAt(H, Snap(), k, n, slot)
      modifies arena, arena.mem, top, `offs, `contents
      ensures Bound() && Extends(H, old(Snap()), Snap())
      ensures r == NewOffset(old(arena.State()), |k|, ok) && arena.State() == NewArena(old(arena.State()), |k|, ok)
      ensures r != 0 ==> |Image()| == r + NODE_SIZE + |k|
      ensures r != 0 ==> contents == old(contents)[k := 0] && offs == old(offs) + {r}
      ensures r != 0 ==> SafeRoots(Image(), top[..]) && Lookup(H, Image(), top[..], k) == r
      ensures r == 0 ==> contents == old(contents) && offs == old(offs) && unchanged(top)
      ensures r == 0 ==> old(arena.pos) <= arena.pos && Image()[..old(arena.pos)] == old(Image())
    {
      hide MapOk, Extends, NewOffset, NewArena, Lookup, Appended, EndsAt, LinkImage, LinkTop, SafeRoots;
      ghost var s := Snap();
      EndsAtMiss(H, s, k, n, slot);
      r := NodeCreate(k, hfull, ok);
      if r == 0 {
        GrowExtends(H, s, Image());
        assert Snap() == s.(m := Image());
        return;
      }
      InsertExtends(H, s, k, n, slot, Image(), r);
      InsertSize(H, s.m, Image(), r, k);
      WriteSlot(slot, r);
      offs, contents := offs + {r}, contents[k := 0];
    }

    /** `rgHashMapPut`. */
    method Put(k: Key, ok: bool) returns (r: u32)
      requires Valid()
      modifies arena, arena.mem, top, `offs, `contents
      ensures Valid()
      ensures PutResult(H, old(Snap()), old(arena.State()), Snap(), arena.State(), k, ok, r)
      ensures k !in old(contents) && |k| <= 0xFFFF_FFFF ==>
        var off := LineUp(old(arena.pos)); var end := off + 40 + |k|;
        r == if off <= 0xFFFF_FFFF && end <= arena.reserved && (ok || end <= old(arena.committed)) then off else 0
      ensures k in old(contents) || |k| > 0xFFFF_FFFF ==> unchanged(arena) && unchanged(arena.mem) && unchanged(top)
    {
      hide MapOk, Extends, NewOffset, NewArena, Lookup, EndsAt, SafeRoots, LineUp;
      ghost var s := Snap();
      ExtendsRefl(H, s);
      MapOkSafe(H, s);
      if k in contents { ContentsFit(H, s, k); }
      if |k| > 0xFFFF_FFFF {
        return 0;
      }
      var hfull := H.digest(k);
      var cur, slot, n := Seek(k, hfull);
      if cur != 0 {
        return cur;
      }
      EndsAtMiss(H, s, k, n, slot);
      NewOffsetExact(arena.State(), |k|, ok);
      r := Insert(k, hfull, slot, n, ok);
      ExtendsSafe(H, s, Snap());
    }

    /** A write through the value pointer that Put or Get returned. */
    method SetValue(r: u32, v: u64)
      requires Valid() && r in offs
      modifies arena.mem, `contents
      ensures Valid() && arena.State() == old(arena.State())
      ensures Fits(old(Image()), r) && Snap() == Stored(old(Snap()), r, v) && Extends(H, old(Snap()), Snap())
    {
      hide MapOk, Extends, Put64;
      ghost var s := Snap();
      StoreExtends(H, s, r, v);
      Put64Prefix(arena.mem[..], arena.pos, r + 24, v);
      contents := contents[KeyAt(Image(), r) := v];
      Store64(arena.mem, r + 24, v);
      assert Snap() == Stored(s, r, v);
      ExtendsSafe(H, s, Snap());
    }

    // ---------------------------------------------------------------------------
    // Eight-byte keys held in a register.

    method MatchesU64(cur: nat, hfull: u64, key: u64) returns (hit: bool)
      requires Readable() && Fits(Image(), cur) && hfull == H.digest(LE64(key))
      ensures hit <==> Hit(H, Image(), cur, LE64(key))
    {
      hide Load32, SafeRoots;
      ghost var m := Image();
      hit := Word64(arena.mem, cur + 16) == hfull && Word32(arena.mem, cur + 32) == 8;
      if hit {
        SameWord64(m, cur + 40, LE64(key), 0);
        hit := Word64(arena.mem, cur + 40) == key;
      }
    }

    /** `rgHashMapGetU64`: the same entry as Get with the key's eight bytes. */
    method GetU64(key: u64) returns (r: nat)
      requires Readable() && H == BYTE_KEYS
      ensures r == Lookup(H, Image(), top[..], LE64(key))
    {
      hide Safe, Hit, Find, HashU64, BYTE_KEYS;
      ghost var (m, t, k) := (Image(), top[..], LE64(key));
      WordHash(key);
      var hfull := HashU64(key, WYP0);
      var h: u64, round: u32 := hfull * 4096 % TWO_64, 0;
      var cur: nat := top[hfull / 0x10_0000_0000_0000];
      while cur != 0
        invariant cur == 0 || Safe(m, cur)
        invariant Find(H, m, k, cur, Reg(h, round)) == Lookup(H, m, t, k)
        decreases if cur == 0 then 0 else |m| - cur
      {
        FindStep(H, m, k, cur, Reg(h, round));
        var hit := MatchesU64(cur, hfull, key);
        if hit {
          return cur;
        }
        cur := Word32(arena.mem, cur + 4 * (h / 0x4000_0000_0000_0000));
        h := h * 4 % TWO_64;
        if h == 0 {
          round := (round + 1) % TWO_32;
          h := HashU64(key, ReseedSeed(round));
        }
      }
      FindEmpty(H, m, k, Reg(h, round));
      return 0;
    }

    method SeekU64(key: u64, hfull: u64) returns (cur: u32, slot: Slot, ghost n: nat)
      requires Valid() && H == BYTE_KEYS && hfull == HashU64(key, WYP0)
      ensures cur != 0 ==> LE64(key) in contents && cur == Lookup(H, Image(), top[..], LE64(key))
      ensures cur == 0 ==> EndsAt(H, Snap(), LE64(key), n, slot)
    {
      hide MapOk, Hit, Lookup, Walking, EndsAt, Load32, HashU64, BYTE_KEYS;
      ghost var (s, k) := (Snap(), LE64(key));
      WordHash(key);
      var h: u64, round: u32 := hfull * 4096 % TWO_64, 0;
      slot, n := Top(hfull / 0x10_0000_0000_0000), 1;
      MapOkSafe(H, s);
      WalkStart(H, s, k);
      while true
        invariant Walking(H, s, k, n, slot, Reg(h, round))
        decreases SlotRank(s.m, slot)
      {
        WalkSlot(H, s, k, n, slot, Reg(h, round));
        cur := if slot.Top? then top[slot.i] else Word32(arena.mem, slot.p + 4 * slot.c);
        if cur == 0 {
          return;
        }
        WalkTurn(H, s, k, n, slot, Reg(h, round), cur);
        var hit := MatchesU64(cur, hfull, key);
        if hit {
          return;
        }
        slot, n := Child(cur, h / 0x4000_0000_0000_0000), n + 1;
        h := h * 4 % TWO_64;
        if h == 0 {
          round := (round + 1) % TWO_32;
          h := HashU64(key, ReseedSeed(round));
        }
      }
    }

    /** `rgHashMapPutU64`: exactly Put with the key's eight bytes. */
    method PutU64(key: u64, ok: bool) returns (r: u32)
      requires Valid() && H == BYTE_KEYS
      modifies arena, arena.mem, top, `offs, `contents
      ensures Valid()
      ensures PutResult(H, old(Snap()), old(arena.State()), Snap(), arena.State(), LE64(key), ok, r)
      ensures LE64(key) !in old(contents) ==>
        var off := LineUp(old(arena.pos)); var end := off + 48;
        r == if off <= 0xFFFF_FFFF && end <= arena.reserved && (ok || end <= old(arena.committed)) then off else 0
      ensures LE64(key) in old(contents) ==> unchanged(arena) && unchanged(arena.mem) && unchanged(top)
    {
      hide MapOk, Extends, NewOffset, NewArena, Lookup, EndsAt, SafeRoots, HashU64, BYTE_KEYS, LE64, ReseedSeed, LineUp;
      ghost var (s, k) := (Snap(), LE64(key));
      ExtendsRefl(H, s);
      MapOkSafe(H, s);
      if k in contents { ContentsFit(H, s, k); }
      WordHash(key);
      var hfull := HashU64(key, WYP0);
      var cur, slot, n := SeekU64(key, hfull);
      if cur != 0 {
        return cur;
      }
      EndsAtMiss(H, s, k, n, slot);
      NewOffsetExact(arena.State(), 8, ok);
      r := Insert(LE64(key), hfull, slot, n, ok);
      ExtendsSafe(H, s, Snap());
    }

    // ---------------------------------------------------------------------------
    // Init, Save, Open.

    /** The first cache line of a fresh arena, zeroed: it keeps offset 0 free and holds no stale header. */
    static method ReserveSentinel(a: Arena.Arena, ok: bool) returns (done: bool)
      requires a.Valid() && a.base % 64 == 0 && a.pos == 0
      modifies a, a.mem
      ensures a.Valid() && done == (64 <= a.reserved && (ok || 64 <= old(a.committed)))
      ensures done ==> a.pos == CACHE_LINE && forall i :: 0 <= i < CACHE_LINE ==> a.mem[i] == 0
      ensures forall i :: CACHE_LINE <= i < a.mem.Length ==> a.mem[i] == old(a.mem[i])
      ensures !done ==> a.State() == old(a.State()) && unchanged(a.mem)
    {
      hide Model.AllocAligned, Model.PowerOfTwo;
      FirstLine(a.State(), ok);
      var sentinel := a.AllocAligned(CACHE_LINE, CACHE_LINE, ok);
      if sentinel.None? {
        return false;
      }
      var at, i := sentinel.value, 0;
      while i < CACHE_LINE
        invariant i <= CACHE_LINE && forall j :: at <= j < at + i ==> a.mem[j] == 0
        invariant forall j :: CACHE_LINE <= j < a.mem.Length ==> a.mem[j] == old(a.mem[j])
        modifies a.mem
      {
        a.mem[at + i] := 0;
        i := i + 1;
      }
      return true;
    }

    method ClearTop()
      requires top.Length == TOP_SIZE
      modifies top
      ensures top[..] == seq(TOP_SIZE, _ => 0)
    {
      var i := 0;
      while i < TOP_SIZE
        invariant i <= TOP_SIZE && forall j :: 0 <= j < i ==> top[j] == 0
      {
        top[i] := 0;
        i := i + 1;
      }
    }

    /** `rgHashMapInit`. */
    method Init(a: Arena.Arena, ok: bool) returns (status: Status)
      requires a.Valid() && a.base % 64 == 0 && top.Length == TOP_SIZE && (top as object) != (a.mem as object)
      modifies this, top, a, a.mem
      ensures arena == a && Bound()
      ensures status == if old(a.pos) == 0 && !(64 <= a.reserved && (ok || 64 <= old(a.committed))) then NO_MEMORY else OK
      ensures status == OK ==> Valid() && contents == map[] && (old(a.pos) == 0 ==> OwnsHeader())
      ensures status == OK ==> a.pos == if old(a.pos) == 0 then CACHE_LINE else old(a.pos)
      ensures status == OK ==> forall i :: 0 <= i < a.mem.Length ==>
        a.mem[i] == if old(a.pos) == 0 && i < 64 then 0 else old(a.mem[i])
      ensures status == NO_MEMORY ==> a.State() == old(a.State()) && unchanged(a.mem) && unchanged(top)
    {
      hide MapOk, Model.AllocAligned, Model.PowerOfTwo, HeaderOk;
      arena := a;
      if a.pos == 0 {
        var done := ReserveSentinel(a, ok);
        if !done {
          return NO_MEMORY;
        }
        BlankHeader(Image());
      }
      ClearTop();
      offs, contents := {}, map[];
      EmptyMapOk(H, Snap());
      return OK;
    }

    /** Where Save puts the index: the region of an earlier Save, or a new block; 0 when there is no room. */
    static method PlaceIndex(a: Arena.Arena, ok: bool) returns (io: u32)
      requires a.Valid() && a.base % 64 == 0 && a.pos >= CACHE_LINE
      modifies a
      ensures a.Valid() && old(a.pos) <= a.pos
      ensures IndexPlaced(a.mem[..old(a.pos)], old(a.State()), ok, a.pos, io)
    {
      hide Model.AllocAligned, Model.PowerOfTwo, HeaderAt;
      var hdr := ReadHeader(a.mem);
      HeaderSeen(a.mem, hdr, a.pos);
      if Reusable(hdr, a.reserved) {
        return hdr.indexOffset;
      }
      IndexFacts(a.State(), ok);
      var block := a.AllocAligned(INDEX_BYTES, 16, ok);
      if block.None? {
        return 0;
      }
      if block.value > 0xFFFF_FFFF {
        a.Pop(INDEX_BYTES);
        return 0;
      }
      return block.value;
    }

    /** `rgHashMapSave`. On a map that shares its arena's first line with someone else it must not be called. */
    method Save(ok: bool) returns (status: Status, ghost io: nat)
      requires Valid() && (arena.pos >= CACHE_LINE ==> OwnsHeader())
      modifies arena, arena.mem
      ensures Valid() && (arena.pos >= CACHE_LINE ==> OwnsHeader())
      ensures SaveResult(H, old(Snap()), old(arena.State()), Snap(), ok, io)
      ensures status == if old(arena.pos) < CACHE_LINE then INVALID else if io == 0 then NO_MEMORY else OK
      ensures io == 0 ==> unchanged(arena.mem)
      ensures forall i :: 32 <= i < arena.mem.Length && !(io <= i < io + 16384) ==> arena.mem[i] == old(arena.mem[i])
      ensures old(arena.pos) >= 64 ==>
        var (h, off) := (HeaderAt(old(Image())), QuadUp(old(arena.pos)));
        io == if Reusable(h, arena.reserved) then h.indexOffset
              else if off <= 0xFFFF_FFFF && off + 16384 <= arena.reserved && (ok || off + 16384 <= old(arena.committed)) then off
              else 0
    {
      hide MapOk, HeaderOk, Extends, SamePlaces, IndexPlaced, Saved, SafeRoots, IndexPlace, Reusable, HeaderAt,
           Clear, AllFit, QuadUp;
      ghost var s := Snap();
      if arena.pos < CACHE_LINE {
        SaveRefused(H, s, arena.State(), ok);
        return INVALID, 0;
      }
      IndexPlaceExact(s.m, arena.State(), ok);
      var place := PlaceIndex(arena, ok);
      io := place;
      ghost var m1 := Image();
      assert m1[..|s.m|] == s.m;
      PlacedFacts(H, s, old(arena.State()), ok, m1, place);
      if place == 0 {
        assert Snap() == s.(m := m1);
        return NO_MEMORY, 0;
      }
      WriteSaved(arena.mem, arena.pos, place, top);
      assert Snap() == s.(m := Image());
      SaveDoneResult(H, s, old(arena.State()), ok, m1, Image(), place);
      return OK, place;
    }

    /** Everything that Open checks before it touches the map. */
    static method Vet(a: Arena.Arena) returns (ok: bool, hdr: Header)
      requires a.Valid()
      ensures ok <==> Opens(a.mem[..], a.committed)
      ensures ok ==> hdr == HeaderAt(a.mem[..])
    {
      hide CheckRoots, Load32, HeaderAt, IndexAt, HeaderAccepted, HeaderIs;
      if a.committed < HEADER_SIZE {
        return false, Header(0, 0, 0, 0, 0);
      }
      hdr := ReadHeader(a.mem);
      assert a.mem[..] == a.mem[..a.mem.Length];
      HeaderSeen(a.mem, hdr, a.mem.Length);
      if !HeaderAccepted(hdr, a.reserved, a.committed) {
        return false, hdr;
      }
      AcceptedBounds(hdr, a.reserved, a.committed);
      ok := ValidateIndex(a.mem, hdr.highWater, hdr.indexOffset);
    }

    /** `rgHashMapOpen`, on any bytes. The ghost arguments say which map the caller believes the file holds;
        nothing depends on them unless that belief is right. */
    method Open(a: Arena.Arena, ghost offs0: set<nat>, ghost contents0: map<Key, u64>) returns (status: Status)
      requires a.Valid() && a.base % 64 == 0 && top.Length == TOP_SIZE && (top as object) != (a.mem as object)
      modifies this, top, a`pos
      ensures status == if Opens(a.mem[..], a.committed) then OK else FORMAT
      ensures status == OK ==>
        && Load64(a.mem[..], 0) == 0x5247_4d48_4d41_5031 && Load32(a.mem[..], 8) == 2 && Load32(a.mem[..], 12) == 12
        && a.pos == Load64(a.mem[..], 16)
      ensures status == FORMAT ==>
        arena == old(arena) && offs == old(offs) && contents == old(contents) && unchanged(top) && a.pos == old(a.pos)
      ensures status == OK ==>
        && arena == a && offs == offs0 && contents == contents0
        && Readable() && (Image(), top[..]) == Opened(a.mem[..])
    {
      hide SafeRoots, CheckRoots, Load32, HeaderAt, IndexAt, HeaderAccepted, DepthAtMost, AllNodes;
      var ok, hdr := Vet(a);
      if !ok {
        return FORMAT;
      }
      OpenIsSafe(a.mem[..], a.committed);
      OpensExactly(a.mem[..], a.committed);
      AcceptedBounds(hdr, a.reserved, a.committed);
      arena, offs, contents := a, offs0, contents0;
      LoadIndex(a.mem, hdr.indexOffset, top);
      a.pos := hdr.highWater;
      return OK;
    }
  }
}
