/** The arena object: methods that move `pos` and `committed` in place, proved against ArenaModel. */
module Arena {
  import opened Machine
  import Model = ArenaModel

  class Arena {
    const base: u64
    const reserved: u64
    const page: u64
    const mem: array<u8>      // the reservation, indexed from `base`
    var pos: u64
    var committed: u64

    ghost function State(): Model.Arena
      reads this
    {
      Model.Arena(base, reserved, committed, pos, page)
    }

    ghost predicate Valid()
      reads this
    {
      Model.Valid(State()) && mem.Length == reserved
    }

    /** A reservation the OS has granted; file mappings and huge pages come fully committed. */
    constructor (base: u64, reserved: u64, page: u64, eager: bool)
      requires Model.Valid(Model.Arena(base, reserved, 0, 0, page))
      ensures Valid() && fresh(mem)
      ensures State() == Model.Arena(base, reserved, if eager then reserved else 0, 0, page)
      ensures forall i :: 0 <= i < mem.Length ==> mem[i] == 0
    {
      this.base, this.reserved, this.page := base, reserved, page;
      mem := new u8[reserved](_ => 0);
      pos := 0;
      committed := if eager then reserved else 0;
    }

    /** `rgm_arena_ensure_committed`. */
    method EnsureCommitted(required: u64, ok: bool) returns (done: bool)
      requires Valid()
      modifies this`committed
      ensures Valid()
      ensures (State(), done) == Model.EnsureCommitted(old(State()), required, ok)
      ensures done == (required <= old(committed) || (required <= reserved && ok))
      ensures !done || required <= old(committed) ==> committed == old(committed)
      ensures done ==> required <= committed
    {
      if required <= committed {
        return true;
      }
      if required > reserved {
        return false;
      }
      var target := committed * 2;
      if target > committed + Model.COMMIT_MAX_STEP {
        target := committed + Model.COMMIT_MAX_STEP;
      }
      if target < required {
        target := required;
      }
      if target < Model.COMMIT_MIN_CHUNK {
        target := Model.COMMIT_MIN_CHUNK;
      }
      target := Model.AlignUp(target, page);
      if target > reserved {
        target := reserved;
      }
      assert target == Model.CommitTarget(State(), required);
      if !ok {
        return false;
      }
      committed := target;
      return true;
    }

    /** `rgm_arena_alloc_internal`. */
    method AllocSlow(size: u64, align: u64, ok: bool) returns (r: Option<u64>)
      requires Valid() && 0 < align <= 0x8000_0000_0000_0000
      modifies this
      ensures (State(), r) == Model.AllocSlow(old(State()), size, align, ok)
      ensures Valid()
    {
      hide Model.Padding, Model.CommitTarget, Model.Multiple;
      if size == 0 {
        return None;
      }
      var off := pos + Model.Padding(base + pos, align);
      var newPos := (off + size) % 0x1_0000_0000_0000_0000;
      if newPos < off || newPos > reserved {
        return None;
      }
      var done := EnsureCommitted(newPos, ok);
      if !done {
        return None;
      }
      pos := newPos;
      return Some(off);
    }

    /** `rgArenaAllocAligned`: the new block's offset from `base`, or None. `ok` is the OS's answer to a
        commit request, if one is made. */
    method AllocAligned(size: u64, alignment: u64, ok: bool) returns (r: Option<u64>)
      requires Valid()
      modifies this
      ensures (State(), r) == Model.AllocAligned(old(State()), size, alignment, ok)
      ensures Valid()
    {
      hide Model.Padding, Model.CommitTarget, Model.Multiple, Model.PowerOfTwo;
      Model.AllocCorrect(State(), size, alignment, ok);
      if size == 0 || (alignment != 0 && !Model.PowerOfTwo(alignment)) {
        return None;
      }
      var align := if alignment < 8 then 8 else alignment;
      assert Model.EffectiveAlign(alignment) == Some(align);
      var off := pos + Model.Padding(base + pos, align);
      var newPos := (off + size) % 0x1_0000_0000_0000_0000;
      if newPos >= off && newPos <= committed {
        pos := newPos;
        return Some(off);
      }
      r := AllocSlow(size, align, ok);
    }

    /** `rgArenaAlloc`. */
    method Alloc(size: u64, ok: bool) returns (r: Option<u64>)
      requires Valid()
      modifies this
      ensures (State(), r) == Model.AllocAligned(old(State()), size, Model.DEFAULT_ALIGN, ok)
      ensures Valid()
    {
      r := AllocAligned(size, Model.DEFAULT_ALIGN, ok);
    }

    /** `rgArenaPop`. */
    method Pop(size: u64)
      requires Valid()
      modifies this`pos
      ensures State() == Model.Pop(old(State()), size) && Valid()
      ensures pos == if size <= old(pos) then old(pos) - size else old(pos)
    {
      if size <= pos {
        pos := pos - size;
      }
    }

    /** `rgArenaRestore`. */
    method Restore(save: u64)
      requires Valid()
      modifies this`pos
      ensures State() == Model.Restore(old(State()), save) && Valid()
      ensures pos == if save <= old(pos) then save else old(pos)
    {
      if save == Model.INVALID_SAVE_POINT || save > pos {
        return;
      }
      pos := save;
    }

    /** `rgArenaClear`. */
    method Clear()
      requires Valid()
      modifies this`pos
      ensures State() == old(State()).(pos := 0) && Valid()
    {
      pos := 0;
    }

    /** `rgm_arena_shrink_keep` on an anonymous arena; `ok` is the OS's answer. */
    method Shrink(slack: u64, ok: bool)
      requires Valid()
      modifies this`committed
      ensures State() == Model.Shrink(old(State()), slack, ok) && Valid()
      ensures committed <= old(committed) && (!ok ==> committed == old(committed))
      ensures ok ==> committed < pos + slack + page
    {
      Model.ShrinkIsTight(State(), slack, ok);
      var keep := pos;
      if slack > Model.INVALID_SAVE_POINT - keep {
        return;
      }
      var newCommitted := Model.AlignUp(keep + slack, page);
      if newCommitted < keep || newCommitted >= committed || !ok {
        return;
      }
      committed := newCommitted;
    }
  }
}
