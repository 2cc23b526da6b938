/** One memory page of 128 KiB: blocks are cut from a bucket, moved to a list of free blocks, and
    taken from there again (smmr_memory.c). */
module MemoryPages {
  import opened PageChains
  import opened PageLayouts

  /** The checks that every walk along a list makes: signature, length, and footer. */
  predicate ItemOk(m: Mem, o: nat, sig: Word) {
    o + HEAD_SIZE <= |m| && m[o] == sig && m[o + LEN] >= MMSIZ_HF_SIZE && o + m[o + LEN] <= |m|
    && m[o + m[o + LEN] - FOOT_SIZE + SUFFIX] == MMSIG_SUFX
  }

  lemma UsedItem(m: Mem, category_id: Word, l: Layout, i: nat)
    requires PageOk(m, category_id, l) && i < |l.used|
    ensures l.used[i] + HEAD_SIZE <= |m| && ItemOk(m, l.used[i], MMSIG_USED) && m[l.used[i] + LEN] > MMSIZ_HF_SIZE
    ensures m[l.used[i] + NEXT] == if i + 1 < |l.used| then l.used[i + 1] else MMFLG_CLOSE
    ensures i + 1 < |l.used| ==> l.used[i + 1] < PAGE_SIZE
    ensures m[l.used[i] + LEN] == if i == 0 then MMPOS_ROOT_SIZE else l.lens[l.used[i]]
    ensures i > 0 ==> l.used[i] >= MMPOS_BCKT_INIT
  {
    hide Tiled;
    hide Total;
    hide Bucket;
    assert Link(m, MMSIG_USED, l.used, i);
    assert i + 1 < |l.used| ==> l.used[i + 1] < PAGE_SIZE;
    if i > 0 {
      assert Block(m, category_id, l.used[i], l.lens[l.used[i]]);
      TileBounds(l.tiles, l.lens, l.used[i]);
    }
    hide Lists;
    hide Blocks;
    hide Shared;
  }

  lemma FreeItemAt(m: Mem, category_id: Word, l: Layout, i: nat)
    requires PageOk(m, category_id, l) && i < |l.free|
    ensures l.free[i] + HEAD_SIZE <= |m| && ItemOk(m, l.free[i], MMSIG_FREE) && m[l.free[i] + LEN] > MMSIZ_HF_SIZE
    ensures m[l.free[i] + NEXT] == if i + 1 < |l.free| then l.free[i + 1] else MMFLG_CLOSE
    ensures i + 1 < |l.free| ==> l.free[i + 1] < PAGE_SIZE
    ensures m[l.free[i] + LEN] == if i == 0 then MMPOS_ROOT_SIZE else l.lens[l.free[i]]
    ensures i > 0 ==> l.free[i] >= MMPOS_BCKT_INIT
  {
    hide Tiled;
    hide Total;
    assert Link(m, MMSIG_FREE, l.free, i);
    if i > 0 {
      assert Block(m, category_id, l.free[i], l.lens[l.free[i]]);
      TileBounds(l.tiles, l.lens, l.free[i]);
    }
  }

  lemma BucketOf(m: Mem, category_id: Word, l: Layout)
    requires PageOk(m, category_id, l)
    ensures |m| == PAGE_SIZE && MMPOS_BCKT_INIT <= End(l.tiles, l.lens) <= BCKT_END && Bucket(m, End(l.tiles, l.lens))
    ensures m[MMPOS_BCKT_ROOT + NEXT] == End(l.tiles, l.lens)
    ensures m[End(l.tiles, l.lens) + LEN] == BCKT_END - End(l.tiles, l.lens)
  {
    if l.tiles != [] { TileBounds(l.tiles, l.lens, l.tiles[|l.tiles| - 1]); }
  }

  /** The payload of the block at `x` is zero. */
  ghost predicate Zeroed(m: Mem, x: nat, n: nat) {
    x + n <= |m| && forall k :: 0 <= k && HEAD_SIZE + 4 * k < n - FOOT_SIZE ==> m[x + HEAD_SIZE + 4 * k] == 0
  }

  lemma NothingWritten(m: Mem, lens: map<nat, nat>)
    ensures PayloadsKept(m, m, lens)
  {
  }

  ghost predicate CanAppend(m: Mem, x: nat) {
    |m| == PAGE_SIZE && x + HEAD_SIZE <= PAGE_SIZE && m[MMPOS_USED_ROOT + LAST] + HEAD_SIZE <= PAGE_SIZE
  }

  lemma AppendPossible(m: Mem, m1: Mem, x: nat)
    requires AppendDone(m, m1, x)
    ensures CanAppend(m, x)
  {
  }

  lemma OneAppend(m: Mem, m1: Mem, m2: Mem, x: nat)
    requires AppendDone(m, m1, x) && AppendDone(m, m2, x)
    ensures m1 == m2
  {
  }

  lemma ZeroedKept(m: Mem, m': Mem, category_id: Word, x: nat, n: nat, m0: Mem)
    requires Carved(m0, m, category_id, x, n) && SameInside(m, m', x, n)
    ensures Zeroed(m', x, n)
  {
  }

  class Page {
    const mem: array<Word>
    const category_id: Word
    ghost var l: Layout

    ghost predicate Valid()
      reads this, mem
    {
      PageOk(mem[..], category_id, l)
    }

    /** _find_freeitem_over_size: the first free block of the list that is large enough, or 0. */
    method FindFreeItem(size: nat) returns (offset: nat)
      requires Valid()
      ensures offset < PAGE_SIZE
      ensures offset != 0 ==> exists i: nat :: FirstFitting(l, i, size) && l.free[i] == offset
      ensures offset == 0 ==> forall i :: 0 < i < |l.free| ==> l.lens[l.free[i]] < MMSIZ_HF_SIZE + size
    {
      hide Lists;
      hide Blocks;
      hide Fixtures;
      hide Tiled;
      hide Total;
      offset := MMPOS_FREE_ROOT;
      ghost var i := 0;
      while offset < PAGE_SIZE
        invariant i < |l.free| && offset == l.free[i] < PAGE_SIZE
        invariant forall j :: 0 < j < i ==> l.lens[l.free[j]] < MMSIZ_HF_SIZE + size
        decreases |l.free| - i
      {
        FreeItemAt(mem[..], category_id, l, i);
        if !ItemOk(mem[..], offset, MMSIG_FREE) { break; }
        if offset != MMPOS_FREE_ROOT && mem[offset + LEN] >= MMSIZ_HF_SIZE + size {
          return;
        }
        if mem[offset + NEXT] == MMFLG_CLOSE { break; }
        offset := mem[offset + NEXT];
        i := i + 1;
      }
      offset := 0;
    }
  
    /** Block `x` leaves the list behind `from` and goes to the end of the one behind `to`. */
    method Move(from: nat, to: nat, sig: Word, x: Word)
      requires Movable(mem[..], from, to, x)
      modifies mem
      ensures mem[..] == Moved(old(mem[..]), from, to, sig, x)
    {
      var prev, next := mem[x + PREV], mem[x + NEXT];
      mem[prev + NEXT] := next;
      if next == MMFLG_CLOSE {
        mem[from + LAST] := prev;
      } else {
        mem[next + PREV] := prev;
      }
      assert mem[..] == Detach(old(mem[..]), from, x);
      mem[x] := sig;
      var last := mem[to + LAST];
      mem[x + NEXT] := MMFLG_CLOSE;
      mem[x + PREV] := last;
      mem[last + NEXT] := x;
      mem[to + LAST] := x;
    }

    /** _operate_recycle: the first fitting free block goes to the end of the blocks in use. */
    method OperateRecycle(aligned_size: nat) returns (offset: nat)
      requires Valid()
      modifies this`l, mem
      ensures Valid() && offset < PAGE_SIZE
      ensures offset == 0 ==>
        l == old(l) && mem[..] == old(mem[..])
        && forall i :: 0 < i < |l.free| ==> l.lens[l.free[i]] < MMSIZ_HF_SIZE + aligned_size
      ensures offset != 0 ==>
        exists i: nat :: FirstFitting(old(l), i, aligned_size) && old(l).free[i] == offset && l == Recycled(old(l), i)
      ensures PayloadsKept(old(mem[..]), mem[..], l.lens)
    {
      hide PageOk;
      offset := FindFreeItem(aligned_size);
      if offset != 0 {
        ghost var i: nat :| FirstFitting(l, i, aligned_size) && l.free[i] == offset;
        ghost var m' := RecycledKeeps(mem[..], category_id, l, i);
        Move(MMPOS_FREE_ROOT, MMPOS_USED_ROOT, MMSIG_USED, offset);
        l := Recycled(l, i);
      }
    }
  
    /** The writes of _operate_insert that concern the bucket and the new block itself. */
    method Carve(x: nat, backet_len: nat, aligned_size: nat, now: Word)
      requires mem.Length == PAGE_SIZE && Bucket(mem[..], x) && backet_len == BCKT_END - x && x >= MMPOS_BCKT_INIT
      requires aligned_size >= 4 && aligned_size % 4 == 0 && aligned_size + MMSIZ_HF_SIZE <= backet_len
      modifies mem
      ensures Carved(old(mem[..]), mem[..], category_id, x, aligned_size + MMSIZ_HF_SIZE)
    {
      MoveBucket(x, aligned_size + MMSIZ_HF_SIZE, backet_len);
      FillBlock(x, aligned_size, now);
    }

    /** The bucket's header, and the root's link to it. */
    method MoveBucket(x: nat, n: nat, backet_len: nat)
      requires mem.Length == PAGE_SIZE && Bucket(mem[..], x) && backet_len == BCKT_END - x && n <= backet_len
      requires x >= MMPOS_BCKT_INIT
      modifies mem
      ensures Bucket(mem[..], x + n)
      ensures forall c :: 0 <= c < x + n && c != MMPOS_BCKT_ROOT + NEXT ==> mem[c] == old(mem[c])
    {
      mem[MMPOS_BCKT_ROOT + NEXT] := x + n;
      mem[x + n] := MMSIG_BCKT;
      mem[x + n + PREV] := MMPOS_BCKT_ROOT;
      mem[x + n + NEXT] := MMFLG_CLOSE;
      mem[x + n + LEN] := backet_len - n;
    }

    /** The new block's length, payload and footer. */
    method FillBlock(x: nat, aligned_size: nat, now: Word)
      requires aligned_size >= 4 && aligned_size % 4 == 0 && x + aligned_size + MMSIZ_HF_SIZE <= mem.Length == PAGE_SIZE
      modifies mem
      ensures Block(mem[..], category_id, x, aligned_size + MMSIZ_HF_SIZE)
      ensures Zeroed(mem[..], x, aligned_size + MMSIZ_HF_SIZE)
      ensures forall c :: 0 <= c < mem.Length && (c < x || c >= x + aligned_size + MMSIZ_HF_SIZE) ==>
        mem[c] == old(mem[c])
    {
      var n := aligned_size + MMSIZ_HF_SIZE;
      mem[x + LEN] := n;
      ClearWords(x + HEAD_SIZE, aligned_size / 4);
      mem[x + n - FOOT_SIZE] := now;
      mem[x + n - FOOT_SIZE + SUFFIX] := MMSIG_SUFX;
      mem[x + n - FOOT_SIZE + CATEGORY] := category_id;
    }

    /** memset of `n` words. */
    method ClearWords(o: nat, n: nat)
      requires o + 4 * n <= mem.Length
      modifies mem
      ensures forall k :: 0 <= k < n ==> mem[o + 4 * k] == 0
      ensures forall c :: 0 <= c < mem.Length && (c < o || c >= o + 4 * n) ==> mem[c] == old(mem[c])
    {
      for i := 0 to n
        invariant forall k :: 0 <= k < i ==> mem[o + 4 * k] == 0
        invariant forall c :: 0 <= c < mem.Length && (c < o || c >= o + 4 * n) ==> mem[c] == old(mem[c])
      {
        mem[o + 4 * i] := 0;
      }
    }

    /** _operate_insert: a new block at the front of the bucket, unless the bucket is too small. */
    method OperateInsert(aligned_size: nat, now: Word) returns (offset: nat)
      requires Valid() && aligned_size >= 4 && aligned_size % 4 == 0
      modifies this`l, mem
      ensures Valid() && offset < PAGE_SIZE
      ensures offset == 0 <==> old(End(l.tiles, l.lens)) + aligned_size + MMSIZ_HF_SIZE > BCKT_END
      ensures offset == 0 ==> l == old(l) && mem[..] == old(mem[..])
      ensures offset != 0 ==> offset == old(End(l.tiles, l.lens)) && l == Inserted(old(l), aligned_size + MMSIZ_HF_SIZE)
      ensures offset != 0 ==> Zeroed(mem[..], offset, aligned_size + MMSIZ_HF_SIZE)
      ensures PayloadsKept(old(mem[..]), mem[..], old(l).lens)
    {
      hide PageOk;
      hide Carved;
      hide Bucket;
      hide Inserted;
      hide AppendDone;
      hide SameInside;
      hide PayloadsKept;
      hide Zeroed;
      hide CanAppend;
      ghost var m, n := mem[..], aligned_size + MMSIZ_HF_SIZE;
      BucketOf(m, category_id, l);
      var bckt := mem[MMPOS_BCKT_ROOT + NEXT];
      var backet_len_bk := mem[bckt + LEN];
      if backet_len_bk < aligned_size + MMSIZ_HF_SIZE {
        NothingWritten(m, l.lens);
        return 0;
      }
      offset := bckt;
      Carve(bckt, backet_len_bk, aligned_size, now);
      ghost var m1 := mem[..];
      ghost var m2 := InsertKeeps(m, m1, category_id, l, n);
      AppendPossible(m1, m2, bckt);
      LinkLast(bckt);
      OneAppend(m1, m2, mem[..], bckt);
      ZeroedKept(m1, m2, category_id, bckt, n, m);
      l := Inserted(l, n);
    }

    /** The new block becomes the last one in use. */
    method LinkLast(x: Word)
      requires CanAppend(mem[..], x) && x >= MMPOS_BCKT_INIT
      modifies mem
      ensures AppendDone(old(mem[..]), mem[..], x)
    {
      var last := mem[MMPOS_USED_ROOT + LAST];
      mem[x] := MMSIG_USED;
      mem[x + NEXT] := MMFLG_CLOSE;
      mem[x + PREV] := last;
      mem[last + NEXT] := x;
      mem[MMPOS_USED_ROOT + LAST] := x;
    }
  
    /** The walk of shmfree along one page's list of blocks in use: the block at `target`, if it is
        in the list, goes to the end of the free blocks. */
    method FreeItem(target: int) returns (found: bool)
      requires Valid() && target != MMPOS_USED_ROOT
      modifies this`l, mem
      ensures Valid()
      ensures found <==> target in old(l).used
      ensures found ==> exists i: nat :: i < |old(l).used| && old(l).used[i] == target && l == Freed(old(l), i)
      ensures !found ==> l == old(l) && mem[..] == old(mem[..])
      ensures PayloadsKept(old(mem[..]), mem[..], old(l).lens)
    {
      hide Lists;
      hide Blocks;
      hide Fixtures;
      hide Tiled;
      hide Total;
      hide PayloadsKept;
      NothingWritten(mem[..], l.lens);
      var offset := MMPOS_USED_ROOT;
      ghost var i := 0;
      while offset < PAGE_SIZE
        invariant i < |l.used| && offset == l.used[i] < PAGE_SIZE && l == old(l) && mem[..] == old(mem[..])
        invariant target !in l.used[..i]
        decreases |l.used| - i
      {
        UsedItem(mem[..], category_id, l, i);
        if !ItemOk(mem[..], offset, MMSIG_USED) || mem[offset + LEN] <= MMSIZ_HF_SIZE { break; }
        if offset == target {
          ghost var m' := FreedKeeps(mem[..], category_id, l, i);
          Move(MMPOS_USED_ROOT, MMPOS_FREE_ROOT, MMSIG_FREE, offset);
          l := Freed(l, i);
          return true;
        }
        assert l.used[..i + 1] == l.used[..i] + [offset];
        if mem[offset + NEXT] == MMFLG_CLOSE {
          assert l.used[..i + 1] == l.used;
          break;
        }
        offset := mem[offset + NEXT];
        i := i + 1;
      }
      found := false;
    }

    /** The walk of a rebuild along the blocks in use: their number and the sum of their lengths. */
    method SumUsed() returns (ok: bool, size: nat, count: nat)
      requires Valid()
      ensures ok && size == Total(l.used, l.lens) && count == |l.used| - 1
    {
      hide Lists;
      hide Blocks;
      hide Fixtures;
      hide Tiled;
      hide Total;
      TotalStart(l.used, l.lens);
      ok, size, count := false, 0, 0;
      var offset := MMPOS_USED_ROOT;
      ghost var i := 0;
      while offset < PAGE_SIZE
        invariant i < |l.used| && offset == l.used[i] < PAGE_SIZE && !ok
        invariant size == Total(l.used[..i], l.lens) && count == if i == 0 then 0 else i - 1
        decreases |l.used| - i
      {
        UsedItem(mem[..], category_id, l, i);
        TotalStep(l.used, l.lens, i);
        if !ItemOk(mem[..], offset, MMSIG_USED) { break; }
        if mem[offset + LEN] - MMSIZ_HF_SIZE > 0 && offset != MMPOS_USED_ROOT {
          size := size + mem[offset + LEN];
          count := count + 1;
        }
        if mem[offset + NEXT] == MMFLG_CLOSE {
          assert l.used[..i + 1] == l.used;
          ok := true;
          break;
        }
        offset := mem[offset + NEXT];
        i := i + 1;
      }
    }

    /** A program writes into a block that it was given. */
    method UserWrite(o: nat, c: nat, v: Word)
      requires Valid() && o in l.lens && o + HEAD_SIZE <= c < o + l.lens[o] - FOOT_SIZE && c < mem.Length
      modifies mem
      ensures Valid() && mem[..] == old(mem[..])[c := v]
      ensures PayloadsKept(old(mem[..]), mem[..], l.lens - {o})
    {
      hide PageOk;
      ghost var m := mem[..];
      mem[c] := v;
      PayloadWritten(m, category_id, l, o, c, v);
    }

    /** One of the sums in the root blocks. */
    method SetSum(c: nat, v: Word)
      requires Valid() && Sums(c) && c < mem.Length
      modifies mem
      ensures Valid() && mem[..] == old(mem[..])[c := v] && PayloadsKept(old(mem[..]), mem[..], l.lens)
    {
      hide PageOk;
      ghost var m := mem[..];
      mem[c] := v;
      SumWritten(m, category_id, l, c, v);
    }

    /** The end of the rebuild of one page: the sums are stored in the root blocks. */
    method StoreSums(use_size: Word, use_cnt: Word, free_size: Word, free_cnt: Word)
      requires Valid() && mem.Length == PAGE_SIZE
      modifies mem
      ensures Valid() && PayloadsKept(old(mem[..]), mem[..], l.lens)
      ensures mem[MMPOS_USED_ROOT + USE_BYTES] == use_size && mem[MMPOS_USED_ROOT + USE_CNT] == use_cnt
      ensures mem[MMPOS_FREE_ROOT + FREE_BYTES] == free_size && mem[MMPOS_FREE_ROOT + FREE_CNT] == free_cnt
    {
      hide PageOk;
      hide PayloadsKept;
      ghost var m0: Mem := mem[..];
      SetSum(MMPOS_USED_ROOT + USE_BYTES, use_size);
      ghost var m1 := mem[..];
      SetSum(MMPOS_USED_ROOT + USE_CNT, use_cnt);
      ghost var m2 := mem[..];
      SetSum(MMPOS_FREE_ROOT + FREE_BYTES, free_size);
      ghost var m3 := mem[..];
      SetSum(MMPOS_FREE_ROOT + FREE_CNT, free_cnt);
      PayloadsTwice(m0, m1, m2, l.lens);
      PayloadsTwice(m0, m2, m3, l.lens);
      PayloadsTwice(m0, m3, mem[..], l.lens);
      assert mem[..] == m0[MMPOS_USED_ROOT + USE_BYTES := use_size][MMPOS_USED_ROOT + USE_CNT := use_cnt]
        [MMPOS_FREE_ROOT + FREE_BYTES := free_size][MMPOS_FREE_ROOT + FREE_CNT := free_cnt];
    }
  
    /** The walk of a rebuild along the free blocks: number, lengths, and the bits of their size classes. */
    method SumFree(free_bmp: array2<bool>, pageid: nat) returns (ok: bool, size: nat, count: nat)
      requires Valid() && free_bmp.Length0 == IPCSHM_BMPID_MAX && pageid < free_bmp.Length1
      requires forall m :: 0 <= m < IPCSHM_BMPID_MAX ==> !free_bmp[m, pageid]
      modifies free_bmp
      ensures ok && size == Total(l.free, l.lens) && count == |l.free| - 1
      ensures forall m :: 0 <= m < IPCSHM_BMPID_MAX ==> (free_bmp[m, pageid] <==> ClassFree(l, m, |l.free|))
      ensures forall m, n :: 0 <= m < IPCSHM_BMPID_MAX && 0 <= n < free_bmp.Length1 && n != pageid ==>
        free_bmp[m, n] == old(free_bmp[m, n])
    {
      hide Lists;
      hide Blocks;
      hide Fixtures;
      hide Tiled;
      hide Total;
      TotalStart(l.free, l.lens);
      ok, size, count := false, 0, 0;
      var offset := MMPOS_FREE_ROOT;
      ghost var i := 0;
      while offset < PAGE_SIZE
        invariant i < |l.free| && offset == l.free[i] < PAGE_SIZE && !ok
        invariant size == Total(l.free[..i], l.lens) && count == if i == 0 then 0 else i - 1
        invariant forall m :: 0 <= m < IPCSHM_BMPID_MAX ==> (free_bmp[m, pageid] <==> ClassFree(l, m, i))
        invariant forall m, n :: 0 <= m < IPCSHM_BMPID_MAX && 0 <= n < free_bmp.Length1 && n != pageid ==>
          free_bmp[m, n] == old(free_bmp[m, n])
        decreases |l.free| - i
      {
        FreeItemAt(mem[..], category_id, l, i);
        TotalStep(l.free, l.lens, i);
        ClassFreeStep(l, i);
        if !ItemOk(mem[..], offset, MMSIG_FREE) { break; }
        if mem[offset + LEN] - MMSIZ_HF_SIZE > 0 && offset != MMPOS_FREE_ROOT {
          size := size + mem[offset + LEN];
          count := count + 1;
          MarkClasses(free_bmp, pageid, SizeClass(mem[offset + LEN] - MMSIZ_HF_SIZE));
        }
        if mem[offset + NEXT] == MMFLG_CLOSE {
          assert l.free[..i + 1] == l.free;
          ok := true;
          break;
        }
        offset := mem[offset + NEXT];
        i := i + 1;
      }
    }

    /** _shrink_backet_recycle, on the page: no free blocks, and one bucket over the whole area. */
    method ShrinkBucket(now: Word)
      requires mem.Length == PAGE_SIZE && Chain(mem[..], MMSIG_USED, [MMPOS_USED_ROOT])
      requires RootBlock(mem[..], MMPOS_USED_ROOT)
      modifies this`l, mem
      ensures Valid() && l == EMPTY_PAGE
      ensures forall c :: 0 <= c < MMPOS_FREE_ROOT ==> mem[c] == old(mem[c])
      ensures mem[MMPOS_FREE_ROOT + FREE_BYTES] == 0 && mem[MMPOS_FREE_ROOT + FREE_CNT] == 0
    {
      ghost var m := mem[..];
      WriteRoot(MMPOS_FREE_ROOT, MMSIG_FREE, MMFLG_CLOSE, MMPOS_FREE_ROOT, MMPOS_FREE_ROOT, now);
      WriteRoot(MMPOS_BCKT_ROOT, MMSIG_BCKT, MMPOS_BCKT_INIT, MMPOS_BCKT_ROOT, MMPOS_BCKT_INIT, now);
      WriteBucket(now);
      l := EMPTY_PAGE;
      ChainKept(m, mem[..], MMSIG_USED, [MMPOS_USED_ROOT]);
      hide Chain;
      EmptyPage(mem[..], category_id);
    }

    /** The bucket of a page without blocks. */
    method WriteBucket(now: Word)
      requires mem.Length == PAGE_SIZE
      modifies mem
      ensures mem[MMPOS_BCKT_INIT] == MMSIG_BCKT && mem[MMPOS_BCKT_INIT + PREV] == MMPOS_BCKT_ROOT
      ensures mem[MMPOS_BCKT_INIT + NEXT] == MMFLG_CLOSE && mem[MMPOS_BCKT_INIT + LEN] == MMSIZ_BCKT_INIT_SIZE
      ensures forall c :: 0 <= c < MMPOS_BCKT_INIT ==> mem[c] == old(mem[c])
    {
      mem[MMPOS_BCKT_INIT] := MMSIG_BCKT;
      mem[MMPOS_BCKT_INIT + PREV] := MMPOS_BCKT_ROOT;
      mem[MMPOS_BCKT_INIT + NEXT] := MMFLG_CLOSE;
      mem[MMPOS_BCKT_INIT + LEN] := MMSIZ_BCKT_INIT_SIZE;
      mem[BCKT_END - FOOT_SIZE] := now;
      mem[BCKT_END - FOOT_SIZE + SUFFIX] := MMSIG_SUFX;
    }

    /** Header, detail and footer of a root block. */
    method WriteRoot(r: nat, sig: Word, next: Word, first: Word, last: Word, now: Word)
      requires mem.Length == PAGE_SIZE && r + MMPOS_ROOT_SIZE <= PAGE_SIZE
      modifies mem
      ensures RootBlock(mem[..], r) && mem[r] == sig && mem[r + PREV] == 0 && mem[r + NEXT] == next
      ensures mem[r + LAST] == last
      ensures mem[r + FREE_BYTES] == mem[r + FREE_CNT] == mem[r + USE_BYTES] == mem[r + USE_CNT] == 0
      ensures forall c :: 0 <= c < PAGE_SIZE && (c < r || c >= r + MMPOS_ROOT_SIZE) ==> mem[c] == old(mem[c])
    {
      mem[r] := sig;
      mem[r + PREV] := 0;
      mem[r + NEXT] := next;
      mem[r + LEN] := MMPOS_ROOT_SIZE;
      mem[r + HEAD_SIZE] := first;
      mem[r + LAST] := last;
      mem[r + FREE_BYTES] := 0;
      mem[r + FREE_CNT] := 0;
      mem[r + USE_BYTES] := 0;
      mem[r + USE_CNT] := 0;
      mem[r + HEAD_SIZE + DETAIL_SIZE] := now;
      mem[r + HEAD_SIZE + DETAIL_SIZE + SUFFIX] := MMSIG_SUFX;
    }

    /** A page of a new category file (rebuild_pages_area). */
    constructor (category_id: Word, now: Word)
      ensures Valid() && l == EMPTY_PAGE && this.category_id == category_id && fresh(mem) && mem.Length == PAGE_SIZE
    {
      this.category_id := category_id;
      mem := new Word[PAGE_SIZE](_ => 0);
      l := EMPTY_PAGE;
      new;
      WriteRoot(MMPOS_USED_ROOT, MMSIG_USED, MMFLG_CLOSE, MMPOS_USED_ROOT, MMPOS_USED_ROOT, now);
      assert Link(mem[..], MMSIG_USED, [MMPOS_USED_ROOT], 0);
      ShrinkBucket(now);
    }
  }

  lemma EmptyPage(m: Mem, category_id: Word)
    requires |m| == PAGE_SIZE && Chain(m, MMSIG_USED, [MMPOS_USED_ROOT])
    requires m[MMPOS_FREE_ROOT] == MMSIG_FREE && m[MMPOS_FREE_ROOT + PREV] == 0
    requires m[MMPOS_FREE_ROOT + NEXT] == MMFLG_CLOSE && m[MMPOS_FREE_ROOT + LAST] == MMPOS_FREE_ROOT
    requires Fixtures(m, MMPOS_BCKT_INIT)
    ensures PageOk(m, category_id, EMPTY_PAGE)
  {
    assert Link(m, MMSIG_FREE, EMPTY_PAGE.free, 0);
  }

  // ---- size classes ----

  const IPCSHM_BMPID_MAX := 5

  /** The largest size class whose bit a free payload of `remain` bytes sets. */
  function SizeClass(remain: nat): (r: nat) {
    if remain > 0x0800 then 4 else if remain > 0x0200 then 3
    else if remain > 0x0080 then 2 else if remain > 0x0020 then 1 else 0
  }

  /** The size class where the search for `aligned_size` bytes starts. */
  function StartClass(aligned_size: nat): (r: nat) {
    if aligned_size > 0x0200 then 3 else if aligned_size > 0x0080 then 2 else if aligned_size > 0x0020 then 1 else 0
  }

  /** The two agree at every boundary: a payload that is large enough has set the bit where the search starts. */
  lemma ClassesAgree(aligned_size: nat, remain: nat)
    requires aligned_size <= remain
    ensures StartClass(aligned_size) <= SizeClass(remain)
  {
  }

  /** The payload sizes above which a size class begins (IPCSHM_SYSPAGE_FREE_032, _128, _512 and _2K). */
  const CLASS_SIZES := [0x20, 0x80, 0x200, 0x800]

  /** A class is as high as many of these sizes lie below; a search never starts above the third of them. */
  lemma ClassesBySize(n: nat)
    ensures SizeClass(n) <= 4 && StartClass(n) <= 3
    ensures forall k :: 0 <= k < 4 ==> (SizeClass(n) > k <==> n > CLASS_SIZES[k])
    ensures forall k :: 0 <= k < 3 ==> (StartClass(n) > k <==> n > CLASS_SIZES[k])
  {
  }

  function Payload(len: nat): (r: nat) {
    if len >= MMSIZ_HF_SIZE then len - MMSIZ_HF_SIZE else 0
  }

  /** Among the first `n` blocks of the list of free blocks (the root included) is one of class `m` or above. */
  ghost predicate ClassFree(l: Layout, m: nat, n: nat) {
    exists i :: 0 < i < n && i < |l.free| && l.free[i] in l.lens && SizeClass(Payload(l.lens[l.free[i]])) >= m
  }

  lemma ClassFreeStep(l: Layout, i: nat)
    requires i < |l.free| && (i > 0 ==> l.free[i] in l.lens)
    ensures forall m: nat ::
      ClassFree(l, m, i + 1) <==> ClassFree(l, m, i) || (i > 0 && m <= SizeClass(Payload(l.lens[l.free[i]])))
  {
    forall m: nat
      ensures ClassFree(l, m, i + 1) <==> ClassFree(l, m, i) || (i > 0 && m <= SizeClass(Payload(l.lens[l.free[i]])))
    {
      if ClassFree(l, m, i) {
        var j :| 0 < j < i && j < |l.free| && l.free[j] in l.lens && SizeClass(Payload(l.lens[l.free[j]])) >= m;
        assert 0 < j < i + 1;
      }
      if i > 0 && m <= SizeClass(Payload(l.lens[l.free[i]])) {
        assert 0 < i < i + 1 && i < |l.free| && l.free[i] in l.lens;
      }
    }
  }

  /** The bits of class `k` and below. */
  method MarkClasses(bmp: array2<bool>, pageid: nat, k: nat)
    requires k < bmp.Length0 && pageid < bmp.Length1
    modifies bmp
    ensures forall m, n :: 0 <= m < bmp.Length0 && 0 <= n < bmp.Length1 ==>
      bmp[m, n] == (old(bmp[m, n]) || (n == pageid && m <= k))
  {
    for i := 0 to k + 1
      invariant forall m, n :: 0 <= m < bmp.Length0 && 0 <= n < bmp.Length1 ==>
        bmp[m, n] == (old(bmp[m, n]) || (n == pageid && m < i))
    {
      bmp[i, pageid] := true;
    }
  }

  lemma PayloadsTwice(m: Mem, m1: Mem, m2: Mem, lens: map<nat, nat>)
    requires PayloadsKept(m, m1, lens) && PayloadsKept(m1, m2, lens)
    ensures PayloadsKept(m, m2, lens)
  {
    forall o | o in lens ensures SameInside(m, m2, o, lens[o]) {
      assert SameInside(m, m1, o, lens[o]) && SameInside(m1, m2, o, lens[o]);
    }
  }

  lemma TotalStart(list: seq<nat>, lens: map<nat, nat>)
    ensures Total(list[..0], lens) == 0
  {
  }

  lemma TotalStep(list: seq<nat>, lens: map<nat, nat>, i: nat)
    requires i < |list| && forall j :: 0 < j < |list| ==> list[j] in lens
    ensures Total(list[..i + 1], lens) == Total(list[..i], lens) + if i == 0 then 0 else lens[list[i]]
  {
    assert list[..i + 1][..i] == list[..i];
  }

  lemma PayloadWritten(m: Mem, category_id: Word, l: Layout, o: nat, c: nat, v: Word)
    requires PageOk(m, category_id, l) && o in l.lens && o + HEAD_SIZE <= c < o + l.lens[o] - FOOT_SIZE && c < |m|
    ensures PageOk(m[c := v], category_id, l) && PayloadsKept(m, m[c := v], l.lens - {o})
  {
    hide Lists;
    hide Blocks;
    hide Fixtures;
    hide Parted;
    hide Total;
    assert Loose(l.lens, c);
    LooseWrites(m, m[c := v], category_id, l);
    forall p | p in l.lens && p != o ensures SameInside(m, m[c := v], p, l.lens[p]) {
      TilesApart(l.tiles, l.lens, p, o);
    }
  }

  lemma SumWritten(m: Mem, category_id: Word, l: Layout, c: nat, v: Word)
    requires PageOk(m, category_id, l) && Sums(c) && c < |m|
    ensures PageOk(m[c := v], category_id, l) && PayloadsKept(m, m[c := v], l.lens)
  {
    hide Lists;
    hide Blocks;
    hide Fixtures;
    hide Parted;
    hide Total;
    assert Loose(l.lens, c);
    LooseWrites(m, m[c := v], category_id, l);
    forall o | o in l.lens ensures SameInside(m, m[c := v], o, l.lens[o]) {
      TileBounds(l.tiles, l.lens, o);
    }
  }

  ghost predicate FirstFitting(l: Layout, i: nat, size: nat) {
    0 < i < |l.free| && (forall j :: 0 < j <= i ==> l.free[j] in l.lens)
    && l.lens[l.free[i]] >= MMSIZ_HF_SIZE + size && forall j :: 0 < j < i ==> l.lens[l.free[j]] < MMSIZ_HF_SIZE + size
  }
}
