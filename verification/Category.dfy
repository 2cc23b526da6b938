/** A category of the shared memory: its pages, and the bitmaps that say where to look first (smmr_memory.c). */
module MemoryCategories {
  import opened Common
  import opened PageChains
  import opened PageLayouts
  import opened MemoryPages

  const PAGE_CNT := 1024
  /** Page 0 is the system page, which holds the bitmaps. */
  const IPCSHM_PAGE_USRAREA := 1

  datatype Allocation = NoBlock | BlockAt(page_id: nat, offset: nat)

  /** The bitmap of unused areas that goes with a size class. */
  function DcClass(m: nat): (r: nat) {
    if m == 0 then 1 else m
  }

  /** The least multiple of 4 that is not below `size`. */
  function AlignedTo4(size: nat): (r: nat)
    ensures r % 4 == 0 && size <= r < size + 4
  {
    if size % 4 == 0 then size else (size / 4 + 1) * 4
  }

  /** What a page gives for `n` bytes of payload: the first free block that is large enough, or the front of the
      bucket. */
  ghost predicate Took(l0: Layout, l1: Layout, offset: nat, n: nat) {
    (exists i: nat :: FirstFitting(l0, i, n) && l0.free[i] == offset && l1 == Recycled(l0, i))
    || (offset == End(l0.tiles, l0.lens) && l1 == Inserted(l0, n + MMSIZ_HF_SIZE))
  }

  /** What a page gives, if it gives anything: where the bit of free blocks is on and one of them is large
      enough, the first such one; the bucket is cut otherwise. */
  ghost predicate TookBy(free_bit: bool, l0: Layout, l1: Layout, offset: nat, n: nat) {
    if free_bit && HasFree(l0, n)
    then exists i: nat :: FirstFitting(l0, i, n) && l0.free[i] == offset && l1 == Recycled(l0, i)
    else offset == End(l0.tiles, l0.lens) && l1 == Inserted(l0, n + MMSIZ_HF_SIZE)
  }

  /** The free list comes first: a block taken from it leaves the bucket as it is, and a block cut from the bucket
      means that no free block was on offer. */
  lemma FreeFirst(m: Mem, category_id: Word, l0: Layout, l1: Layout, free_bit: bool, offset: nat, n: nat)
    requires PageOk(m, category_id, l0) && TookBy(free_bit, l0, l1, offset, n)
    ensures Took(l0, l1, offset, n)
    ensures offset in l0.free <==> free_bit && HasFree(l0, n)
    ensures offset in l0.free ==>
      l1.lens == l0.lens && End(l1.tiles, l1.lens) == End(l0.tiles, l0.lens) && l0.lens[offset] >= n + MMSIZ_HF_SIZE
    ensures offset !in l0.free ==> l1.free == l0.free
  {
    hide Lists;
    hide Blocks;
    hide Fixtures;
    hide Total;
    var x := End(l0.tiles, l0.lens);
    if x in l0.lens { TileBounds(l0.tiles, l0.lens, x); }
    if l0.tiles != [] { TileBounds(l0.tiles, l0.lens, l0.tiles[|l0.tiles| - 1]); }
  }

  ghost predicate HasFree(l: Layout, n: nat) {
    exists i :: 0 < i < |l.free| && l.free[i] in l.lens && l.lens[l.free[i]] >= n + MMSIZ_HF_SIZE
  }

  ghost predicate HasBucket(l: Layout, n: nat) {
    End(l.tiles, l.lens) + n + MMSIZ_HF_SIZE <= BCKT_END
  }

  /** The page can serve the request from its free blocks or its bucket, and the bit of class `m` says so. */
  ghost predicate Serves(free_bit: bool, dc_bit: bool, l: Layout, n: nat) {
    (free_bit && HasFree(l, n)) || (dc_bit && HasBucket(l, n))
  }

  /** A block just taken: it is in use, inside the page, large enough, and overlaps no other block. */
  lemma TakenBlock(m0: Mem, m1: Mem, category_id: Word, l0: Layout, l1: Layout, offset: nat, n: nat)
    requires PageOk(m0, category_id, l0) && PageOk(m1, category_id, l1) && Took(l0, l1, offset, n) && n > 0
    ensures offset !in l0.used && l1.used == l0.used + [offset] && offset in l1.lens
    ensures l1.lens[offset] - MMSIZ_HF_SIZE >= n
    ensures MMPOS_BCKT_INIT <= offset && offset + l1.lens[offset] <= BCKT_END
    ensures forall o :: o in l1.lens && o != offset ==> o + l1.lens[o] <= offset || offset + l1.lens[offset] <= o
    ensures forall o :: o in l0.lens ==> o in l1.lens && l1.lens[o] == l0.lens[o]
  {
    hide Lists;
    hide Blocks;
    hide Fixtures;
    hide Total;
    assert l1.used[|l0.used|] == offset;
    TakenPlace(m0, category_id, l0, l1, offset, n);
    TileBounds(l1.tiles, l1.lens, offset);
    forall o | o in l1.lens && o != offset ensures o + l1.lens[o] <= offset || offset + l1.lens[offset] <= o {
      TilesApart(l1.tiles, l1.lens, o, offset);
    }
  }

  lemma TakenPlace(m0: Mem, category_id: Word, l0: Layout, l1: Layout, offset: nat, n: nat)
    requires PageOk(m0, category_id, l0) && Took(l0, l1, offset, n) && n > 0
    ensures offset !in l0.used && l1.used == l0.used + [offset] && offset in l1.lens
    ensures l1.lens[offset] - MMSIZ_HF_SIZE >= n
    ensures forall o :: o in l0.lens ==> o in l1.lens && l1.lens[o] == l0.lens[o]
  {
    hide Lists;
    hide Blocks;
    hide Fixtures;
    hide Total;
    var x := End(l0.tiles, l0.lens);
    if x in l0.lens { TileBounds(l0.tiles, l0.lens, x); }
    if l0.tiles != [] { TileBounds(l0.tiles, l0.lens, l0.tiles[|l0.tiles| - 1]); }
  }

  class Category {
    const id: Word
    const pages: seq<Page>
    const errpage_bmp: array<bool>
    const dc_bmp: array2<bool>
    const free_bmp: array2<bool>
    /** The sums over all pages, in the system page. */
    var use_size: nat
    var use_cnt: nat
    var free_size: nat
    var free_cnt: nat

    ghost function PageObjects(): (r: set<object>) {
      (set i | 0 <= i < |pages| :: pages[i] as object) + (set i | 0 <= i < |pages| :: pages[i].mem as object)
    }

    ghost predicate Shape() {
      |pages| == PAGE_CNT && errpage_bmp.Length == PAGE_CNT
      && dc_bmp.Length0 == free_bmp.Length0 == IPCSHM_BMPID_MAX && dc_bmp.Length1 == free_bmp.Length1 == PAGE_CNT
      && dc_bmp != free_bmp
      && (forall i, j :: 0 <= i < j < |pages| ==> pages[i] != pages[j] && pages[i].mem != pages[j].mem)
    }

    ghost predicate Valid()
      reads PageObjects()
    {
      Shape() && forall i :: 0 <= i < |pages| ==> pages[i].category_id == id && pages[i].Valid()
    }

    ghost function Layouts(): (r: seq<Layout>)
      reads PageObjects()
    {
      seq(|pages|, i requires 0 <= i < |pages| reads PageObjects() => pages[i].l)
    }

    ghost function Mems(): (r: seq<Mem>)
      reads PageObjects()
    {
      seq(|pages|, i requires 0 <= i < |pages| reads PageObjects() => pages[i].mem[..])
    }

    /** rebuild_pages_area on a new category file. */
    constructor (id: Word, now: Word)
      ensures Valid() && this.id == id && fresh(PageObjects()) && fresh(errpage_bmp) && fresh(dc_bmp) && fresh(free_bmp)
      ensures forall n :: 0 <= n < PAGE_CNT ==>
        Layouts()[n] == EMPTY_PAGE && !errpage_bmp[n] && Hinted(EMPTY_PAGE, BitsOf(n))
    {
      hide Page.Valid;
      this.id := id;
      var ps := NewPages(id, now);
      pages := ps;
      errpage_bmp := new bool[PAGE_CNT](_ => false);
      dc_bmp := new bool[IPCSHM_BMPID_MAX, PAGE_CNT]((_, _) => true);
      free_bmp := new bool[IPCSHM_BMPID_MAX, PAGE_CNT]((_, _) => false);
      use_size, use_cnt, free_size, free_cnt := 0, 0, 0, 0;
      new;
      hide Hinted;
      hide BitsOf;
      forall n | 0 <= n < PAGE_CNT ensures Hinted(EMPTY_PAGE, BitsOf(n)) { FreshHints(n); }
    }

    lemma FreshHints(n: nat)
      requires Shape() && n < PAGE_CNT && forall m :: 0 <= m < IPCSHM_BMPID_MAX ==> dc_bmp[m, n] && !free_bmp[m, n]
      ensures Hinted(EMPTY_PAGE, BitsOf(n))
    {
    }

    /** One page's part of shmalloc for bitmap class `m`. */
    method AllocateIn(n: nat, m: nat, aligned_size: nat, now: Word) returns (offset: nat)
      requires Valid() && n < PAGE_CNT && m < IPCSHM_BMPID_MAX && aligned_size >= 4 && aligned_size % 4 == 0
      modifies pages[n], pages[n].mem
      ensures Valid() && offset < PAGE_SIZE
      ensures Layouts() == old(Layouts())[n := pages[n].l] && Mems() == old(Mems())[n := pages[n].mem[..]]
      ensures offset == 0 ==> Layouts() == old(Layouts()) && Mems() == old(Mems())
      ensures offset != 0 ==> Took(old(Layouts())[n], Layouts()[n], offset, aligned_size)
      ensures offset != 0 ==> TookIn(old(Layouts()), Layouts(), aligned_size, m, n, offset)
      ensures PayloadsKept(old(Mems())[n], Mems()[n], old(Layouts())[n].lens)
      ensures offset != 0 <==> ServesIn(old(Layouts()), aligned_size, m, n)
    {
      hide Page.Valid;
      hide Took;
      hide TookBy;
      hide PayloadsKept;
      ghost var ls, ms, l := Layouts(), Mems(), pages[n].l;
      offset := TakeBlock(pages[n], free_bmp[m, n], dc_bmp[DcClass(m), n], aligned_size, now);
      assert Layouts() == ls[n := pages[n].l];
      assert Mems() == ms[n := pages[n].mem[..]];
    }
  
    /** Page `p`, not marked as erroneous, can serve the request in class `m`. */
    ghost predicate ServedAt(ls: seq<Layout>, n: nat, m: nat, p: nat)
      requires Shape() && |ls| == PAGE_CNT
      reads errpage_bmp, dc_bmp, free_bmp
    {
      m < IPCSHM_BMPID_MAX && IPCSHM_PAGE_USRAREA <= p < PAGE_CNT && !errpage_bmp[p]
      && ServesIn(ls, n, m, p)
    }

    /** The bits of class `m` lead to a block in page `p`. */
    ghost predicate ServesIn(ls: seq<Layout>, n: nat, m: nat, p: nat)
      requires Shape() && |ls| == PAGE_CNT && m < IPCSHM_BMPID_MAX && p < PAGE_CNT
      reads dc_bmp, free_bmp
    {
      Serves(free_bmp[m, p], dc_bmp[DcClass(m), p], ls[p], n)
    }

    ghost predicate CanServe(ls: seq<Layout>, n: nat)
      requires Shape() && |ls| == PAGE_CNT
      reads errpage_bmp, dc_bmp, free_bmp
    {
      exists m, p :: StartClass(n) <= m && ServedAt(ls, n, m, p)
    }

    /** Class `m` and page `p` are the first that can serve the request: the least class above all, in it the least
        page. */
    ghost predicate ServesFirst(ls: seq<Layout>, n: nat, m: nat, p: nat)
      requires Shape() && |ls| == PAGE_CNT
      reads errpage_bmp, dc_bmp, free_bmp
    {
      StartClass(n) <= m && ServedAt(ls, n, m, p) && NoneBefore(ls, n, m, p)
    }

    /** The block comes from the first page that can serve the request, as the bit that led there says. */
    ghost predicate TookFirst(ls: seq<Layout>, ls': seq<Layout>, n: nat, p: nat, offset: nat)
      requires Shape() && |ls| == |ls'| == PAGE_CNT && p < PAGE_CNT
      reads errpage_bmp, dc_bmp, free_bmp
    {
      exists m: nat :: m < IPCSHM_BMPID_MAX && ServesFirst(ls, n, m, p) && TookIn(ls, ls', n, m, p, offset)
    }

    ghost predicate TookIn(ls: seq<Layout>, ls': seq<Layout>, n: nat, m: nat, p: nat, offset: nat)
      requires Shape() && |ls| == |ls'| == PAGE_CNT && m < IPCSHM_BMPID_MAX && p < PAGE_CNT
      reads free_bmp
    {
      TookBy(free_bmp[m, p], ls[p], ls'[p], offset, n)
    }

    /** No class below `m`, and no page before `p` in class `m` itself, can serve the request. */
    ghost predicate NoneBefore(ls: seq<Layout>, n: nat, m: nat, p: nat)
      requires Shape() && |ls| == PAGE_CNT
      reads errpage_bmp, dc_bmp, free_bmp
    {
      && (forall k: nat, q: nat :: StartClass(n) <= k < m ==> !ServedAt(ls, n, k, q))
      && forall q: nat :: q < p ==> !ServedAt(ls, n, m, q)
    }

    lemma NextPage(ls: seq<Layout>, n: nat, m: nat, p: nat)
      requires Shape() && |ls| == PAGE_CNT && NoneBefore(ls, n, m, p)
      ensures !ServedAt(ls, n, m, p) ==> NoneBefore(ls, n, m, p + 1)
      ensures StartClass(n) <= m && ServedAt(ls, n, m, p) ==> ServesFirst(ls, n, m, p) && CanServe(ls, n)
    {
      hide ServedAt;
    }

    lemma NextClass(ls: seq<Layout>, n: nat, m: nat)
      requires Shape() && |ls| == PAGE_CNT
      ensures NoneBefore(ls, n, m, PAGE_CNT) ==> NoneBefore(ls, n, m + 1, IPCSHM_PAGE_USRAREA)
      ensures NoneBefore(ls, n, StartClass(n), IPCSHM_PAGE_USRAREA)
      ensures NoneBefore(ls, n, IPCSHM_BMPID_MAX, IPCSHM_PAGE_USRAREA) ==> !CanServe(ls, n)
    {
      hide Serves;
    }

    /** shmalloc: a block of at least `size` bytes, if the pages that the bitmaps point to have one. */
    method Shmalloc(size: nat, now: Word) returns (r: Allocation)
      requires Valid()
      modifies PageObjects()
      ensures Valid()
      ensures r.BlockAt? <==> 0 < size <= 2048 && CanServe(old(Layouts()), AlignedTo4(size))
      ensures r.NoBlock? ==> Layouts() == old(Layouts()) && Mems() == old(Mems())
      ensures r.BlockAt? ==>
        IPCSHM_PAGE_USRAREA <= r.page_id < PAGE_CNT && !errpage_bmp[r.page_id] && r.offset < PAGE_SIZE
      ensures r.BlockAt? ==> Took(old(Layouts())[r.page_id], Layouts()[r.page_id], r.offset, AlignedTo4(size))
      ensures r.BlockAt? ==> TookFirst(old(Layouts()), Layouts(), AlignedTo4(size), r.page_id, r.offset)
      ensures r.BlockAt? ==> PayloadsKept(old(Mems())[r.page_id], Mems()[r.page_id], old(Layouts())[r.page_id].lens)
      ensures r.BlockAt? ==>
        Layouts() == old(Layouts())[r.page_id := Layouts()[r.page_id]]
        && Mems() == old(Mems())[r.page_id := Mems()[r.page_id]]
    {
      hide Page.Valid;
      hide Took;
      hide TookBy;
      hide PayloadsKept;
      hide Serves;
      hide CanServe;
      hide NoneBefore;
      hide ServesFirst;
      if size == 0 || size > 2048 {
        return NoBlock;
      }
      ghost var ls := Layouts();
      var aligned_size := AlignedTo4(size);
      var m := StartClass(aligned_size);
      NextClass(ls, aligned_size, m);
      while m < IPCSHM_BMPID_MAX
        invariant StartClass(aligned_size) <= m <= IPCSHM_BMPID_MAX
        invariant Valid() && Layouts() == old(Layouts()) && Mems() == old(Mems())
        invariant NoneBefore(ls, aligned_size, m, IPCSHM_PAGE_USRAREA)
      {
        var n := IPCSHM_PAGE_USRAREA;
        while n < PAGE_CNT
          invariant IPCSHM_PAGE_USRAREA <= n <= PAGE_CNT
          invariant Valid() && Layouts() == old(Layouts()) && Mems() == old(Mems())
          invariant NoneBefore(ls, aligned_size, m, n)
        {
          NextPage(ls, aligned_size, m, n);
          if !errpage_bmp[n] {
            var offset := AllocateIn(n, m, aligned_size, now);
            if offset != 0 {
              assert ServedAt(ls, aligned_size, m, n);
              return if offset > PAGE_SIZE then NoBlock else BlockAt(n, offset);
            }
          }
          n := n + 1;
        }
        NextClass(ls, aligned_size, m);
        m := m + 1;
      }
      NextClass(ls, aligned_size, m);
      r := NoBlock;
    }

    /** One page's part of shmfree; `target` is the address of the block relative to this page. */
    method FreeIn(n: nat, target: int) returns (found: bool)
      requires Valid() && n < PAGE_CNT && target != MMPOS_USED_ROOT
      modifies pages[n], pages[n].mem
      ensures Valid()
      ensures Layouts() == old(Layouts())[n := pages[n].l] && Mems() == old(Mems())[n := pages[n].mem[..]]
      ensures found <==> target in old(Layouts())[n].used
      ensures found ==> FreedFrom(old(Layouts())[n], Layouts()[n], target)
      ensures !found ==> Layouts() == old(Layouts()) && Mems() == old(Mems())
      ensures PayloadsKept(old(Mems())[n], Mems()[n], old(Layouts())[n].lens)
    {
      hide Page.Valid;
      hide PayloadsKept;
      ghost var ls, ms := Layouts(), Mems();
      found := pages[n].FreeItem(target);
      assert Layouts() == ls[n := pages[n].l];
      assert Mems() == ms[n := pages[n].mem[..]];
    }

    /** shmfree of the block whose header is at `offset` of page `page_id`: a block in use becomes the
        last of the free blocks; for any other address, a block already free among them, nothing changes. */
    method Shmfree(page_id: nat, offset: nat)
      requires Valid() && IPCSHM_PAGE_USRAREA <= page_id < PAGE_CNT && offset != MMPOS_USED_ROOT
      modifies PageObjects()
      ensures Valid()
      ensures offset in old(Layouts())[page_id].used && !errpage_bmp[page_id] ==>
        FreedFrom(old(Layouts())[page_id], Layouts()[page_id], offset)
        && Layouts() == old(Layouts())[page_id := Layouts()[page_id]]
        && Mems() == old(Mems())[page_id := Mems()[page_id]]
      ensures offset !in old(Layouts())[page_id].used || errpage_bmp[page_id] ==>
        Layouts() == old(Layouts()) && Mems() == old(Mems())
      ensures PayloadsKept(old(Mems())[page_id], Mems()[page_id], old(Layouts())[page_id].lens)
    {
      hide PageOk;
      hide PayloadsKept;
      hide FreedFrom;
      ghost var ls, ms := Layouts(), Mems();
      NothingWritten(ms[page_id], ls[page_id].lens);
      if offset in ls[page_id].used {
        UsedBlockOk(ms[page_id], id, ls[page_id], offset);
      }
      var mem := pages[page_id].mem[..];
      assert mem == ms[page_id];
      if !ItemOk(mem, offset, MMSIG_USED) || mem[offset + LEN] <= MMSIZ_HF_SIZE { return; }
      if mem[offset + mem[offset + LEN] - FOOT_SIZE + CATEGORY] != id { return; }
      assert offset < PAGE_SIZE by { PageSize(ms[page_id], id, ls[page_id]); }
      hide ItemOk;
      var n := IPCSHM_PAGE_USRAREA;
      while n < PAGE_CNT
        invariant IPCSHM_PAGE_USRAREA <= n <= PAGE_CNT && Valid() && Layouts() == ls && Mems() == ms
        invariant n > page_id ==> offset !in ls[page_id].used || errpage_bmp[page_id]
      {
        if !errpage_bmp[n] {
          OwnPageOnly(ms[n], id, ls[n], offset, page_id, n);
          var found := FreeIn(n, offset + (page_id - n) * PAGE_SIZE);
          if found { return; }
        }
        n := n + 1;
      }
    }
  
    /** The bits of page `n`. */
    ghost function BitsOf(n: nat): (r: Marks)
      requires Shape() && n < PAGE_CNT
      reads dc_bmp, free_bmp
    {
      Marks(seq(IPCSHM_BMPID_MAX, m requires 0 <= m < IPCSHM_BMPID_MAX reads dc_bmp => dc_bmp[m, n]),
        seq(IPCSHM_BMPID_MAX, m requires 0 <= m < IPCSHM_BMPID_MAX reads free_bmp => free_bmp[m, n]))
    }

    /** PAGEBIT_OFF for one page, in all bitmaps of unused areas and of free blocks. */
    method ClearBits(n: nat)
      requires Shape() && n < PAGE_CNT
      modifies dc_bmp, free_bmp
      ensures forall m, p :: 0 <= m < IPCSHM_BMPID_MAX && 0 <= p < PAGE_CNT ==>
        dc_bmp[m, p] == (old(dc_bmp[m, p]) && p != n) && free_bmp[m, p] == (old(free_bmp[m, p]) && p != n)
    {
      for i := 0 to IPCSHM_BMPID_MAX
        invariant forall m, p :: 0 <= m < IPCSHM_BMPID_MAX && 0 <= p < PAGE_CNT ==>
          dc_bmp[m, p] == (old(dc_bmp[m, p]) && (p != n || m >= i))
          && free_bmp[m, p] == (old(free_bmp[m, p]) && (p != n || m >= i))
      {
        dc_bmp[i, n] := false;
        free_bmp[i, n] := false;
      }
    }

    /** _rebuild_bitmap_and_pagesummary, for free blocks and unused area: sums, bits, and a fresh
        bucket for a page without blocks in use. It never fails. */
    method RebuildPage(n: nat, now: Word) returns (ok: bool)
      requires Valid() && IPCSHM_PAGE_USRAREA <= n < PAGE_CNT
      modifies pages[n], pages[n].mem, dc_bmp, free_bmp
      ensures ok && Valid() && Hinted(pages[n].l, BitsOf(n))
      ensures Layouts() == old(Layouts())[n := RebuiltLayout(old(Layouts())[n])]
      ensures forall p :: 0 <= p < PAGE_CNT && p != n ==> Mems()[p] == old(Mems())[p]
      ensures SumsStored(Mems()[n], Layouts()[n])
      ensures |old(Layouts())[n].used| > 1 ==> PayloadsKept(old(Mems())[n], Mems()[n], old(Layouts())[n].lens)
      ensures forall p :: 0 <= p < PAGE_CNT && p != n ==> BitsOf(p) == old(BitsOf(p))
    {
      hide PageOk;
      hide PayloadsKept;
      hide SumsStored;
      hide ClassFree;
      hide RebuiltLayout;
      ghost var ls, ms, l := Layouts(), Mems(), pages[n].l;
      ClearBits(n);
      ok := RebuildBits(n, now);
      assert Layouts() == ls[n := pages[n].l];
      assert Mems() == ms[n := pages[n].mem[..]];
    }

    /** The part behind the clearing of the bits. */
    method RebuildBits(n: nat, now: Word) returns (ok: bool)
      requires Shape() && IPCSHM_PAGE_USRAREA <= n < PAGE_CNT && pages[n].Valid()
      requires forall m :: 0 <= m < IPCSHM_BMPID_MAX ==> !dc_bmp[m, n] && !free_bmp[m, n]
      modifies pages[n], pages[n].mem, dc_bmp, free_bmp
      ensures ok && pages[n].Valid() && Hinted(pages[n].l, BitsOf(n))
      ensures pages[n].l == RebuiltLayout(old(pages[n].l)) && SumsStored(pages[n].mem[..], pages[n].l)
      ensures |old(pages[n].l).used| > 1 ==> PayloadsKept(old(pages[n].mem[..]), pages[n].mem[..], old(pages[n].l).lens)
      ensures forall m, p :: 0 <= m < IPCSHM_BMPID_MAX && 0 <= p < PAGE_CNT && p != n ==>
        dc_bmp[m, p] == old(dc_bmp[m, p]) && free_bmp[m, p] == old(free_bmp[m, p])
    {
      hide PageOk;
      hide PayloadsKept;
      hide ClassFree;
      hide Chain;
      hide RootBlock;
      ghost var m, l, category_id := pages[n].mem[..], pages[n].l, pages[n].category_id;
      var freesize, freecnt, usesize, usecnt;
      ok, freesize, freecnt := pages[n].SumFree(free_bmp, n);
      if !ok { return; }
      ok, usesize, usecnt := pages[n].SumUsed();
      if !ok { return; }
      SumsFit(m, category_id, l);
      MarkClasses(dc_bmp, n, SizeClass(DcRemain(usesize, usecnt)));
      pages[n].StoreSums(usesize, usecnt, freesize, freecnt);
      if usesize == 0 {
        ghost var m1 := pages[n].mem[..];
        NoBlocksUsed(m1, category_id, l);
        pages[n].ShrinkBucket(now);
        AllHints(n);
      }
    }

    /** One page of rebuild_page_statics. */
    method RebuildOne(n: nat, now: Word)
      requires Valid() && IPCSHM_PAGE_USRAREA <= n < PAGE_CNT
      modifies this, pages[n], pages[n].mem, errpage_bmp, dc_bmp, free_bmp
      ensures Valid() && Rebuilt(old(Layouts())[n], Layouts()[n], old(Mems())[n], Mems()[n], BitsOf(n))
      ensures !errpage_bmp[n] && forall p :: 0 <= p < PAGE_CNT && p != n ==> errpage_bmp[p] == old(errpage_bmp[p])
      ensures Layouts() == old(Layouts())[n := RebuiltLayout(old(Layouts())[n])]
      ensures forall p :: 0 <= p < PAGE_CNT && p != n ==> Mems()[p] == old(Mems())[p] && BitsOf(p) == old(BitsOf(p))
      ensures use_size == old(use_size) + UsedSum(Layouts()[n]) && use_cnt == old(use_cnt) + UsedCount(Layouts()[n])
      ensures free_size == old(free_size) + FreeSum(Layouts()[n]) && free_cnt == old(free_cnt) + FreeCount(Layouts()[n])
    {
      hide Page.Valid;
      hide PayloadsKept;
      hide RebuiltLayout;
      hide UsedSum;
      hide FreeSum;
      hide Hinted;
      hide BitsOf;
      var ok := RebuildPage(n, now);
      errpage_bmp[n] := !ok;
      if ok {
        var mem := pages[n].mem;
        assert Mems()[n] == mem[..];
        use_size := use_size + mem[MMPOS_USED_ROOT + USE_BYTES];
        use_cnt := use_cnt + mem[MMPOS_USED_ROOT + USE_CNT];
        free_size := free_size + mem[MMPOS_FREE_ROOT + FREE_BYTES];
        free_cnt := free_cnt + mem[MMPOS_FREE_ROOT + FREE_CNT];
      }
    }

    /** rebuild_page_statics: afterwards no page is marked as erroneous, all bits and sums are those of
        the pages, and the system page holds their totals. */
    method Rebuild(now: Word)
      requires Valid()
      modifies this, PageObjects(), errpage_bmp, dc_bmp, free_bmp
      ensures Valid()
      ensures forall n :: IPCSHM_PAGE_USRAREA <= n < PAGE_CNT ==> !errpage_bmp[n]
      ensures forall n :: IPCSHM_PAGE_USRAREA <= n < PAGE_CNT ==>
        Rebuilt(old(Layouts())[n], Layouts()[n], old(Mems())[n], Mems()[n], BitsOf(n))
      ensures Totals(Layouts(), PAGE_CNT, use_size, use_cnt, free_size, free_cnt)
    {
      hide Page.Valid;
      hide PayloadsKept;
      hide RebuiltLayout;
      hide Rebuilt;
      hide BitsOf;
      hide UsedSum;
      hide FreeSum;
      hide UsedCount;
      hide FreeCount;
      hide Totals;
      hide PagesDone;
      ghost var ls, ms := Layouts(), Mems();
      use_size, use_cnt, free_size, free_cnt := 0, 0, 0, 0;
      TotalsStart(ls);
      NoneDone(ls, ms, AllBits());
      var n := IPCSHM_PAGE_USRAREA;
      while n < PAGE_CNT
        invariant IPCSHM_PAGE_USRAREA <= n <= PAGE_CNT && Valid()
        invariant forall p :: IPCSHM_PAGE_USRAREA <= p < n ==> !errpage_bmp[p]
        invariant PagesDone(ls, Layouts(), ms, Mems(), AllBits(), n)
        invariant Totals(Layouts(), n, use_size, use_cnt, free_size, free_cnt)
      {
        ghost var l1, m1, k1, us, uc, fs, fc := Layouts(), Mems(), AllBits(), use_size, use_cnt, free_size, free_cnt;
        StillToDo(ls, l1, ms, m1, k1, n);
        RebuildOne(n, now);
        OneDone(ls, l1, Layouts(), ms, m1, Mems(), k1, AllBits(), n);
        TotalsStep(l1, Layouts(), n, us, uc, fs, fc);
        n := n + 1;
      }
      AllDone(ls, Layouts(), ms, Mems(), AllBits());
    }

    /** The bits of all pages. */
    ghost function AllBits(): (r: seq<Marks>)
      requires Shape()
      reads dc_bmp, free_bmp
    {
      seq(PAGE_CNT, n requires 0 <= n < PAGE_CNT reads dc_bmp, free_bmp => BitsOf(n))
    }

    /** Recycle hints are complete: with the bits of a rebuild, a free block that is large enough is found. */
    lemma RecycleComplete(ls: seq<Layout>, p: nat, n: nat)
      requires Shape() && |ls| == PAGE_CNT && IPCSHM_PAGE_USRAREA <= p < PAGE_CNT && !errpage_bmp[p]
      requires Hinted(ls[p], BitsOf(p)) && HasFree(ls[p], n)
      ensures CanServe(ls, n) && ServedSomewhere(ls, n, p)
    {
      var l, m := ls[p], StartClass(n);
      var i :| 0 < i < |l.free| && l.free[i] in l.lens && l.lens[l.free[i]] >= n + MMSIZ_HF_SIZE;
      ClassesAgree(n, Payload(l.lens[l.free[i]]));
      assert ClassFree(l, m, |l.free|);
      assert BitsOf(p).free[m] == free_bmp[m, p];
      assert ServedAt(ls, n, m, p);
    }

    /** The first user page, where it has a free block that is large enough and bits of a rebuild, serves first. */
    lemma FirstPageServes(ls: seq<Layout>, n: nat)
      requires Shape() && |ls| == PAGE_CNT && !errpage_bmp[IPCSHM_PAGE_USRAREA]
      requires Hinted(ls[IPCSHM_PAGE_USRAREA], BitsOf(IPCSHM_PAGE_USRAREA)) && HasFree(ls[IPCSHM_PAGE_USRAREA], n)
      ensures CanServe(ls, n) && free_bmp[StartClass(n), IPCSHM_PAGE_USRAREA]
      ensures ServesFirst(ls, n, StartClass(n), IPCSHM_PAGE_USRAREA)
    {
      var l, m := ls[IPCSHM_PAGE_USRAREA], StartClass(n);
      var i :| 0 < i < |l.free| && l.free[i] in l.lens && l.lens[l.free[i]] >= n + MMSIZ_HF_SIZE;
      ClassesAgree(n, Payload(l.lens[l.free[i]]));
      assert ClassFree(l, m, |l.free|);
      assert BitsOf(IPCSHM_PAGE_USRAREA).free[m] == free_bmp[m, IPCSHM_PAGE_USRAREA];
      assert ServedAt(ls, n, m, IPCSHM_PAGE_USRAREA);
    }

    lemma TakenInFirstPage(ls: seq<Layout>, ls': seq<Layout>, n: nat, p: nat, offset: nat)
      requires Shape() && |ls| == |ls'| == PAGE_CNT && !errpage_bmp[IPCSHM_PAGE_USRAREA]
      requires Hinted(ls[IPCSHM_PAGE_USRAREA], BitsOf(IPCSHM_PAGE_USRAREA)) && HasFree(ls[IPCSHM_PAGE_USRAREA], n)
      requires p < PAGE_CNT && TookFirst(ls, ls', n, p, offset)
      ensures p == IPCSHM_PAGE_USRAREA && TookBy(true, ls[p], ls'[p], offset, n)
    {
      FirstPageServes(ls, n);
      hide HasFree;
      hide Hinted;
      hide TookBy;
      hide Serves;
    }

    /** A fresh page serves every legal request. */
    lemma FreshServes(ls: seq<Layout>, p: nat, n: nat)
      requires Shape() && |ls| == PAGE_CNT && IPCSHM_PAGE_USRAREA <= p < PAGE_CNT && !errpage_bmp[p]
      requires Hinted(ls[p], BitsOf(p)) && ls[p] == EMPTY_PAGE && n <= 2048
      ensures CanServe(ls, n) && ServedSomewhere(ls, n, p)
    {
      var m := StartClass(n);
      assert BitsOf(p).dc[DcClass(m)] == dc_bmp[DcClass(m), p];
      assert ServedAt(ls, n, m, p);
    }

    /** Exactly when a page with the bits of a rebuild serves a request in some class that is searched. */
    lemma PageServes(ls: seq<Layout>, p: nat, n: nat)
      requires Shape() && |ls| == PAGE_CNT && IPCSHM_PAGE_USRAREA <= p < PAGE_CNT && !errpage_bmp[p] && n <= 2048
      requires Hinted(ls[p], BitsOf(p)) && Summed(ls[p])
      ensures ServedSomewhere(ls, n, p) <==> HasFree(ls[p], n) || (HasBucket(ls[p], n) && DcHinted(ls[p], n))
    {
      var l, m := ls[p], StartClass(n);
      DcHintIff(UsedSum(l), UsedCount(l), n);
      hide UsedSum;
      hide UsedCount;
      hide DcRemain;
      hide HasBucket;
      if HasFree(l, n) {
        RecycleComplete(ls, p, n);
      }
      hide HasFree;
      hide ClassFree;
      assert forall k :: 0 <= k < IPCSHM_BMPID_MAX ==> BitsOf(p).dc[k] == dc_bmp[k, p];
      if HasBucket(l, n) && DcHinted(l, n) {
        assert dc_bmp[DcClass(m), p];
        assert ServedAt(ls, n, m, p);
      }
      if k: nat :| m <= k && ServedAt(ls, n, k, p) && !HasFree(l, n) {
        assert dc_bmp[DcClass(k), p] && DcClass(m) <= DcClass(k);
      }
    }

    ghost predicate ServedSomewhere(ls: seq<Layout>, n: nat, p: nat)
      requires Shape() && |ls| == PAGE_CNT
      reads errpage_bmp, dc_bmp, free_bmp
    {
      exists m :: StartClass(n) <= m && ServedAt(ls, n, m, p)
    }

    /** The bits of a rebuild lead to a block exactly where the pages before it promise one. */
    lemma ServesAfterRebuild(ls: seq<Layout>, ls': seq<Layout>, ms: seq<Mem>, ms': seq<Mem>, n: nat)
      requires Shape() && |ls| == |ls'| == |ms| == |ms'| == PAGE_CNT && n <= 2048
      requires forall p :: IPCSHM_PAGE_USRAREA <= p < PAGE_CNT ==> !errpage_bmp[p] && Summed(ls[p])
      requires forall p :: IPCSHM_PAGE_USRAREA <= p < PAGE_CNT ==> Rebuilt(ls[p], ls'[p], ms[p], ms'[p], BitsOf(p))
      ensures CanServe(ls', n) <==> SomePromises(ls, n)
    {
      hide HasFree;
      hide BitsOf;
      hide HasBucket;
      hide DcHinted;
      hide ServedAt;
      hide Summed;
      hide Hinted;
      forall p | IPCSHM_PAGE_USRAREA <= p < PAGE_CNT ensures ServedSomewhere(ls', n, p) <==> Promises(ls[p], n) {
        if |ls[p].used| <= 1 {
          FreshServes(ls', p, n);
        } else {
          PageServes(ls', p, n);
        }
      }
      assert CanServe(ls', n) <==> exists p :: IPCSHM_PAGE_USRAREA <= p < PAGE_CNT && ServedSomewhere(ls', n, p) by {
        ServedPages(ls', n);
      }
    }

    lemma ServedPages(ls: seq<Layout>, n: nat)
      requires Shape() && |ls| == PAGE_CNT
      ensures CanServe(ls, n) <==> exists p :: IPCSHM_PAGE_USRAREA <= p < PAGE_CNT && ServedSomewhere(ls, n, p)
    {
      hide Serves;
      if CanServe(ls, n) {
        var m: nat, p: nat :| StartClass(n) <= m && ServedAt(ls, n, m, p);
        assert ServedSomewhere(ls, n, p);
      }
    }

    /** The bits of a fresh page: every class of unused area, no free blocks. */
    method AllHints(n: nat)
      requires Shape() && n < PAGE_CNT
      modifies dc_bmp, free_bmp
      ensures Hinted(EMPTY_PAGE, BitsOf(n))
      ensures forall m, p :: 0 <= m < IPCSHM_BMPID_MAX && 0 <= p < PAGE_CNT && p != n ==>
        dc_bmp[m, p] == old(dc_bmp[m, p]) && free_bmp[m, p] == old(free_bmp[m, p])
    {
      ClearBits(n);
      MarkClasses(dc_bmp, n, IPCSHM_BMPID_MAX - 1);
    }
  }

  // ---- the pages of a rebuild, one by one ----

  /** The user pages below `n` are rebuilt, the others are as they were. */
  ghost predicate PagesDone(l0: seq<Layout>, l1: seq<Layout>, m0: seq<Mem>, m1: seq<Mem>, k: seq<Marks>, n: nat) {
    && |l0| == |l1| == |m0| == |m1| == |k| == PAGE_CNT
    && (forall p :: IPCSHM_PAGE_USRAREA <= p < n && p < PAGE_CNT ==> Rebuilt(l0[p], l1[p], m0[p], m1[p], k[p]))
    && forall p :: n <= p < PAGE_CNT ==> l1[p] == l0[p] && m1[p] == m0[p]
  }

  lemma NoneDone(l0: seq<Layout>, m0: seq<Mem>, k: seq<Marks>)
    requires |l0| == |m0| == |k| == PAGE_CNT
    ensures PagesDone(l0, l0, m0, m0, k, IPCSHM_PAGE_USRAREA)
  {
  }

  lemma StillToDo(l0: seq<Layout>, l1: seq<Layout>, m0: seq<Mem>, m1: seq<Mem>, k: seq<Marks>, n: nat)
    requires PagesDone(l0, l1, m0, m1, k, n) && n < PAGE_CNT
    ensures |l0| == |l1| == |m0| == |m1| == PAGE_CNT && l1[n] == l0[n] && m1[n] == m0[n]
  {
  }

  lemma OneDone(l0: seq<Layout>, l1: seq<Layout>, l2: seq<Layout>, m0: seq<Mem>, m1: seq<Mem>, m2: seq<Mem>,
                k1: seq<Marks>, k2: seq<Marks>, n: nat)
    requires PagesDone(l0, l1, m0, m1, k1, n) && IPCSHM_PAGE_USRAREA <= n < PAGE_CNT && |m2| == |k2| == |l2| == PAGE_CNT
    requires forall p :: 0 <= p < PAGE_CNT && p != n ==> l2[p] == l1[p] && m2[p] == m1[p] && k2[p] == k1[p]
    requires Rebuilt(l0[n], l2[n], m0[n], m2[n], k2[n])
    ensures PagesDone(l0, l2, m0, m2, k2, n + 1)
  {
    hide Rebuilt;
  }

  lemma AllDone(l0: seq<Layout>, l1: seq<Layout>, m0: seq<Mem>, m1: seq<Mem>, k: seq<Marks>)
    requires PagesDone(l0, l1, m0, m1, k, PAGE_CNT)
    ensures |l0| == |l1| == |m0| == |m1| == |k| == PAGE_CNT
    ensures forall p :: IPCSHM_PAGE_USRAREA <= p < PAGE_CNT ==> Rebuilt(l0[p], l1[p], m0[p], m1[p], k[p])
  {
  }

  /** The sum over the user pages below `n`. */
  ghost function SumOver(ls: seq<Layout>, f: Layout -> nat, n: nat): (r: nat)
    requires n <= |ls|
  {
    if n <= IPCSHM_PAGE_USRAREA then 0 else SumOver(ls, f, n - 1) + f(ls[n - 1])
  }

  lemma {:induction false} SumOverSame(ls: seq<Layout>, ls': seq<Layout>, f: Layout -> nat, n: nat)
    requires n <= |ls| == |ls'| && forall p :: 0 <= p < n ==> ls'[p] == ls[p]
    ensures SumOver(ls', f, n) == SumOver(ls, f, n)
  {
    if n > IPCSHM_PAGE_USRAREA { SumOverSame(ls, ls', f, n - 1); }
  }

  /** The sums over the user pages below `n`: lengths and numbers of blocks in use and of free blocks. */
  ghost predicate Totals(ls: seq<Layout>, n: nat, use_size: nat, use_cnt: nat, free_size: nat, free_cnt: nat) {
    n <= |ls| && use_size == SumOver(ls, UsedSum, n) && use_cnt == SumOver(ls, UsedCount, n)
    && free_size == SumOver(ls, FreeSum, n) && free_cnt == SumOver(ls, FreeCount, n)
  }

  lemma TotalsStart(ls: seq<Layout>)
    requires |ls| >= IPCSHM_PAGE_USRAREA
    ensures Totals(ls, IPCSHM_PAGE_USRAREA, 0, 0, 0, 0)
  {
  }

  lemma TotalsStep(ls: seq<Layout>, ls': seq<Layout>, n: nat, us: nat, uc: nat, fs: nat, fc: nat)
    requires Totals(ls, n, us, uc, fs, fc) && IPCSHM_PAGE_USRAREA <= n < |ls| == |ls'|
    requires forall p :: 0 <= p < n ==> ls'[p] == ls[p]
    ensures Totals(ls', n + 1, us + UsedSum(ls'[n]), uc + UsedCount(ls'[n]),
      fs + FreeSum(ls'[n]), fc + FreeCount(ls'[n]))
  {
    SumOverSame(ls, ls', UsedSum, n);
    SumOverSame(ls, ls', UsedCount, n);
    SumOverSame(ls, ls', FreeSum, n);
    SumOverSame(ls, ls', FreeCount, n);
  }

  /** The blocks of a list without its root. */
  ghost function UsedCount(l: Layout): (r: nat) {
    if l.used == [] then 0 else |l.used| - 1
  }

  ghost function FreeCount(l: Layout): (r: nat) {
    if l.free == [] then 0 else |l.free| - 1
  }

  /** The lengths of the blocks in use, as far as they have one. */
  ghost function UsedSum(l: Layout): (r: nat) {
    if forall i :: 0 < i < |l.used| ==> l.used[i] in l.lens then Total(l.used, l.lens) else 0
  }

  ghost function FreeSum(l: Layout): (r: nat) {
    if forall i :: 0 < i < |l.free| ==> l.free[i] in l.lens then Total(l.free, l.lens) else 0
  }

  /** What the rebuild takes for the unused area, a 32-bit number: it subtracts the headers a second time. */
  function DcRemain(used_size: nat, used_count: nat): (r: nat) {
    (MMSIZ_BCKT_INIT_SIZE - used_size - used_count * MMSIZ_HF_SIZE) % UINT32
  }

  /** The size that a request is rounded down to by its size class. */
  function ClassFloor(n: nat): (m: nat) {
    if n > 0x0200 then 0x0200 else if n > 0x0080 then 0x0080 else 0x0020
  }

  /** The bit of unused area is on for a request of `n` bytes: the twice subtracted headers leave more than the
      least size of its class, or they make the 32-bit difference wrap. */
  ghost predicate DcHinted(l: Layout, n: nat) {
    var taken := UsedSum(l) + UsedCount(l) * MMSIZ_HF_SIZE;
    taken > MMSIZ_BCKT_INIT_SIZE || taken + ClassFloor(n) < MMSIZ_BCKT_INIT_SIZE
  }

  /** When the bit of unused area is on for a request of `n` bytes. */
  lemma DcHintIff(used_size: nat, used_count: nat, n: nat)
    requires used_size <= MMSIZ_BCKT_INIT_SIZE && used_count * MIN_BLOCK <= used_size
    ensures SizeClass(DcRemain(used_size, used_count)) >= DcClass(StartClass(n)) <==>
      (used_size + used_count * MMSIZ_HF_SIZE > MMSIZ_BCKT_INIT_SIZE
       || used_size + used_count * MMSIZ_HF_SIZE + ClassFloor(n) < MMSIZ_BCKT_INIT_SIZE)
  {
  }

  /** The sums over the blocks in use stay inside the area of a page. */
  ghost predicate Summed(l: Layout) {
    UsedSum(l) <= MMSIZ_BCKT_INIT_SIZE && UsedCount(l) * MIN_BLOCK <= UsedSum(l)
  }

  lemma SummedPage(m: Mem, category_id: Word, l: Layout)
    requires PageOk(m, category_id, l)
    ensures Summed(l)
  {
    hide Total;
    hide Tiled;
    hide Chain;
    hide Blocks;
    hide Fixtures;
    SumsFit(m, category_id, l);
    LensBound(l);
    CountBound(l.used, l.lens);
  }

  /** The hint is incomplete: a page of 1924 blocks of 4 bytes has room in its bucket for any request,
      but the rebuild sets none of its bits of unused area. */
  method ManySmallBlocks(now: Word) returns (p: Page)
    ensures p.Valid() && HasBucket(p.l, 2048) && SizeClass(DcRemain(UsedSum(p.l), UsedCount(p.l))) == 0
  {
    hide PageOk;
    hide Total;
    hide Tiled;
    p := new Page(0, now);
    BlocksCounted(p.mem[..], 0, p.l);
    for k := 0 to 1924
      invariant fresh(p) && fresh(p.mem) && p.Valid() && p.category_id == 0
      invariant UsedCount(p.l) == k && p.l.used != [] && p.l.free == [MMPOS_FREE_ROOT]
      invariant End(p.l.tiles, p.l.lens) == MMPOS_BCKT_INIT + 36 * k
    {
      var offset := p.OperateInsert(4, now);
      InsertedEnd(p.l.tiles, p.l.lens);
    }
    BlocksCounted(p.mem[..], 0, p.l);
  }

  lemma InsertedEnd(tiles: seq<nat>, lens: map<nat, nat>)
    requires tiles != [] && tiles[|tiles| - 1] in lens
    ensures End(tiles, lens) == tiles[|tiles| - 1] + lens[tiles[|tiles| - 1]]
  {
  }

  /** Without free blocks, the blocks in use reach up to the bucket. */
  lemma BlocksCounted(m: Mem, category_id: Word, l: Layout)
    requires PageOk(m, category_id, l) && |l.free| == 1
    ensures UsedSum(l) == End(l.tiles, l.lens) - MMPOS_BCKT_INIT
  {
    hide Lists;
    hide Blocks;
    hide Fixtures;
    hide Tiled;
  }

  /** The bits of one page, by size class. */
  datatype Marks = Marks(dc: seq<bool>, free: seq<bool>)

  /** The bits say exactly which size classes the free blocks of the page reach, and what the rebuild
      makes of the sums over its blocks in use. */
  ghost predicate Hinted(l: Layout, k: Marks) {
    |k.dc| == |k.free| == IPCSHM_BMPID_MAX
    && forall m :: 0 <= m < IPCSHM_BMPID_MAX ==>
      (k.free[m] <==> ClassFree(l, m, |l.free|))
      && (m > 0 ==> (k.dc[m] <==> SizeClass(DcRemain(UsedSum(l), UsedCount(l))) >= m))
  }

  /** What the rebuild has made of a page. */
  ghost predicate Rebuilt(l0: Layout, l1: Layout, m0: Mem, m1: Mem, k: Marks) {
    l1 == RebuiltLayout(l0) && Hinted(l1, k) && SumsStored(m1, l1)
    && (|l0.used| > 1 ==> PayloadsKept(m0, m1, l0.lens))
  }

  ghost function RebuiltLayout(l: Layout): (r: Layout) {
    if |l.used| <= 1 then EMPTY_PAGE else l
  }

  /** The sums in the root blocks are those of the lists. */
  ghost predicate SumsStored(m: Mem, l: Layout) {
    |m| == PAGE_SIZE
    && m[MMPOS_USED_ROOT + USE_BYTES] == UsedSum(l) && m[MMPOS_USED_ROOT + USE_CNT] == UsedCount(l)
    && m[MMPOS_FREE_ROOT + FREE_BYTES] == FreeSum(l) && m[MMPOS_FREE_ROOT + FREE_CNT] == FreeCount(l)
  }

  lemma {:induction false} CountBound(list: seq<nat>, lens: map<nat, nat>)
    requires forall i :: 0 < i < |list| ==> list[i] in lens && lens[list[i]] >= MIN_BLOCK
    ensures (|list| - 1) * MIN_BLOCK <= Total(list, lens)
    ensures |list| <= 1 ==> Total(list, lens) == 0
  {
    if |list| > 1 {
      CountBound(list[..|list| - 1], lens);
    }
  }

  /** The sums fit into 32 bits, and only an empty list of blocks in use has sum 0. */
  lemma SumsFit(m: Mem, category_id: Word, l: Layout)
    requires PageOk(m, category_id, l)
    ensures |m| == PAGE_SIZE && |l.used| > 0 && |l.free| > 0
    ensures UsedSum(l) == Total(l.used, l.lens) && FreeSum(l) == Total(l.free, l.lens)
    ensures UsedSum(l) <= MMSIZ_BCKT_INIT_SIZE && FreeSum(l) <= MMSIZ_BCKT_INIT_SIZE
    ensures |l.used| - 1 <= UsedSum(l) && |l.free| - 1 <= FreeSum(l)
    ensures UsedSum(l) == 0 <==> |l.used| == 1
  {
    hide Total;
    hide Tiled;
    hide Chain;
    hide Blocks;
    hide Fixtures;
    PageSize(m, category_id, l);
    LensBound(l);
    CountBound(l.used, l.lens);
    CountBound(l.free, l.lens);
  }

  lemma PageSize(m: Mem, category_id: Word, l: Layout)
    requires PageOk(m, category_id, l)
    ensures |m| == PAGE_SIZE
  {
  }

  lemma LensBound(l: Layout)
    requires Shared(l)
    ensures End(l.tiles, l.lens) <= BCKT_END && forall o :: o in l.lens ==> l.lens[o] >= MIN_BLOCK
  {
    forall o | o in l.lens ensures l.lens[o] >= MIN_BLOCK { TileBounds(l.tiles, l.lens, o); }
  }

  lemma NoBlocksUsed(m: Mem, category_id: Word, l: Layout)
    requires PageOk(m, category_id, l) && |l.used| == 1
    ensures Chain(m, MMSIG_USED, [MMPOS_USED_ROOT]) && RootBlock(m, MMPOS_USED_ROOT)
  {
    assert l.used == [MMPOS_USED_ROOT];
  }

  /** Block `x` moved from the blocks in use to the end of the free ones. */
  ghost predicate FreedFrom(l0: Layout, l1: Layout, x: int) {
    exists i: nat :: i < |l0.used| && l0.used[i] == x && l1 == Freed(l0, i)
  }

  lemma UsedBlockOk(m: Mem, category_id: Word, l: Layout, x: nat)
    requires PageOk(m, category_id, l) && x in l.used && x != MMPOS_USED_ROOT
    ensures ItemOk(m, x, MMSIG_USED) && m[x + LEN] > MMSIZ_HF_SIZE
    ensures m[x + m[x + LEN] - FOOT_SIZE + CATEGORY] == category_id
  {
    var i :| 0 <= i < |l.used| && l.used[i] == x;
    UsedItem(m, category_id, l, i);
    assert Block(m, category_id, x, l.lens[x]);
  }

  /** The same address is no block of any other page. */
  lemma OwnPageOnly(m: Mem, category_id: Word, l: Layout, offset: nat, page_id: nat, n: nat)
    requires PageOk(m, category_id, l) && offset != MMPOS_USED_ROOT && offset < PAGE_SIZE
    ensures var target := offset + (page_id - n) * PAGE_SIZE;
      target != MMPOS_USED_ROOT && (n != page_id ==> target !in l.used)
  {
    var target := offset + (page_id - n) * PAGE_SIZE;
    forall i | 0 <= i < |l.used| ensures l.used[i] < PAGE_SIZE {
      UsedItem(m, category_id, l, i);
    }
    if page_id > n { assert target >= PAGE_SIZE; }
    if page_id < n { assert target < 0; }
  }

  method NewPages(id: Word, now: Word) returns (ps: seq<Page>)
    ensures |ps| == PAGE_CNT
    ensures forall i :: 0 <= i < |ps| ==>
      fresh(ps[i]) && fresh(ps[i].mem) && ps[i].Valid() && ps[i].category_id == id && ps[i].l == EMPTY_PAGE
    ensures forall i, j :: 0 <= i < j < |ps| ==> ps[i] != ps[j] && ps[i].mem != ps[j].mem
  {
    hide Page.Valid;
    ps := [];
    while |ps| < PAGE_CNT
      invariant |ps| <= PAGE_CNT
      invariant forall i :: 0 <= i < |ps| ==>
        fresh(ps[i]) && fresh(ps[i].mem) && ps[i].Valid() && ps[i].category_id == id && ps[i].l == EMPTY_PAGE
      invariant forall i, j :: 0 <= i < j < |ps| ==> ps[i] != ps[j] && ps[i].mem != ps[j].mem
    {
      var p := new Page(id, now);
      ps := ps + [p];
    }
  }

  /** The two attempts on one page, as far as the hints allow them. */
  method TakeBlock(page: Page, free_bit: bool, dc_bit: bool, aligned_size: nat, now: Word) returns (offset: nat)
    requires page.Valid() && aligned_size >= 4 && aligned_size % 4 == 0
    modifies page, page.mem
    ensures page.Valid() && offset < PAGE_SIZE
    ensures offset == 0 ==> page.l == old(page.l) && page.mem[..] == old(page.mem[..])
    ensures offset != 0 ==> Took(old(page.l), page.l, offset, aligned_size)
    ensures offset != 0 ==> TookBy(free_bit, old(page.l), page.l, offset, aligned_size)
    ensures PayloadsKept(old(page.mem[..]), page.mem[..], old(page.l).lens)
    ensures offset != 0 <==> Serves(free_bit, dc_bit, old(page.l), aligned_size)
  {
    hide PageOk;
    hide PayloadsKept;
    NothingWritten(page.mem[..], page.l.lens);
    offset := 0;
    if free_bit {
      offset := page.OperateRecycle(aligned_size);
      if offset != 0 { return; }
    }
    if dc_bit {
      offset := page.OperateInsert(aligned_size, now);
    }
  }

  /** What a page promises before a rebuild: it has no block in use, or a free block that is large enough,
      or room in its bucket that the hint of unused area will not hide. */
  ghost predicate Promises(l: Layout, n: nat) {
    |l.used| <= 1 || HasFree(l, n) || (HasBucket(l, n) && DcHinted(l, n))
  }

  ghost predicate SomePromises(ls: seq<Layout>, n: nat) {
    exists p :: IPCSHM_PAGE_USRAREA <= p < |ls| && Promises(ls[p], n)
  }

  /** Right after a rebuild: a request succeeds if and only if it is legal and some page promises a block. */
  method RebuildAndAllocate(c: Category, size: nat, now: Word) returns (r: Allocation)
    requires c.Valid()
    modifies c, c.PageObjects(), c.errpage_bmp, c.dc_bmp, c.free_bmp
    ensures c.Valid()
    ensures r.BlockAt? <==> 0 < size <= 2048 && SomePromises(old(c.Layouts()), AlignedTo4(size))
  {
    hide Promises;
    hide Page.Valid;
    hide Rebuilt;
    hide Totals;
    hide Summed;
    hide Category.CanServe;
    hide Category.BitsOf;
    ghost var ls, ms := c.Layouts(), c.Mems();
    SumsOfPages(c);
    c.Rebuild(now);
    if size <= 2048 {
      c.ServesAfterRebuild(ls, c.Layouts(), ms, c.Mems(), AlignedTo4(size));
    }
    r := c.Shmalloc(size, now);
  }

  lemma SumsOfPages(c: Category)
    requires c.Valid()
    ensures forall p :: 0 <= p < PAGE_CNT ==> Summed(c.Layouts()[p])
  {
    hide PageOk;
    hide Summed;
    forall p | 0 <= p < PAGE_CNT ensures Summed(c.Layouts()[p]) {
      SummedPage(c.pages[p].mem[..], c.id, c.pages[p].l);
    }
  }

  /** Freed blocks are used again: right after a rebuild, while the first user page has a block in use and a free one
      that is large enough, a request gets the first such block of that page, and its bucket stays. */
  method RebuildAndReuse(c: Category, size: nat, now: Word) returns (r: Allocation)
    requires c.Valid() && 0 < size <= 2048
    requires var l := c.Layouts()[IPCSHM_PAGE_USRAREA]; |l.used| > 1 && HasFree(l, AlignedTo4(size))
    modifies c, c.PageObjects(), c.errpage_bmp, c.dc_bmp, c.free_bmp
    ensures c.Valid() && r.BlockAt? && r.page_id == IPCSHM_PAGE_USRAREA
    ensures var l := old(c.Layouts())[IPCSHM_PAGE_USRAREA];
      exists i: nat ::
        FirstFitting(l, i, AlignedTo4(size)) && r.offset == l.free[i]
        && c.Layouts()[IPCSHM_PAGE_USRAREA] == Recycled(l, i)
  {
    hide Page.Valid;
    hide HasFree;
    hide Totals;
    hide FirstFitting;
    hide Category.CanServe;
    hide Category.BitsOf;
    hide Category.TookFirst;
    hide Hinted;
    hide SumsStored;
    hide PayloadsKept;
    hide Took;
    ghost var l := c.Layouts()[IPCSHM_PAGE_USRAREA];
    c.Rebuild(now);
    ghost var ls := c.Layouts();
    assert ls[IPCSHM_PAGE_USRAREA] == l;
    c.FirstPageServes(ls, AlignedTo4(size));
    r := c.Shmalloc(size, now);
    c.TakenInFirstPage(ls, c.Layouts(), AlignedTo4(size), r.page_id, r.offset);
  }
}
