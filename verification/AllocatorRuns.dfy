/** Any run of allocations, frees, writes and rebuilds on a category, against a plain allocator: the blocks handed out
    and not yet given back, each with its payload. */
module AllocatorRuns {
  import opened PageChains
  import opened PageLayouts
  import opened MemoryPages
  import opened MemoryCategories

  /** The payloads of the blocks handed out, by page and offset. */
  type Held = seq<map<nat, seq<Word>>>

  datatype Step =
    | Take(size: nat)
    | Give(page: nat, offset: nat)
    | Write(page: nat, offset: nat, k: nat, v: Word)
    | RebuildAll

  function WithBlock(held: map<nat, seq<Word>>, o: nat, w: seq<Word>): (r: map<nat, seq<Word>>) {
    held[o := w]
  }

  function WithWord(w: seq<Word>, k: nat, v: Word): (r: seq<Word>)
    requires k < |w|
  {
    w[k := v]
  }

  /** A block with `n` bytes of payload at `o` overlaps none of those held in its page. */
  ghost predicate Clear(held: map<nat, seq<Word>>, o: nat, n: nat) {
    forall q :: q in held && q != o ==>
      q + MMSIZ_HF_SIZE + |held[q]| <= o || o + MMSIZ_HF_SIZE + n <= q
  }

  /** A block of at least `size` bytes that is not held by anyone is handed out. */
  ghost predicate HandedOut(held: Held, held': Held, size: nat, p: nat, o: nat) {
    && IPCSHM_PAGE_USRAREA <= p < |held| == |held'| && o !in held[p] && o in held'[p]
    && |held'[p][o]| >= size && Clear(held[p], o, |held'[p][o]|)
    && held' == held[p := WithBlock(held[p], o, held'[p][o])]
  }

  /** What each step makes of the blocks held. */
  ghost predicate Follows(held: Held, step: Step, held': Held) {
    match step
    case Take(size) => held' == held || exists p, o :: HandedOut(held, held', size, p, o)
    case Give(p, o) => p < |held| && held' == held[p := held[p] - {o}]
    case Write(p, o, k, v) =>
      if p < |held| && o in held[p] && k < |held[p][o]|
      then held' == held[p := WithBlock(held[p], o, WithWord(held[p][o], k, v))]
      else held' == held
    case RebuildAll => held' == held
  }

  /** The payload of the block of length `n` at `o`. */
  function PayloadAt(m: Mem, o: nat, n: nat): (w: seq<Word>)
    requires MMSIZ_HF_SIZE <= n && o + n <= |m|
    ensures |w| == n - MMSIZ_HF_SIZE
  {
    m[o + HEAD_SIZE..o + n - FOOT_SIZE]
  }

  /** A page shows the blocks held in it: exactly these are in use, with these payloads. */
  ghost predicate ShowsPage(m: Mem, l: Layout, held: map<nat, seq<Word>>) {
    && (forall o :: o in held <==> o in l.used && o != MMPOS_USED_ROOT)
    && forall o :: o in held ==>
         && o in l.lens && MMSIZ_HF_SIZE <= l.lens[o] && o + l.lens[o] <= |m|
         && held[o] == PayloadAt(m, o, l.lens[o])
  }

  ghost predicate Shows(ls: seq<Layout>, ms: seq<Mem>, held: Held) {
    && |ls| == |ms| == |held| == PAGE_CNT && held[0] == map[]
    && forall p :: IPCSHM_PAGE_USRAREA <= p < PAGE_CNT ==> ShowsPage(ms[p], ls[p], held[p])
  }

  /** No two blocks held overlap. */
  ghost predicate AllApart(held: Held) {
    forall p, o :: 0 <= p < |held| && o in held[p] ==> Clear(held[p], o, |held[p][o]|)
  }

  lemma HeldApart(m: Mem, category_id: Word, l: Layout, held: map<nat, seq<Word>>, o: nat)
    requires PageOk(m, category_id, l) && ShowsPage(m, l, held) && o in held
    ensures Clear(held, o, |held[o]|)
  {
    hide Lists;
    hide Blocks;
    hide Fixtures;
    hide Parted;
    hide Tiled;
    forall q | q in held && q != o ensures q + MMSIZ_HF_SIZE + |held[q]| <= o || o + MMSIZ_HF_SIZE + |held[o]| <= q {
      TilesApart(l.tiles, l.lens, q, o);
    }
  }

  /** A new page shows that nothing is held in it. */
  lemma EmptyShows(m: Mem)
    ensures ShowsPage(m, EMPTY_PAGE, map[])
  {
  }

  lemma PayloadSame(m: Mem, m': Mem, o: nat, n: nat)
    requires SameInside(m, m', o, n) && MMSIZ_HF_SIZE <= n && o + n <= |m|
    ensures PayloadAt(m', o, n) == PayloadAt(m, o, n)
  {
  }

  lemma KeptPayloads(m: Mem, m': Mem, lens: map<nat, nat>, held: map<nat, seq<Word>>)
    requires PayloadsKept(m, m', lens) && |m'| == |m|
    requires forall o :: o in held ==>
      o in lens && MMSIZ_HF_SIZE <= lens[o] && o + lens[o] <= |m| && held[o] == PayloadAt(m, o, lens[o])
    ensures forall o :: o in held ==> held[o] == PayloadAt(m', o, lens[o])
  {
    hide SameInside;
    forall o | o in held ensures held[o] == PayloadAt(m', o, lens[o]) {
      PayloadSame(m, m', o, lens[o]);
    }
  }

  /** The block taken joins those held. */
  lemma TookShows(m: Mem, m': Mem, category_id: Word, l: Layout, l': Layout, o: nat, n: nat, held: map<nat, seq<Word>>)
    requires PageOk(m, category_id, l) && PageOk(m', category_id, l') && Took(l, l', o, n) && n > 0
    requires PayloadsKept(m, m', l.lens) && ShowsPage(m, l, held)
    ensures o !in held && o in l'.lens && MMSIZ_HF_SIZE + n <= l'.lens[o] && o + l'.lens[o] <= |m'|
    ensures Clear(held, o, l'.lens[o] - MMSIZ_HF_SIZE)
    ensures ShowsPage(m', l', WithBlock(held, o, PayloadAt(m', o, l'.lens[o])))
  {
    hide *;
    PageSize(m, category_id, l);
    PageSize(m', category_id, l');
    TakenBlock(m, m', category_id, l, l', o, n);
    TakenShows(m, m', l, l', o, n, held);
  }

  lemma TakenShows(m: Mem, m': Mem, l: Layout, l': Layout, o: nat, n: nat, held: map<nat, seq<Word>>)
    requires PayloadsKept(m, m', l.lens) && ShowsPage(m, l, held) && |m'| == |m| == PAGE_SIZE
    requires o !in l.used && l'.used == l.used + [o] && o in l'.lens && MMPOS_BCKT_INIT <= o
    requires l'.lens[o] - MMSIZ_HF_SIZE >= n && o + l'.lens[o] <= BCKT_END
    requires forall q :: q in l'.lens && q != o ==> q + l'.lens[q] <= o || o + l'.lens[o] <= q
    requires forall q :: q in l.lens ==> q in l'.lens && l'.lens[q] == l.lens[q]
    ensures o !in held && MMSIZ_HF_SIZE + n <= l'.lens[o] && o + l'.lens[o] <= |m'|
    ensures Clear(held, o, l'.lens[o] - MMSIZ_HF_SIZE)
    ensures ShowsPage(m', l', WithBlock(held, o, PayloadAt(m', o, l'.lens[o])))
  {
    KeptPayloads(m, m', l.lens, held);
    hide PayloadAt;
    hide PayloadsKept;
  }

  /** The block given back leaves them. */
  lemma FreedShows(m: Mem, m': Mem, category_id: Word, l: Layout, l': Layout, x: nat, held: map<nat, seq<Word>>)
    requires PageOk(m, category_id, l) && PageOk(m', category_id, l') && x != MMPOS_USED_ROOT
    requires FreedFrom(l, l', x) && PayloadsKept(m, m', l.lens) && ShowsPage(m, l, held)
    ensures ShowsPage(m', l', held - {x})
  {
    hide *;
    PageSize(m, category_id, l);
    PageSize(m', category_id, l');
    UsedWithout(m, category_id, l, l', x);
    GivenShows(m, m', l, l', x, held);
  }

  lemma GivenShows(m: Mem, m': Mem, l: Layout, l': Layout, x: nat, held: map<nat, seq<Word>>)
    requires PayloadsKept(m, m', l.lens) && ShowsPage(m, l, held) && |m'| == |m|
    requires l'.lens == l.lens && forall o :: o in l'.used <==> o in l.used && o != x
    ensures ShowsPage(m', l', held - {x})
  {
    KeptPayloads(m, m', l.lens, held);
    hide PayloadAt;
    hide PayloadsKept;
  }

  lemma UsedWithout(m: Mem, category_id: Word, l: Layout, l': Layout, x: nat)
    requires PageOk(m, category_id, l) && FreedFrom(l, l', x)
    ensures l'.lens == l.lens && forall o :: o in l'.used <==> o in l.used && o != x
  {
    var i: nat :| i < |l.used| && l.used[i] == x && l' == Freed(l, i);
    DistinctUsed(m, category_id, l);
    hide PageOk;
    WithoutMembers(l.used, i);
  }

  lemma DistinctUsed(m: Mem, category_id: Word, l: Layout)
    requires PageOk(m, category_id, l)
    ensures forall i, j :: 0 <= i < j < |l.used| ==> l.used[i] != l.used[j]
  {
    hide Shared;
    hide Blocks;
    hide Fixtures;
    assert Spread(l.used);
  }

  lemma WithoutMembers(list: seq<nat>, i: nat)
    requires i < |list| && forall j, k :: 0 <= j < k < |list| ==> list[j] != list[k]
    ensures forall o :: o in Without(list, i) <==> o in list && o != list[i]
  {
    forall o | o in list && o != list[i] ensures o in Without(list, i) {
      var j :| 0 <= j < |list| && list[j] == o;
      assert Without(list, i)[if j < i then j else j - 1] == o;
    }
  }

  /** A rebuild changes nothing for those who hold blocks. */
  lemma RebuiltShows(m: Mem, m': Mem, category_id: Word, l: Layout, l': Layout, k: Marks, held: map<nat, seq<Word>>)
    requires PageOk(m, category_id, l) && PageOk(m', category_id, l') && Rebuilt(l, l', m, m', k)
    requires ShowsPage(m, l, held)
    ensures ShowsPage(m', l', held)
  {
    hide PageOk;
    hide Hinted;
    hide SumsStored;
    PageSize(m, category_id, l);
    PageSize(m', category_id, l');
    UsedFromRoot(m, category_id, l);
    RenewedShows(m, m', l, l', held);
  }

  lemma RenewedShows(m: Mem, m': Mem, l: Layout, l': Layout, held: map<nat, seq<Word>>)
    requires l.used != [] && l.used[0] == MMPOS_USED_ROOT && |m'| == |m| && l' == RebuiltLayout(l)
    requires (|l.used| > 1 ==> PayloadsKept(m, m', l.lens)) && ShowsPage(m, l, held)
    ensures ShowsPage(m', l', held)
  {
    if |l.used| <= 1 {
      assert held == map[];
      EmptyShows(m');
    } else {
      KeptPayloads(m, m', l.lens, held);
    }
    hide PayloadAt;
    hide PayloadsKept;
  }

  lemma UsedFromRoot(m: Mem, category_id: Word, l: Layout)
    requires PageOk(m, category_id, l)
    ensures l.used != [] && l.used[0] == MMPOS_USED_ROOT
  {
  }

  /** A write changes the payload of its own block alone. */
  lemma WroteShows(m: Mem, m': Mem, category_id: Word, l: Layout, o: nat, k: nat, v: Word, held: map<nat, seq<Word>>)
    requires ShowsPage(m, l, held) && o in held && k < |held[o]|
    requires m' == m[o + HEAD_SIZE + k := v] && PayloadsKept(m, m', l.lens - {o})
    ensures ShowsPage(m', l, WithBlock(held, o, WithWord(held[o], k, v)))
  {
    KeptPayloads(m, m', l.lens - {o}, held - {o});
    hide PayloadsKept;
    assert PayloadAt(m', o, l.lens[o]) == WithWord(held[o], k, v);
    hide PayloadAt;
    hide WithWord;
    forall q | q in held && q != o ensures held[q] == PayloadAt(m', q, l.lens[q]) {
      assert (held - {o})[q] == held[q] && (l.lens - {o})[q] == l.lens[q];
    }
  }

  lemma BlockLength(m: Mem, category_id: Word, l: Layout, o: nat)
    requires PageOk(m, category_id, l) && o in l.lens
    ensures o + l.lens[o] <= |m| && l.lens[o] >= MIN_BLOCK && m[o + LEN] == l.lens[o]
  {
    hide Shared;
    hide Lists;
    hide Fixtures;
  }

  /** One page changed, and shows what is held in it now. */
  lemma ShowsWith(ls: seq<Layout>, ms: seq<Mem>, held: Held, ls': seq<Layout>, ms': seq<Mem>, p: nat,
                  h: map<nat, seq<Word>>)
    requires Shows(ls, ms, held) && IPCSHM_PAGE_USRAREA <= p < PAGE_CNT && |ls'| == |ms'| == PAGE_CNT
    requires ls' == ls[p := ls'[p]] && ms' == ms[p := ms'[p]] && ShowsPage(ms'[p], ls'[p], h)
    ensures Shows(ls', ms', held[p := h])
  {
    hide ShowsPage;
  }

  ghost predicate NoErrors(c: Category)
    requires c.Shape()
    reads c.errpage_bmp
  {
    forall n :: IPCSHM_PAGE_USRAREA <= n < PAGE_CNT ==> !c.errpage_bmp[n]
  }

  /** No page of the category is marked as erroneous, and its pages show what is held. */
  ghost predicate Ready(c: Category, held: Held)
    reads c.PageObjects(), c.errpage_bmp
  {
    c.Valid() && NoErrors(c) && Shows(c.Layouts(), c.Mems(), held)
  }

  lemma AllPages(c: Category)
    requires c.Valid()
    ensures |c.Layouts()| == |c.Mems()| == PAGE_CNT
    ensures forall p :: 0 <= p < PAGE_CNT ==> PageOk(c.Mems()[p], c.id, c.Layouts()[p])
  {
    hide PageOk;
  }

  /** Where the pages show what is held, no two blocks overlap. */
  lemma ReadyApart(c: Category, held: Held)
    requires Ready(c, held)
    ensures AllApart(held)
  {
    hide PageOk;
    AllPages(c);
    ShownApart(c.Layouts(), c.Mems(), c.id, held);
  }

  lemma ShownApart(ls: seq<Layout>, ms: seq<Mem>, category_id: Word, held: Held)
    requires Shows(ls, ms, held) && forall p :: 0 <= p < PAGE_CNT ==> PageOk(ms[p], category_id, ls[p])
    ensures AllApart(held)
  {
    hide PageOk;
    hide ShowsPage;
    hide Clear;
    forall p, o | 0 <= p < |held| && o in held[p] ensures Clear(held[p], o, |held[p][o]|) {
      HeldApart(ms[p], category_id, ls[p], held[p], o);
    }
  }

  method TakeNext(c: Category, size: nat, now: Word, held: Held) returns (held': Held)
    requires Ready(c, held)
    modifies c.PageObjects()
    ensures Ready(c, held') && Follows(held, Take(size), held')
  {
    hide Page.Valid;
    hide PageOk;
    hide ShowsPage;
    hide Took;
    hide PayloadsKept;
    hide Category.CanServe;
    hide Clear;
    ghost var ls, ms := c.Layouts(), c.Mems();
    AllPages(c);
    var r := c.Shmalloc(size, now);
    AllPages(c);
    if r.NoBlock? {
      return held;
    }
    var p, o := r.page_id, r.offset;
    ghost var l := c.Layouts()[p];
    TookShows(ms[p], c.Mems()[p], c.id, ls[p], l, o, AlignedTo4(size), held[p]);
    BlockLength(c.Mems()[p], c.id, l, o);
    var mem := c.pages[p].mem;
    assert c.Mems()[p] == mem[..];
    var w := PayloadAt(mem[..], o, mem[o + LEN]);
    held' := held[p := WithBlock(held[p], o, w)];
    ShowsWith(ls, ms, held, c.Layouts(), c.Mems(), p, held'[p]);
    assert HandedOut(held, held', size, p, o);
  }

  method GiveNext(c: Category, p: nat, o: nat, held: Held) returns (held': Held)
    requires Ready(c, held) && IPCSHM_PAGE_USRAREA <= p < PAGE_CNT && o != MMPOS_USED_ROOT
    modifies c.PageObjects()
    ensures Ready(c, held') && Follows(held, Give(p, o), held')
  {
    hide Page.Valid;
    hide PageOk;
    hide FreedFrom;
    hide PayloadsKept;
    ghost var ls, ms := c.Layouts(), c.Mems();
    AllPages(c);
    c.Shmfree(p, o);
    AllPages(c);
    held' := held[p := held[p] - {o}];
    if o in ls[p].used {
      hide ShowsPage;
      FreedShows(ms[p], c.Mems()[p], c.id, ls[p], c.Layouts()[p], o, held[p]);
      ShowsWith(ls, ms, held, c.Layouts(), c.Mems(), p, held'[p]);
    } else {
      assert held[p] - {o} == held[p];
    }
  }

  method WriteNext(c: Category, p: nat, o: nat, k: nat, v: Word, held: Held) returns (held': Held)
    requires Ready(c, held)
    modifies c.PageObjects()
    ensures Ready(c, held') && Follows(held, Write(p, o, k, v), held')
  {
    hide Page.Valid;
    hide PageOk;
    hide ShowsPage;
    hide PayloadsKept;
    ghost var ls, ms := c.Layouts(), c.Mems();
    if !(IPCSHM_PAGE_USRAREA <= p < PAGE_CNT && o in held[p] && k < |held[p][o]|) {
      return held;
    }
    AllPages(c);
    HeldInside(ms[p], c.id, ls[p], held[p], o);
    c.pages[p].UserWrite(o, o + HEAD_SIZE + k, v);
    held' := held[p := WithBlock(held[p], o, WithWord(held[p][o], k, v))];
    assert c.Layouts() == ls;
    assert c.Mems() == ms[p := c.Mems()[p]];
    WroteShows(ms[p], c.Mems()[p], c.id, ls[p], o, k, v, held[p]);
    ShowsWith(ls, ms, held, c.Layouts(), c.Mems(), p, held'[p]);
  }

  lemma HeldInside(m: Mem, category_id: Word, l: Layout, held: map<nat, seq<Word>>, o: nat)
    requires PageOk(m, category_id, l) && ShowsPage(m, l, held) && o in held
    ensures o in l.lens && |held[o]| == l.lens[o] - MMSIZ_HF_SIZE && o + l.lens[o] <= |m|
  {
    hide PageOk;
  }

  method RebuildNext(c: Category, now: Word, held: Held)
    requires Ready(c, held)
    modifies c, c.PageObjects(), c.errpage_bmp, c.dc_bmp, c.free_bmp
    ensures Ready(c, held)
  {
    hide Page.Valid;
    hide PageOk;
    hide ShowsPage;
    hide Rebuilt;
    hide Totals;
    hide Category.BitsOf;
    ghost var ls, ms := c.Layouts(), c.Mems();
    AllPages(c);
    c.Rebuild(now);
    AllPages(c);
    forall p | IPCSHM_PAGE_USRAREA <= p < PAGE_CNT ensures ShowsPage(c.Mems()[p], c.Layouts()[p], held[p]) {
      RebuiltShows(ms[p], c.Mems()[p], c.id, ls[p], c.Layouts()[p], c.BitsOf(p), held[p]);
    }
  }

  /** A program gives back blocks of its category: the address is one of a user page, and not that of its root. */
  predicate Legal(step: Step) {
    step.Give? ==> IPCSHM_PAGE_USRAREA <= step.page < PAGE_CNT && step.offset != MMPOS_USED_ROOT
  }

  /** Any run: each step does to the blocks held what a plain allocator does, and at every time the pages show
      exactly these blocks with what was last written into them. */
  method Run(c: Category, steps: seq<Step>, now: Word, start: Held) returns (helds: seq<Held>)
    requires Ready(c, start) && forall i :: 0 <= i < |steps| ==> Legal(steps[i])
    modifies c, c.PageObjects(), c.errpage_bmp, c.dc_bmp, c.free_bmp
    ensures |helds| == |steps| + 1 && helds[0] == start
    ensures forall i :: 0 <= i < |steps| ==> Follows(helds[i], steps[i], helds[i + 1])
    ensures forall i :: 0 <= i <= |steps| ==> AllApart(helds[i])
    ensures Ready(c, helds[|steps|])
  {
    hide Ready;
    hide Follows;
    hide AllApart;
    ReadyApart(c, start);
    var held := start;
    helds := [start];
    for n := 0 to |steps|
      invariant |helds| == n + 1 && helds[0] == start && helds[n] == held && Ready(c, held)
      invariant forall i :: 0 <= i < n ==> Follows(helds[i], steps[i], helds[i + 1])
      invariant forall i :: 0 <= i <= n ==> AllApart(helds[i])
    {
      held := Next(c, steps[n], now, held);
      ReadyApart(c, held);
      helds := helds + [held];
    }
  }

  method Next(c: Category, step: Step, now: Word, held: Held) returns (held': Held)
    requires Ready(c, held) && Legal(step)
    modifies c, c.PageObjects(), c.errpage_bmp, c.dc_bmp, c.free_bmp
    ensures Ready(c, held') && Follows(held, step, held')
  {
    hide Ready;
    match step
    case Take(size) => held' := TakeNext(c, size, now, held);
    case Give(p, o) => held' := GiveNext(c, p, o, held);
    case Write(p, o, k, v) => held' := WriteNext(c, p, o, k, v, held);
    case RebuildAll =>
      RebuildNext(c, now, held);
      held' := held;
  }

  /** The same from a new category, of which nothing is held. */
  method RunFromNew(id: Word, steps: seq<Step>, now: Word) returns (c: Category, helds: seq<Held>)
    requires forall i :: 0 <= i < |steps| ==> Legal(steps[i])
    ensures |helds| == |steps| + 1 && helds[0] == seq(PAGE_CNT, _ => map[])
    ensures forall i :: 0 <= i < |steps| ==> Follows(helds[i], steps[i], helds[i + 1])
    ensures forall i :: 0 <= i <= |steps| ==> AllApart(helds[i])
    ensures Ready(c, helds[|steps|])
  {
    hide Follows;
    hide AllApart;
    hide Page.Valid;
    hide PageOk;
    c := new Category(id, now);
    var start: Held := seq(PAGE_CNT, _ => map[]);
    forall p | 0 <= p < PAGE_CNT ensures ShowsPage(c.Mems()[p], c.Layouts()[p], start[p]) {
      EmptyShows(c.Mems()[p]);
    }
    helds := Run(c, steps, now, start);
  }
}
