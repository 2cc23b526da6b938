/** What a memory page holds: blocks in use, free blocks and the bucket tile the area behind the
    root blocks, and two linked lists go through the blocks (smmr_memory.c). */
module PageLayouts {
  import opened PageChains

  /** The two lists, each with its root block in front, and the blocks in address order with their lengths. */
  datatype Layout = Layout(used: seq<nat>, free: seq<nat>, tiles: seq<nat>, lens: map<nat, nat>)

  const EMPTY_PAGE := Layout([MMPOS_USED_ROOT], [MMPOS_FREE_ROOT], [], map[])
  /** Where the bucket ends. */
  const BCKT_END := MMPOS_BCKT_INIT + MMSIZ_BCKT_INIT_SIZE

  /** Where the last block ends and the bucket starts. */
  ghost function End(tiles: seq<nat>, lens: map<nat, nat>): (r: nat) {
    if tiles == [] || tiles[|tiles| - 1] !in lens then MMPOS_BCKT_INIT
    else tiles[|tiles| - 1] + lens[tiles[|tiles| - 1]]
  }

  ghost predicate TileLens(tiles: seq<nat>, lens: map<nat, nat>) {
    (forall o :: o in lens <==> o in tiles)
    && forall i :: 0 <= i < |tiles| ==> tiles[i] in lens && lens[tiles[i]] >= MIN_BLOCK && lens[tiles[i]] % 4 == 0
  }

  ghost predicate Adjacent(tiles: seq<nat>, lens: map<nat, nat>)
    requires TileLens(tiles, lens)
  {
    (tiles != [] ==> tiles[0] == MMPOS_BCKT_INIT)
    && forall i :: 0 < i < |tiles| ==> tiles[i] == tiles[i - 1] + lens[tiles[i - 1]]
  }

  ghost predicate Ascending(tiles: seq<nat>, lens: map<nat, nat>)
    requires TileLens(tiles, lens)
  {
    forall i, j :: 0 <= i < j < |tiles| ==> tiles[i] + lens[tiles[i]] <= tiles[j]
  }

  /** The blocks follow one another without a gap. */
  ghost predicate Tiled(tiles: seq<nat>, lens: map<nat, nat>) {
    TileLens(tiles, lens) && Adjacent(tiles, lens) && Ascending(tiles, lens) && End(tiles, lens) <= BCKT_END
  }

  /** The lengths of the blocks of a list, without its root. */
  ghost function Total(list: seq<nat>, lens: map<nat, nat>): (r: nat)
    requires forall i :: 0 < i < |list| ==> list[i] in lens
  {
    if |list| <= 1 then 0 else Total(list[..|list| - 1], lens) + lens[list[|list| - 1]]
  }

  /** Every block is in exactly one of the two lists. */
  ghost predicate Parted(a: seq<nat>, b: seq<nat>, lens: map<nat, nat>) {
    a != [] && b != []
    && (forall i :: 0 < i < |a| ==> a[i] in lens) && (forall i :: 0 < i < |b| ==> b[i] in lens)
    && (forall o :: o in lens ==> o in a || o in b)
    && forall i, j :: 0 <= i < |a| && 0 <= j < |b| ==> a[i] != b[j]
  }

  /** Moreover the lengths of all blocks reach up to the bucket. */
  ghost predicate Shared(l: Layout) {
    Tiled(l.tiles, l.lens) && Parted(l.used, l.free, l.lens)
    && l.used[0] == MMPOS_USED_ROOT && l.free[0] == MMPOS_FREE_ROOT
    && Total(l.used, l.lens) + Total(l.free, l.lens) == End(l.tiles, l.lens) - MMPOS_BCKT_INIT
  }

  /** Header and footer of every block. */
  ghost predicate Block(m: Mem, category_id: Word, o: nat, len: nat) {
    o + len <= |m| && len >= MIN_BLOCK && m[o + LEN] == len
    && m[o + len - FOOT_SIZE + SUFFIX] == MMSIG_SUFX && m[o + len - FOOT_SIZE + CATEGORY] == category_id
  }

  /** The payload of the block of length `len` at `o` is the same in both. */
  ghost predicate SameInside(m: Mem, m': Mem, o: nat, len: nat) {
    |m'| == |m| && forall c :: o + HEAD_SIZE <= c < o + len - FOOT_SIZE && c < |m| ==> m'[c] == m[c]
  }

  ghost predicate PayloadsKept(m: Mem, m': Mem, lens: map<nat, nat>) {
    forall o :: o in lens ==> SameInside(m, m', o, lens[o])
  }

  ghost predicate RootBlock(m: Mem, r: nat) {
    r + MMPOS_ROOT_SIZE <= |m| && m[r + LEN] == MMPOS_ROOT_SIZE
    && m[r + MMPOS_ROOT_SIZE - FOOT_SIZE + SUFFIX] == MMSIG_SUFX
  }

  ghost predicate Bucket(m: Mem, end: nat) {
    end <= BCKT_END && |m| == PAGE_SIZE
    && m[MMPOS_BCKT_ROOT] == MMSIG_BCKT && m[MMPOS_BCKT_ROOT + PREV] == 0 && m[MMPOS_BCKT_ROOT + NEXT] == end
    && m[end] == MMSIG_BCKT && m[end + PREV] == MMPOS_BCKT_ROOT && m[end + NEXT] == MMFLG_CLOSE
    && m[end + LEN] == BCKT_END - end
  }

  ghost predicate Lists(m: Mem, l: Layout) {
    Chain(m, MMSIG_USED, l.used) && Chain(m, MMSIG_FREE, l.free)
  }

  ghost predicate Blocks(m: Mem, category_id: Word, lens: map<nat, nat>) {
    forall o :: o in lens ==> Block(m, category_id, o, lens[o])
  }

  /** The root blocks and the bucket. */
  ghost predicate Fixtures(m: Mem, end: nat) {
    RootBlock(m, MMPOS_USED_ROOT) && RootBlock(m, MMPOS_FREE_ROOT) && RootBlock(m, MMPOS_BCKT_ROOT) && Bucket(m, end)
  }

  ghost predicate PageOk(m: Mem, category_id: Word, l: Layout) {
    Shared(l) && Lists(m, l) && Blocks(m, category_id, l.lens) && Fixtures(m, End(l.tiles, l.lens))
  }

  /** Blocks in use, free blocks and the bucket together always have the size of the initial bucket. */
  lemma PageTotals(m: Mem, category_id: Word, l: Layout)
    requires PageOk(m, category_id, l)
    ensures Total(l.used, l.lens) + Total(l.free, l.lens) + m[m[MMPOS_BCKT_ROOT + NEXT] + LEN] == MMSIZ_BCKT_INIT_SIZE
    ensures m[MMPOS_BCKT_ROOT + NEXT] + HEAD_SIZE <= PAGE_SIZE
  {
  }

  /** Blocks do not overlap, and lie between the roots and the bucket. */
  lemma TilesApart(tiles: seq<nat>, lens: map<nat, nat>, a: nat, b: nat)
    requires Tiled(tiles, lens) && a in lens && b in lens && a != b
    ensures a + lens[a] <= b || b + lens[b] <= a
  {
    var i :| 0 <= i < |tiles| && tiles[i] == a;
    var j :| 0 <= j < |tiles| && tiles[j] == b;
    assert i < j || j < i;
  }

  lemma TileBounds(tiles: seq<nat>, lens: map<nat, nat>, o: nat)
    requires Tiled(tiles, lens) && o in lens
    ensures MMPOS_BCKT_INIT <= o && o + lens[o] <= End(tiles, lens) <= BCKT_END && lens[o] >= MIN_BLOCK
    ensures lens[o] % 4 == 0
  {
    var n := |tiles| - 1;
    var i :| 0 <= i < |tiles| && tiles[i] == o;
    if i > 0 { assert tiles[0] + lens[tiles[0]] <= tiles[i]; }
    if i < n { assert tiles[i] + lens[tiles[i]] <= tiles[n]; }
  }

  lemma ListsApart(l: Layout, i: nat, j: nat)
    requires Shared(l) && i < |l.used| && j < |l.free|
    ensures Apart(l.used[i], l.free[j])
  {
    hide Total;
    hide Tiled;
    if i > 0 { TileBounds(l.tiles, l.lens, l.used[i]); }
    if j > 0 { TileBounds(l.tiles, l.lens, l.free[j]); }
    if i > 0 && j > 0 { TilesApart(l.tiles, l.lens, l.used[i], l.free[j]); }
  }

  // ---- words that belong to no list, header or footer ----

  /** A word of the sums that the roots keep. */
  predicate Sums(c: nat) {
    MMPOS_USED_ROOT + FREE_BYTES <= c < MMPOS_USED_ROOT + HEAD_SIZE + DETAIL_SIZE
    || MMPOS_FREE_ROOT + FREE_BYTES <= c < MMPOS_FREE_ROOT + HEAD_SIZE + DETAIL_SIZE
    || MMPOS_BCKT_ROOT + FREE_BYTES <= c < MMPOS_BCKT_ROOT + HEAD_SIZE + DETAIL_SIZE
  }

  /** A word of some block's payload, or of the sums. */
  ghost predicate Loose(lens: map<nat, nat>, c: nat) {
    Sums(c) || exists o :: o in lens && o + HEAD_SIZE <= c < o + lens[o] - FOOT_SIZE
  }

  /** Words of headers and footers, of roots, and of the bucket's header. */
  lemma FixedWords(tiles: seq<nat>, lens: map<nat, nat>, o: nat, c: nat)
    requires Tiled(tiles, lens)
    requires (o in lens && (o <= c < o + HEAD_SIZE || o + lens[o] - FOOT_SIZE <= c < o + lens[o]))
      || (c < MMPOS_BCKT_INIT && !Sums(c)) || c >= End(tiles, lens)
    ensures !Loose(lens, c)
  {
    forall p | p in lens ensures !(p + HEAD_SIZE <= c < p + lens[p] - FOOT_SIZE) {
      TileBounds(tiles, lens, p);
      if o in lens {
        TileBounds(tiles, lens, o);
        if p != o { TilesApart(tiles, lens, p, o); }
      }
    }
    if o in lens { TileBounds(tiles, lens, o); }
    if tiles != [] { TileBounds(tiles, lens, tiles[|tiles| - 1]); }
  }

  /** Only loose words differ. */
  ghost predicate Undisturbed(m: Mem, m': Mem, lens: map<nat, nat>) {
    |m'| == |m| && forall c :: 0 <= c < |m| && !Loose(lens, c) ==> m'[c] == m[c]
  }

  lemma HeadFixed(tiles: seq<nat>, lens: map<nat, nat>, m: Mem, m': Mem, o: nat)
    requires Tiled(tiles, lens) && Undisturbed(m, m', lens)
    requires o in lens || o == MMPOS_USED_ROOT || o == MMPOS_FREE_ROOT
    requires o + MIN_BLOCK <= |m|
    ensures m'[o] == m[o] && m'[o + PREV] == m[o + PREV] && m'[o + NEXT] == m[o + NEXT]
    ensures o !in lens ==> m'[o + LAST] == m[o + LAST]
  {
    hide Tiled;
    FixedWords(tiles, lens, o, o);
    FixedWords(tiles, lens, o, o + PREV);
    FixedWords(tiles, lens, o, o + NEXT);
    if o !in lens { FixedWords(tiles, lens, o, o + LAST); }
  }

  lemma ChainFixed(l: Layout, m: Mem, m': Mem, sig: Word, list: seq<nat>)
    requires Tiled(l.tiles, l.lens) && Chain(m, sig, list) && Undisturbed(m, m', l.lens)
    requires list[0] == MMPOS_USED_ROOT || list[0] == MMPOS_FREE_ROOT
    requires forall i :: 0 < i < |list| ==> list[i] in l.lens
    ensures Chain(m', sig, list)
  {
    assert list[0] !in l.lens by { if list[0] in l.lens { TileBounds(l.tiles, l.lens, list[0]); } }
    hide Tiled;
    hide Link;
    HeadFixed(l.tiles, l.lens, m, m', list[0]);
    forall i | 0 <= i < |list|
      ensures m'[list[i]] == m[list[i]] && m'[list[i] + PREV] == m[list[i] + PREV]
      ensures m'[list[i] + NEXT] == m[list[i] + NEXT]
    {
      HeadFixed(l.tiles, l.lens, m, m', list[i]);
    }
    assert |m'| == |m|;
    hide Undisturbed;
    ChainKept(m, m', sig, list);
  }

  lemma BlockFixed(l: Layout, m: Mem, m': Mem, category_id: Word, o: nat)
    requires Tiled(l.tiles, l.lens) && o in l.lens && Block(m, category_id, o, l.lens[o]) && Undisturbed(m, m', l.lens)
    ensures Block(m', category_id, o, l.lens[o])
  {
    FixedWords(l.tiles, l.lens, o, o + LEN);
    FixedWords(l.tiles, l.lens, o, o + l.lens[o] - FOOT_SIZE + SUFFIX);
    FixedWords(l.tiles, l.lens, o, o + l.lens[o] - FOOT_SIZE + CATEGORY);
  }

  lemma FixturesFixed(l: Layout, m: Mem, m': Mem)
    requires Tiled(l.tiles, l.lens) && Fixtures(m, End(l.tiles, l.lens)) && Undisturbed(m, m', l.lens)
    ensures Fixtures(m', End(l.tiles, l.lens))
  {
    forall c | 0 <= c < PAGE_SIZE && ((c < MMPOS_BCKT_INIT && !Sums(c)) || c >= End(l.tiles, l.lens))
      ensures m'[c] == m[c]
    {
      FixedWords(l.tiles, l.lens, 0, c);
    }
  }

  /** Nothing that is written to payloads or to the sums disturbs the page. */
  lemma LooseWrites(m: Mem, m': Mem, category_id: Word, l: Layout)
    requires PageOk(m, category_id, l) && Undisturbed(m, m', l.lens)
    ensures PageOk(m', category_id, l)
  {
    hide Tiled;
    hide Total;
    hide Loose;
    hide Chain;
    hide Block;
    hide Fixtures;
    hide Undisturbed;
    ChainFixed(l, m, m', MMSIG_USED, l.used);
    ChainFixed(l, m, m', MMSIG_FREE, l.free);
    forall o | o in l.lens ensures Block(m', category_id, o, l.lens[o]) {
      BlockFixed(l, m, m', category_id, o);
    }
    FixturesFixed(l, m, m');
  }

  // ---- a block moves from one list to the other ----

  ghost function Freed(l: Layout, i: nat): (r: Layout)
    requires i < |l.used|
  {
    l.(used := Without(l.used, i), free := l.free + [l.used[i]])
  }

  ghost function Recycled(l: Layout, i: nat): (r: Layout)
    requires i < |l.free|
  {
    l.(free := Without(l.free, i), used := l.used + [l.free[i]])
  }

  /** A word that the moves may write: a header without its length, or a root's link to the last block. */
  ghost predicate LinkWord(lens: map<nat, nat>, c: nat) {
    c < LEN || c == LAST || MMPOS_FREE_ROOT <= c < MMPOS_FREE_ROOT + LEN || c == MMPOS_FREE_ROOT + LAST
    || exists o :: o in lens && o <= c < o + LEN
  }

  ghost predicate Relinked(m: Mem, m': Mem, lens: map<nat, nat>) {
    |m'| == |m| && forall c :: 0 <= c < |m| && !LinkWord(lens, c) ==> m'[c] == m[c]
  }

  lemma NoLinkWord(tiles: seq<nat>, lens: map<nat, nat>, o: nat, c: nat)
    requires Tiled(tiles, lens)
    requires (o in lens && o + LEN <= c < o + lens[o]) || c >= End(tiles, lens)
      || (c < MMPOS_BCKT_INIT && c >= LEN && c != LAST
          && !(MMPOS_FREE_ROOT <= c < MMPOS_FREE_ROOT + LEN) && c != MMPOS_FREE_ROOT + LAST)
    ensures !LinkWord(lens, c)
  {
    if o in lens { TileBounds(tiles, lens, o); }
    if tiles != [] { TileBounds(tiles, lens, tiles[|tiles| - 1]); }
    forall p | p in lens ensures !(p <= c < p + LEN) {
      TileBounds(tiles, lens, p);
      if o in lens && p != o { TilesApart(tiles, lens, p, o); }
    }
  }

  lemma BlockRelinked(tiles: seq<nat>, lens: map<nat, nat>, m: Mem, m': Mem, category_id: Word, o: nat)
    requires Tiled(tiles, lens) && o in lens && Block(m, category_id, o, lens[o]) && Relinked(m, m', lens)
    ensures Block(m', category_id, o, lens[o]) && SameInside(m, m', o, lens[o])
  {
    hide Tiled;
    NoLinkWord(tiles, lens, o, o + LEN);
    NoLinkWord(tiles, lens, o, o + lens[o] - FOOT_SIZE + SUFFIX);
    NoLinkWord(tiles, lens, o, o + lens[o] - FOOT_SIZE + CATEGORY);
    forall c | o + HEAD_SIZE <= c < o + lens[o] - FOOT_SIZE ensures m'[c] == m[c] {
      NoLinkWord(tiles, lens, o, c);
    }
  }

  lemma FixturesRelinked(tiles: seq<nat>, lens: map<nat, nat>, m: Mem, m': Mem)
    requires Tiled(tiles, lens) && Fixtures(m, End(tiles, lens)) && Relinked(m, m', lens)
    ensures Fixtures(m', End(tiles, lens))
  {
    forall c | 0 <= c < PAGE_SIZE && (c >= End(tiles, lens) || (MMPOS_BCKT_ROOT <= c < MMPOS_BCKT_INIT)
        || c == LEN || c == MMPOS_FREE_ROOT + LEN || c == HEAD_SIZE + DETAIL_SIZE + SUFFIX
        || c == MMPOS_FREE_ROOT + HEAD_SIZE + DETAIL_SIZE + SUFFIX)
      ensures m'[c] == m[c]
    {
      NoLinkWord(tiles, lens, 0, c);
    }
  }

  /** The two steps of a move, on any two lists that do not overlap. */
  lemma MoveChains(m: Mem, ssig: Word, src: seq<nat>, dsig: Word, dst: seq<nat>, i: nat)
    requires Chain(m, ssig, src) && Chain(m, dsig, dst) && 0 < i < |src|
    requires forall j, k :: 0 <= j < |src| && 0 <= k < |dst| ==> Apart(src[j], dst[k])
    ensures m[src[i] + PREV] + HEAD_SIZE <= PAGE_SIZE
    ensures m[src[i] + NEXT] == MMFLG_CLOSE || m[src[i] + NEXT] + HEAD_SIZE <= PAGE_SIZE
    ensures var m1 := Detach(m, src[0], src[i]);
      m1[dst[0] + LAST] + HEAD_SIZE <= PAGE_SIZE
      && Chain(Attach(m1, dst[0], dsig, src[i]), ssig, Without(src, i))
      && Chain(Attach(m1, dst[0], dsig, src[i]), dsig, dst + [src[i]])
  {
    ChainDetach(m, ssig, src, i);
    var x, m1, rest := src[i], Detach(m, src[0], src[i]), Without(src, i);
    OtherChainDetach(m, ssig, src, dsig, dst, i);
    assert Beside(dst, x);
    ChainAttach(m1, dsig, dst, x);
    assert forall j :: 0 <= j < |rest| ==> Apart(rest[j], x);
    OtherChainAttach(m1, ssig, rest, dsig, dst, x);
  }

  lemma OtherChainDetach(m: Mem, ssig: Word, src: seq<nat>, dsig: Word, dst: seq<nat>, i: nat)
    requires Chain(m, ssig, src) && Chain(m, dsig, dst) && 0 < i < |src|
    requires forall j, k :: 0 <= j < |src| && 0 <= k < |dst| ==> Apart(src[j], dst[k])
    requires m[src[i] + PREV] + HEAD_SIZE <= PAGE_SIZE
    requires m[src[i] + NEXT] == MMFLG_CLOSE || m[src[i] + NEXT] + HEAD_SIZE <= PAGE_SIZE
    ensures Chain(Detach(m, src[0], src[i]), dsig, dst)
  {
    var m1 := Detach(m, src[0], src[i]);
    DetachWrites(m, ssig, src, i, dst[0] + LAST);
    forall k | 0 <= k < |dst|
      ensures m1[dst[k]] == m[dst[k]] && m1[dst[k] + PREV] == m[dst[k] + PREV]
      ensures m1[dst[k] + NEXT] == m[dst[k] + NEXT]
    {
      DetachWrites(m, ssig, src, i, dst[k]);
      DetachWrites(m, ssig, src, i, dst[k] + PREV);
      DetachWrites(m, ssig, src, i, dst[k] + NEXT);
    }
    ChainKept(m, m1, dsig, dst);
  }

  lemma OtherChainAttach(m: Mem, osig: Word, other: seq<nat>, sig: Word, list: seq<nat>, x: Word)
    requires Chain(m, osig, other) && Chain(m, sig, list) && Beside(list, x)
    requires forall j, k :: 0 <= j < |other| && 0 <= k < |list| ==> Apart(other[j], list[k])
    requires forall j :: 0 <= j < |other| ==> Apart(other[j], x)
    ensures Chain(Attach(m, list[0], sig, x), osig, other)
  {
    var m1 := Attach(m, list[0], sig, x);
    AttachWrites(m, sig, list, x, other[0] + LAST);
    forall k | 0 <= k < |other|
      ensures m1[other[k]] == m[other[k]] && m1[other[k] + PREV] == m[other[k] + PREV]
      ensures m1[other[k] + NEXT] == m[other[k] + NEXT]
    {
      AttachWrites(m, sig, list, x, other[k]);
      AttachWrites(m, sig, list, x, other[k] + PREV);
      AttachWrites(m, sig, list, x, other[k] + NEXT);
    }
    ChainKept(m, m1, osig, other);
  }

  lemma {:induction false} TotalWithout(list: seq<nat>, lens: map<nat, nat>, i: nat)
    requires 0 < i < |list| && forall j :: 0 < j < |list| ==> list[j] in lens
    ensures forall j :: 0 < j < |list| - 1 ==> Without(list, i)[j] in lens
    ensures Total(Without(list, i), lens) + lens[list[i]] == Total(list, lens)
  {
    var n, rest := |list| - 1, Without(list, i);
    if i == n {
      assert rest == list[..n];
    } else {
      TotalWithout(list[..n], lens, i);
      assert rest[..n - 1] == Without(list[..n], i);
    }
  }

  lemma TotalMore(list: seq<nat>, lens: map<nat, nat>, x: nat)
    requires list != [] && x in lens && forall j :: 0 < j < |list| ==> list[j] in lens
    ensures Total(list + [x], lens) == Total(list, lens) + lens[x]
  {
    assert (list + [x])[..|list|] == list;
  }

  /** The lists after a move, in either direction. */
  lemma PartsMoved(src: seq<nat>, dst: seq<nat>, lens: map<nat, nat>, i: nat)
    requires 0 < i < |src| && Parted(src, dst, lens)
    requires forall j, k :: 0 <= j < k < |src| ==> src[j] != src[k]
    ensures var s, d := Without(src, i), dst + [src[i]];
      Parted(s, d, lens) && s[0] == src[0] && d[0] == dst[0]
      && Total(s, lens) + Total(d, lens) == Total(src, lens) + Total(dst, lens)
  {
    hide Total;
    TotalWithout(src, lens, i);
    TotalMore(dst, lens, src[i]);
    StillIn(src, i);
  }

  lemma StillIn(src: seq<nat>, i: nat)
    requires i < |src|
    ensures forall o :: o in src ==> o in Without(src, i) || o == src[i]
  {
    var s := Without(src, i);
    forall o | o in src ensures o in s || o == src[i] {
      var j :| 0 <= j < |src| && src[j] == o;
      if j < i { assert s[j] == o; }
      if j > i { assert s[j - 1] == o; }
    }
  }

  lemma PartedSwaps(a: seq<nat>, b: seq<nat>, lens: map<nat, nat>)
    requires Parted(a, b, lens)
    ensures Parted(b, a, lens)
  {
  }

  lemma SpreadDistinct(list: seq<nat>)
    requires Spread(list)
    ensures forall j, k :: 0 <= j < k < |list| ==> list[j] != list[k]
  {
    forall j, k | 0 <= j < k < |list| ensures list[j] != list[k] {
      assert Apart(list[j], list[k]);
    }
  }

  lemma FreedShared(l: Layout, i: nat)
    requires Shared(l) && Spread(l.used) && 0 < i < |l.used|
    ensures Shared(Freed(l, i))
  {
    SpreadDistinct(l.used);
    PartsMoved(l.used, l.free, l.lens, i);
  }

  lemma RecycledShared(l: Layout, i: nat)
    requires Shared(l) && Spread(l.free) && 0 < i < |l.free|
    ensures Shared(Recycled(l, i))
  {
    SpreadDistinct(l.free);
    PartedSwaps(l.used, l.free, l.lens);
    PartsMoved(l.free, l.used, l.lens, i);
    PartedSwaps(Without(l.free, i), l.used + [l.free[i]], l.lens);
  }

  /** A block can be unlinked from one list and linked to the other. */
  ghost predicate Movable(m: Mem, from: nat, to: nat, x: nat) {
    |m| == PAGE_SIZE && x + HEAD_SIZE <= PAGE_SIZE && from + MMPOS_ROOT_SIZE <= PAGE_SIZE
    && to + MMPOS_ROOT_SIZE <= PAGE_SIZE
    && m[x + PREV] + HEAD_SIZE <= PAGE_SIZE && m[x + PREV] != x && x != to + LAST
    && (m[x + NEXT] == MMFLG_CLOSE || m[x + NEXT] + HEAD_SIZE <= PAGE_SIZE)
    && Detach(m, from, x)[to + LAST] + HEAD_SIZE <= PAGE_SIZE
  }

  ghost function Moved(m: Mem, from: nat, to: nat, sig: Word, x: Word): (r: Mem)
    requires Movable(m, from, to, x)
  {
    Attach(Detach(m, from, x), to, sig, x)
  }

  /** `m'` is the page after block `i` of `src` moved to `dst`. */
  ghost predicate MoveDone(m: Mem, m': Mem, src: seq<nat>, dsig: Word, dst: seq<nat>, i: nat)
    requires src != [] && dst != [] && i < |src|
  {
    Movable(m, src[0], dst[0], src[i]) && m' == Moved(m, src[0], dst[0], dsig, src[i])
  }

  ghost predicate ListsSpread(src: seq<nat>, dst: seq<nat>) {
    forall j, k :: 0 <= j < |src| && 0 <= k < |dst| ==> Apart(src[j], dst[k])
  }

  /** A move writes only link words, and leaves two proper lists. */
  lemma MoveKeeps(m: Mem, lens: map<nat, nat>, ssig: Word, src: seq<nat>, dsig: Word, dst: seq<nat>, i: nat)
    returns (m': Mem)
    requires Chain(m, ssig, src) && Chain(m, dsig, dst) && 0 < i < |src|
    requires ListsSpread(src, dst) && Parted(src, dst, lens)
    requires
      || (src[0] == MMPOS_USED_ROOT && dst[0] == MMPOS_FREE_ROOT)
      || (src[0] == MMPOS_FREE_ROOT && dst[0] == MMPOS_USED_ROOT)
    ensures MoveDone(m, m', src, dsig, dst, i) && Relinked(m, m', lens)
    ensures Chain(m', ssig, Without(src, i)) && Chain(m', dsig, dst + [src[i]])
  {
    MoveChains(m, ssig, src, dsig, dst, i);
    assert m[src[i] + PREV] != src[i] by { Around(m, ssig, src, i); assert Apart(src[i - 1], src[i]); }
    assert Apart(src[i], dst[0]);
    m' := Moved(m, src[0], dst[0], dsig, src[i]);
    MoveWrites(m, m', lens, ssig, src, dsig, dst, i);
  }

  lemma MoveWrites(m: Mem, m': Mem, lens: map<nat, nat>, ssig: Word, src: seq<nat>, dsig: Word, dst: seq<nat>, i: nat)
    requires Chain(m, ssig, src) && Chain(m, dsig, dst) && 0 < i < |src|
    requires ListsSpread(src, dst) && Parted(src, dst, lens)
    requires
      || (src[0] == MMPOS_USED_ROOT && dst[0] == MMPOS_FREE_ROOT)
      || (src[0] == MMPOS_FREE_ROOT && dst[0] == MMPOS_USED_ROOT)
    requires MoveDone(m, m', src, dsig, dst, i)
    ensures Relinked(m, m', lens)
  {
    var x, m1 := src[i], Detach(m, src[0], src[i]);
    OtherChainDetach(m, ssig, src, dsig, dst, i);
    forall c | 0 <= c < PAGE_SIZE && !LinkWord(lens, c) ensures m'[c] == m[c] {
      NotInList(lens, src, c);
      NotInList(lens, dst, c);
      DetachWrites(m, ssig, src, i, c);
      AttachWrites(m1, dsig, dst, x, c);
    }
  }

  lemma AttachRelinks(m: Mem, lens: map<nat, nat>, sig: Word, list: seq<nat>, x: Word)
    requires Chain(m, sig, list) && (list[0] == MMPOS_USED_ROOT || list[0] == MMPOS_FREE_ROOT)
    requires x in lens && x + MIN_BLOCK <= PAGE_SIZE && forall j :: 0 < j < |list| ==> list[j] in lens
    ensures Relinked(m, Attach(m, list[0], sig, x), lens)
  {
    forall c | 0 <= c < PAGE_SIZE && !LinkWord(lens, c) ensures Attach(m, list[0], sig, x)[c] == m[c] {
      NotInList(lens, list, c);
      AttachWrites(m, sig, list, x, c);
    }
  }

  lemma NotInList(lens: map<nat, nat>, list: seq<nat>, c: nat)
    requires list != [] && (list[0] == MMPOS_USED_ROOT || list[0] == MMPOS_FREE_ROOT)
    requires forall j :: 0 < j < |list| ==> list[j] in lens
    requires !LinkWord(lens, c)
    ensures c != list[0] + LAST
    ensures forall j :: 0 <= j < |list| ==> c != list[j] && c != list[j] + PREV && c != list[j] + NEXT
  {
  }

  lemma UsedFreeSpread(l: Layout)
    requires Shared(l)
    ensures ListsSpread(l.used, l.free) && ListsSpread(l.free, l.used)
  {
    forall j, k | 0 <= j < |l.used| && 0 <= k < |l.free| ensures Apart(l.used[j], l.free[k]) { ListsApart(l, j, k); }
  }

  lemma FreedKeeps(m: Mem, category_id: Word, l: Layout, i: nat) returns (m': Mem)
    requires PageOk(m, category_id, l) && 0 < i < |l.used|
    ensures Movable(m, MMPOS_USED_ROOT, MMPOS_FREE_ROOT, l.used[i])
    ensures m' == Moved(m, MMPOS_USED_ROOT, MMPOS_FREE_ROOT, MMSIG_FREE, l.used[i])
    ensures PageOk(m', category_id, Freed(l, i)) && PayloadsKept(m, m', l.lens)
  {
    hide Fixtures;
    hide Blocks;
    hide Relinked;
    hide Movable;
    hide Moved;
    hide Tiled;
    hide Total;
    hide ListsSpread;
    FreedShared(l, i) by { assert Spread(l.used); }
    UsedFreeSpread(l);
    hide Chain;
    m' := MoveKeeps(m, l.lens, MMSIG_USED, l.used, MMSIG_FREE, l.free, i);
    RestRelinked(m, m', category_id, l.tiles, l.lens);
  }

  lemma RecycledKeeps(m: Mem, category_id: Word, l: Layout, i: nat) returns (m': Mem)
    requires PageOk(m, category_id, l) && 0 < i < |l.free|
    ensures Movable(m, MMPOS_FREE_ROOT, MMPOS_USED_ROOT, l.free[i])
    ensures m' == Moved(m, MMPOS_FREE_ROOT, MMPOS_USED_ROOT, MMSIG_USED, l.free[i])
    ensures PageOk(m', category_id, Recycled(l, i)) && PayloadsKept(m, m', l.lens)
  {
    hide Fixtures;
    hide Blocks;
    hide Relinked;
    hide Movable;
    hide Moved;
    hide Tiled;
    hide Total;
    hide ListsSpread;
    RecycledShared(l, i) by { assert Spread(l.free); }
    UsedFreeSpread(l);
    hide Chain;
    PartedSwaps(l.used, l.free, l.lens);
    m' := MoveKeeps(m, l.lens, MMSIG_FREE, l.free, MMSIG_USED, l.used, i);
    RestRelinked(m, m', category_id, l.tiles, l.lens);
  }

  /** What a move does not touch. */
  lemma RestRelinked(m: Mem, m': Mem, category_id: Word, tiles: seq<nat>, lens: map<nat, nat>)
    requires Tiled(tiles, lens) && Blocks(m, category_id, lens) && Fixtures(m, End(tiles, lens))
    requires Relinked(m, m', lens)
    ensures Blocks(m', category_id, lens) && Fixtures(m', End(tiles, lens)) && PayloadsKept(m, m', lens)
  {
    hide Block;
    hide Fixtures;
    hide Relinked;
    hide SameInside;
    forall o | o in lens ensures Block(m', category_id, o, lens[o]) && SameInside(m, m', o, lens[o]) {
      BlockRelinked(tiles, lens, m, m', category_id, o);
    }
    FixturesRelinked(tiles, lens, m, m');
  }

  // ---- a new block, cut from the front of the bucket ----

  ghost function Inserted(l: Layout, n: nat): (r: Layout) {
    var x := End(l.tiles, l.lens);
    Layout(l.used + [x], l.free, l.tiles + [x], l.lens[x := n])
  }

  /** Block `x` of length `n` was cut off: header length, footer and zeroed payload are written, and the bucket starts
      behind it. */
  ghost predicate Carved(m: Mem, m': Mem, category_id: Word, x: nat, n: nat) {
    |m'| == |m| && (forall c :: 0 <= c < x && c < |m| && c != MMPOS_BCKT_ROOT + NEXT ==> m'[c] == m[c])
    && Block(m', category_id, x, n) && Bucket(m', x + n)
    && forall k :: 0 <= k && HEAD_SIZE + 4 * k < n - FOOT_SIZE ==> m'[x + HEAD_SIZE + 4 * k] == 0
  }

  lemma TiledMore(tiles: seq<nat>, lens: map<nat, nat>, n: nat)
    requires Tiled(tiles, lens) && n >= MIN_BLOCK && n % 4 == 0 && End(tiles, lens) + n <= BCKT_END
    ensures End(tiles, lens) !in lens
    ensures var x := End(tiles, lens); Tiled(tiles + [x], lens[x := n]) && End(tiles + [x], lens[x := n]) == x + n
  {
    var x := End(tiles, lens);
    if x in lens { TileBounds(tiles, lens, x); }
    forall o | o in lens ensures o + lens[o] <= x { TileBounds(tiles, lens, o); }
    hide Adjacent;
    hide Ascending;
    TileLensMore(tiles, lens, x, n);
    AdjacentMore(tiles, lens, x, n);
    AscendingMore(tiles, lens, x, n);
  }

  lemma TileLensMore(tiles: seq<nat>, lens: map<nat, nat>, x: nat, n: nat)
    requires TileLens(tiles, lens) && x !in lens && n >= MIN_BLOCK && n % 4 == 0
    ensures TileLens(tiles + [x], lens[x := n])
    ensures forall i :: 0 <= i < |tiles| ==> (tiles + [x])[i] == tiles[i] && lens[x := n][tiles[i]] == lens[tiles[i]]
  {
    var more, lens' := tiles + [x], lens[x := n];
    assert more[|tiles|] == x;
    forall o ensures o in lens' <==> o in more {
      assert o in more <==> o in tiles || o == x;
    }
    forall i | 0 <= i < |tiles| ensures more[i] == tiles[i] && lens'[tiles[i]] == lens[tiles[i]] {
      assert tiles[i] in lens;
    }
  }

  lemma AdjacentMore(tiles: seq<nat>, lens: map<nat, nat>, x: nat, n: nat)
    requires TileLens(tiles, lens) && Adjacent(tiles, lens) && x == End(tiles, lens) && x !in lens
    requires TileLens(tiles + [x], lens[x := n])
    requires forall i :: 0 <= i < |tiles| ==> (tiles + [x])[i] == tiles[i] && lens[x := n][tiles[i]] == lens[tiles[i]]
    ensures Adjacent(tiles + [x], lens[x := n])
  {
    var more, lens' := tiles + [x], lens[x := n];
    assert tiles != [] ==> x == tiles[|tiles| - 1] + lens[tiles[|tiles| - 1]] && more[0] == tiles[0];
    assert tiles == [] ==> x == MMPOS_BCKT_INIT && more[0] == x;
    hide End;
    forall i | 0 < i < |more| ensures more[i] == more[i - 1] + lens'[more[i - 1]] {
      assert more[i - 1] == tiles[i - 1] && lens'[tiles[i - 1]] == lens[tiles[i - 1]];
      if i == |tiles| {
        assert more[i] == x;
      } else {
        assert more[i] == tiles[i];
      }
    }
  }

  lemma AscendingMore(tiles: seq<nat>, lens: map<nat, nat>, x: nat, n: nat)
    requires TileLens(tiles, lens) && Ascending(tiles, lens) && x !in lens
    requires forall o :: o in lens ==> o + lens[o] <= x
    requires TileLens(tiles + [x], lens[x := n])
    requires forall i :: 0 <= i < |tiles| ==> (tiles + [x])[i] == tiles[i] && lens[x := n][tiles[i]] == lens[tiles[i]]
    ensures Ascending(tiles + [x], lens[x := n])
  {
    var more, lens' := tiles + [x], lens[x := n];
    forall i, j | 0 <= i < j < |more| ensures more[i] + lens'[more[i]] <= more[j] {
      if j < |tiles| { assert tiles[i] + lens[tiles[i]] <= tiles[j]; }
    }
  }

  lemma {:induction false} TotalSame(list: seq<nat>, lens: map<nat, nat>, lens': map<nat, nat>)
    requires forall j :: 0 < j < |list| ==> list[j] in lens && list[j] in lens' && lens'[list[j]] == lens[list[j]]
    ensures Total(list, lens') == Total(list, lens)
  {
    if |list| > 1 {
      TotalSame(list[..|list| - 1], lens, lens');
    }
  }

  lemma PartedMore(used: seq<nat>, free: seq<nat>, lens: map<nat, nat>, x: nat, n: nat)
    requires Parted(used, free, lens) && x !in lens && x != free[0]
    ensures Parted(used + [x], free, lens[x := n])
    ensures Total(used + [x], lens[x := n]) + Total(free, lens[x := n]) == Total(used, lens) + Total(free, lens) + n
  {
    var lens', more := lens[x := n], used + [x];
    TotalSame(used, lens, lens');
    TotalSame(free, lens, lens');
    TotalMore(used, lens', x);
    hide Total;
    forall o | o in lens' ensures o in more || o in free {
      if o != x {
        assert o in used || o in free;
      } else {
        assert more[|used|] == x;
      }
    }
  }

  lemma InsertedShared(l: Layout, n: nat)
    requires Shared(l) && n >= MIN_BLOCK && n % 4 == 0 && End(l.tiles, l.lens) + n <= BCKT_END
    ensures Shared(Inserted(l, n)) && Tiled(Inserted(l, n).tiles, Inserted(l, n).lens)
    ensures End(Inserted(l, n).tiles, Inserted(l, n).lens) == End(l.tiles, l.lens) + n
    ensures End(l.tiles, l.lens) !in l.lens && End(l.tiles, l.lens) >= MMPOS_BCKT_INIT
    ensures l.used != [] && l.used[0] == MMPOS_USED_ROOT
    ensures forall j :: 0 < j < |l.used| ==> l.used[j] in Inserted(l, n).lens
  {
    var x := End(l.tiles, l.lens);
    TiledMore(l.tiles, l.lens, n);
    if l.tiles != [] { TileBounds(l.tiles, l.lens, l.tiles[|l.tiles| - 1]); }
    hide Tiled;
    PartedMore(l.used, l.free, l.lens, x, n);
  }

  /** What lies in front of the bucket stays while the new block is cut off. */
  lemma CarvedChain(m: Mem, m1: Mem, category_id: Word, lens: map<nat, nat>, x: nat, n: nat, sig: Word, list: seq<nat>)
    requires Chain(m, sig, list) && Carved(m, m1, category_id, x, n)
    requires list[0] == MMPOS_USED_ROOT || list[0] == MMPOS_FREE_ROOT
    requires forall o :: o in lens ==> MMPOS_BCKT_INIT <= o && o + MIN_BLOCK <= x
    requires forall j :: 0 < j < |list| ==> list[j] in lens
    requires x >= MMPOS_BCKT_INIT
    ensures Chain(m1, sig, list) && Beside(list, x)
  {
    assert x + MIN_BLOCK <= PAGE_SIZE;
    hide Link;
    hide Bucket;
    hide Block;
    ChainKept(m, m1, sig, list);
  }

  lemma CarvedBlock(m: Mem, m1: Mem, category_id: Word, x: nat, n: nat, o: nat, len: nat)
    requires Carved(m, m1, category_id, x, n) && Block(m, category_id, o, len) && MMPOS_BCKT_INIT <= o && o + len <= x
    ensures Block(m1, category_id, o, len) && SameInside(m, m1, o, len)
  {
    hide Bucket;
  }

  lemma CarvedBlocks(m: Mem, m1: Mem, category_id: Word, tiles: seq<nat>, lens: map<nat, nat>, n: nat)
    requires Tiled(tiles, lens) && Blocks(m, category_id, lens) && Carved(m, m1, category_id, End(tiles, lens), n)
    ensures Blocks(m1, category_id, lens[End(tiles, lens) := n]) && PayloadsKept(m, m1, lens)
  {
    var x := End(tiles, lens);
    assert Block(m1, category_id, x, n);
    hide Carved;
    hide Block;
    hide SameInside;
    forall o | o in lens ensures Block(m1, category_id, o, lens[o]) && SameInside(m, m1, o, lens[o]) {
      TileBounds(tiles, lens, o);
      CarvedBlock(m, m1, category_id, x, n, o, lens[o]);
    }
  }

  lemma CarvedLists(m: Mem, m1: Mem, category_id: Word, l: Layout, n: nat)
    requires Shared(l) && Lists(m, l) && Carved(m, m1, category_id, End(l.tiles, l.lens), n)
    ensures Chain(m1, MMSIG_USED, l.used) && Chain(m1, MMSIG_FREE, l.free)
    ensures Beside(l.used, End(l.tiles, l.lens)) && Beside(l.free, End(l.tiles, l.lens))
  {
    var x := End(l.tiles, l.lens);
    assert x >= MMPOS_BCKT_INIT by { if l.tiles != [] { TileBounds(l.tiles, l.lens, l.tiles[|l.tiles| - 1]); } }
    forall o | o in l.lens ensures MMPOS_BCKT_INIT <= o && o + MIN_BLOCK <= x {
      TileBounds(l.tiles, l.lens, o);
    }
    hide Tiled;
    hide Total;
    hide Chain;
    hide Carved;
    hide Beside;
    CarvedChain(m, m1, category_id, l.lens, x, n, MMSIG_USED, l.used);
    CarvedChain(m, m1, category_id, l.lens, x, n, MMSIG_FREE, l.free);
  }

  /** Block `x` is there, but in no list yet. */
  ghost predicate Pending(m: Mem, category_id: Word, used: seq<nat>, free: seq<nat>, tiles: seq<nat>,
                          lens: map<nat, nat>, x: nat) {
    Chain(m, MMSIG_USED, used) && Chain(m, MMSIG_FREE, free) && Beside(used, x) && Beside(free, x)
    && PendingLists(used, free, lens, x)
    && Tiled(tiles, lens) && Blocks(m, category_id, lens) && Fixtures(m, End(tiles, lens))
  }

  ghost predicate PendingLists(used: seq<nat>, free: seq<nat>, lens: map<nat, nat>, x: nat) {
    ListsSpread(free, used) && used != [] && used[0] == MMPOS_USED_ROOT && x in lens
    && forall j :: 0 < j < |used| ==> used[j] in lens
  }

  /** It becomes the last one in use. */
  lemma AppendKeeps(m: Mem, category_id: Word, used: seq<nat>, free: seq<nat>, tiles: seq<nat>, lens: map<nat, nat>,
                    x: Word) returns (m': Mem)
    requires Pending(m, category_id, used, free, tiles, lens, x)
    ensures AppendDone(m, m', x)
    ensures Chain(m', MMSIG_USED, used + [x]) && Chain(m', MMSIG_FREE, free)
    ensures Blocks(m', category_id, lens) && PayloadsKept(m, m', lens)
    ensures Tiled(tiles, lens) && Fixtures(m', End(tiles, lens))
  {
    hide Tiled;
    hide Blocks;
    hide Fixtures;
    m' := Attach(m, MMPOS_USED_ROOT, MMSIG_USED, x);
    AttachRelinks(m, lens, MMSIG_USED, used, x);
    RestRelinked(m, m', category_id, tiles, lens);
    ChainAttach(m, MMSIG_USED, used, x);
    OtherChainAttach(m, MMSIG_FREE, free, MMSIG_USED, used, x);
  }

  ghost predicate AppendDone(m: Mem, m': Mem, x: nat) {
    |m| == PAGE_SIZE && x + HEAD_SIZE <= PAGE_SIZE && m[MMPOS_USED_ROOT + LAST] + HEAD_SIZE <= PAGE_SIZE
    && m' == Attach(m, MMPOS_USED_ROOT, MMSIG_USED, x)
  }

  lemma PendingLayout(l: Layout, n: nat)
    requires Shared(l) && n >= MIN_BLOCK && n % 4 == 0 && End(l.tiles, l.lens) + n <= BCKT_END
    ensures var x := End(l.tiles, l.lens);
      PendingLists(l.used, l.free, l.lens[x := n], x) && x >= MMPOS_BCKT_INIT
      && Tiled(l.tiles, l.lens) && Tiled(l.tiles + [x], l.lens[x := n]) && End(l.tiles + [x], l.lens[x := n]) == x + n
  {
    InsertedShared(l, n);
    UsedFreeSpread(l);
  }

  lemma CarvedPending(m: Mem, m1: Mem, category_id: Word, l: Layout, n: nat)
    requires Shared(l) && Lists(m, l) && Blocks(m, category_id, l.lens) && Fixtures(m, End(l.tiles, l.lens))
    requires Carved(m, m1, category_id, End(l.tiles, l.lens), n)
    requires n >= MIN_BLOCK && n % 4 == 0 && End(l.tiles, l.lens) + n <= BCKT_END
    ensures var x := End(l.tiles, l.lens);
      Pending(m1, category_id, l.used, l.free, l.tiles + [x], l.lens[x := n], x) && PayloadsKept(m, m1, l.lens)
  {
    hide Tiled;
    hide Shared;
    hide End;
    hide Lists;
    hide Blocks;
    hide Fixtures;
    hide Carved;
    hide Chain;
    hide Beside;
    hide PendingLists;
    hide PayloadsKept;
    var x := End(l.tiles, l.lens);
    PendingLayout(l, n);
    CarvedLists(m, m1, category_id, l, n);
    CarvedBlocks(m, m1, category_id, l.tiles, l.lens, n);
    CarvedFixtures(m, m1, category_id, x, n, x);
  }

  /** What insertion does: the carved block becomes the last one in use. */
  lemma InsertKeeps(m: Mem, m1: Mem, category_id: Word, l: Layout, n: nat) returns (m': Mem)
    requires PageOk(m, category_id, l) && Carved(m, m1, category_id, End(l.tiles, l.lens), n)
    requires n >= MIN_BLOCK && n % 4 == 0 && End(l.tiles, l.lens) + n <= BCKT_END
    ensures AppendDone(m1, m', End(l.tiles, l.lens))
    ensures PageOk(m', category_id, Inserted(l, n)) && PayloadsKept(m, m', l.lens)
    ensures SameInside(m1, m', End(l.tiles, l.lens), n)
  {
    var x := End(l.tiles, l.lens);
    hide Chain;
    hide Blocks;
    hide Fixtures;
    hide Carved;
    hide Pending;
    hide AppendDone;
    hide SameInside;
    hide PayloadsKept;
    hide Total;
    hide Parted;
    InsertedShared(l, n);
    CarvedPending(m, m1, category_id, l, n);
    hide Shared;
    m' := AppendKeeps(m1, category_id, l.used, l.free, l.tiles + [x], l.lens[x := n], x);
    PayloadOf(m1, m', l.lens[x := n], x);
    PayloadsBoth(m, m1, m', l.lens, x, n);
  }

  lemma PayloadOf(m: Mem, m': Mem, lens: map<nat, nat>, o: nat)
    requires PayloadsKept(m, m', lens) && o in lens
    ensures SameInside(m, m', o, lens[o])
  {
  }

  lemma CarvedFixtures(m: Mem, m1: Mem, category_id: Word, x: nat, n: nat, end: nat)
    requires Fixtures(m, end) && Carved(m, m1, category_id, x, n) && x >= MMPOS_BCKT_INIT
    ensures Fixtures(m1, x + n)
  {
  }

  lemma PayloadsBoth(m: Mem, m1: Mem, m2: Mem, lens: map<nat, nat>, x: nat, n: nat)
    requires PayloadsKept(m, m1, lens) && PayloadsKept(m1, m2, lens[x := n]) && x !in lens
    ensures PayloadsKept(m, m2, lens)
  {
    forall o | o in lens ensures SameInside(m, m2, o, lens[o]) {
      assert SameInside(m, m1, o, lens[o]) && o in lens[x := n] && SameInside(m1, m2, o, lens[o]);
    }
  }
}
