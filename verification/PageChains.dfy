/** The linked lists inside one memory page: a page is a buffer of 32-bit words, addressed by their
    byte offsets, and each list starts at a root block (smmr_memory.c). */
module PageChains {
  import opened Common

  type Word = n: nat | n < UINT32 witness 0
  /** mem[o] is the word at byte offset `o`; only offsets divisible by 4 are used. */
  type Mem = seq<Word>

  const PAGE_SIZE := 131072
  const HEAD_SIZE := 16
  const FOOT_SIZE := 16
  const DETAIL_SIZE := 24
  const MMSIZ_HF_SIZE := HEAD_SIZE + FOOT_SIZE
  const MMPOS_ROOT_SIZE := HEAD_SIZE + DETAIL_SIZE + FOOT_SIZE
  const MMPOS_USED_ROOT := 0
  const MMPOS_FREE_ROOT := MMPOS_USED_ROOT + MMPOS_ROOT_SIZE
  const MMPOS_BCKT_ROOT := MMPOS_FREE_ROOT + MMPOS_ROOT_SIZE
  const MMPOS_BCKT_INIT := MMPOS_BCKT_ROOT + MMPOS_ROOT_SIZE
  const MMSIZ_ALL_ROOT := MMPOS_BCKT_INIT + MMPOS_ROOT_SIZE
  const MMSIZ_BCKT_INIT_SIZE := PAGE_SIZE - MMSIZ_ALL_ROOT

  const MMSIG_USED: Word := 0xDB00C0DE
  const MMSIG_FREE: Word := 0xDB55C0DE
  const MMSIG_BCKT: Word := 0xDB77C0DE
  const MMSIG_SUFX: Word := 0xDEADC0DE
  const MMFLG_CLOSE: Word := 0xFFFFFFFF

  /** Offsets of the fields of memitem_head, memitem_root_detail and memitem_foot. */
  const PREV := 4
  const NEXT := 8
  const LEN := 12
  const LAST := HEAD_SIZE + 4
  const FREE_BYTES := HEAD_SIZE + 8
  const FREE_CNT := HEAD_SIZE + 12
  const USE_BYTES := HEAD_SIZE + 16
  const USE_CNT := HEAD_SIZE + 20
  const SUFFIX := 4
  const CATEGORY := 8

  /** The smallest distance between two blocks: header, one word, footer. */
  const MIN_BLOCK := MMSIZ_HF_SIZE + 4

  ghost predicate Apart(a: nat, b: nat) {
    a + MIN_BLOCK <= b || b + MIN_BLOCK <= a
  }

  /** The blocks of a list, the root in front, do not overlap. */
  ghost predicate Spread(list: seq<nat>) {
    list != [] && list[0] + MMPOS_ROOT_SIZE <= PAGE_SIZE
    && (forall i :: 0 <= i < |list| ==> list[i] + MIN_BLOCK <= PAGE_SIZE)
    && forall i, j :: 0 <= i < j < |list| ==> Apart(list[i], list[j])
  }

  /** Block `x` overlaps none of them. */
  ghost predicate Beside(list: seq<nat>, x: nat) {
    x + MIN_BLOCK <= PAGE_SIZE && forall i :: 0 <= i < |list| ==> Apart(list[i], x)
  }

  /** `list` is doubly linked, every block carries the signature, and the root, its first block, knows the last one. */
  ghost predicate Chain(m: Mem, sig: Word, list: seq<nat>) {
    |m| == PAGE_SIZE && Spread(list)
    && (forall i :: 0 <= i < |list| ==> Link(m, sig, list, i))
    && m[list[0] + LAST] == list[|list| - 1]
  }

  ghost predicate Link(m: Mem, sig: Word, list: seq<nat>, i: nat)
    requires |m| == PAGE_SIZE && Spread(list) && i < |list|
  {
    var o := list[i];
    m[o] == sig && m[o + PREV] == (if i > 0 then list[i - 1] else 0)
    && m[o + NEXT] == if i + 1 < |list| then list[i + 1] else MMFLG_CLOSE
  }

  // ---- taking a block out of a list, and putting one at its end ----

  /** The writes that unlink block `x`. */
  function Detach(m: Mem, root: nat, x: nat): (m': Mem)
    requires |m| == PAGE_SIZE && x + HEAD_SIZE <= PAGE_SIZE && root + MMPOS_ROOT_SIZE <= PAGE_SIZE
    requires m[x + PREV] + HEAD_SIZE <= PAGE_SIZE
    requires m[x + NEXT] == MMFLG_CLOSE || m[x + NEXT] + HEAD_SIZE <= PAGE_SIZE
    ensures |m'| == PAGE_SIZE
  {
    var p, n := m[x + PREV], m[x + NEXT];
    if n == MMFLG_CLOSE then m[p + NEXT := n][root + LAST := p] else m[p + NEXT := n][n + PREV := p]
  }

  /** The writes that append block `x` with signature `sig`. */
  function Attach(m: Mem, root: nat, sig: Word, x: Word): (m': Mem)
    requires |m| == PAGE_SIZE && x + HEAD_SIZE <= PAGE_SIZE && root + MMPOS_ROOT_SIZE <= PAGE_SIZE
    requires m[root + LAST] + HEAD_SIZE <= PAGE_SIZE
    ensures |m'| == PAGE_SIZE
  {
    var last := m[root + LAST];
    m[x := sig][x + NEXT := MMFLG_CLOSE][x + PREV := last][last + NEXT := x][root + LAST := x]
  }

  ghost function Without(list: seq<nat>, i: nat): (r: seq<nat>)
    requires i < |list|
  {
    list[..i] + list[i + 1..]
  }

  /** Where the links of block `i` lead. */
  lemma Around(m: Mem, sig: Word, list: seq<nat>, i: nat)
    requires Chain(m, sig, list) && 0 < i < |list|
    ensures m[list[i] + PREV] == list[i - 1]
    ensures m[list[i] + NEXT] == if i + 1 < |list| then list[i + 1] else MMFLG_CLOSE
  {
    assert Link(m, sig, list, i);
  }

  lemma SpreadWithout(list: seq<nat>, i: nat)
    requires Spread(list) && 0 < i < |list|
    ensures Spread(Without(list, i))
  {
  }

  lemma ChainDetach(m: Mem, sig: Word, list: seq<nat>, i: nat)
    requires Chain(m, sig, list) && 0 < i < |list|
    ensures m[list[i] + PREV] + HEAD_SIZE <= PAGE_SIZE
    ensures m[list[i] + NEXT] == MMFLG_CLOSE || m[list[i] + NEXT] + HEAD_SIZE <= PAGE_SIZE
    ensures Chain(Detach(m, list[0], list[i]), sig, Without(list, i))
  {
    Around(m, sig, list, i);
    SpreadWithout(list, i);
    forall k | 0 <= k < |list| - 1 ensures Link(Detach(m, list[0], list[i]), sig, Without(list, i), k) {
      LinkDetach(m, sig, list, i, k);
    }
  }

  lemma LinkDetach(m: Mem, sig: Word, list: seq<nat>, i: nat, k: nat)
    requires Chain(m, sig, list) && 0 < i < |list| && k < |list| - 1
    requires m[list[i] + PREV] == list[i - 1]
    requires m[list[i] + NEXT] == if i + 1 < |list| then list[i + 1] else MMFLG_CLOSE
    requires Spread(Without(list, i))
    ensures Link(Detach(m, list[0], list[i]), sig, Without(list, i), k)
  {
    var k0 := if k < i then k else k + 1;
    assert Link(m, sig, list, k0);
    assert k0 != i - 1 ==> Apart(list[i - 1], list[k0]);
    assert i + 1 < |list| && k0 != i + 1 ==> Apart(list[i + 1], list[k0]);
    assert k0 != 0 ==> Apart(list[0], list[k0]);
  }

  lemma SpreadMore(list: seq<nat>, x: nat)
    requires Spread(list) && Beside(list, x)
    ensures Spread(list + [x])
  {
  }

  lemma ChainAttach(m: Mem, sig: Word, list: seq<nat>, x: Word)
    requires Chain(m, sig, list) && Beside(list, x)
    ensures Chain(Attach(m, list[0], sig, x), sig, list + [x])
  {
    SpreadMore(list, x);
    forall k | 0 <= k <= |list| ensures Link(Attach(m, list[0], sig, x), sig, list + [x], k) {
      LinkAttach(m, sig, list, x, k);
    }
  }

  lemma LinkAttach(m: Mem, sig: Word, list: seq<nat>, x: Word, k: nat)
    requires Chain(m, sig, list) && Beside(list, x) && Spread(list + [x]) && k <= |list|
    ensures Link(Attach(m, list[0], sig, x), sig, list + [x], k)
  {
    var last := |list| - 1;
    assert Apart(list[last], x) && Apart(list[0], x);
    if k < |list| {
      assert Link(m, sig, list, k);
      assert Apart(list[k], x);
      assert k < last ==> Apart(list[k], list[last]);
      assert k != 0 ==> Apart(list[0], list[k]);
      assert list[k] + MIN_BLOCK <= PAGE_SIZE;
    }
    assert m[list[0] + LAST] == list[last] && list[last] + MIN_BLOCK <= PAGE_SIZE && x + MIN_BLOCK <= PAGE_SIZE;
    hide Chain;
    hide Spread;
    hide Beside;
  }

  /** A list none of whose words was written. */
  lemma ChainKept(m: Mem, m': Mem, sig: Word, list: seq<nat>)
    requires Chain(m, sig, list) && |m'| == |m|
    requires m'[list[0] + LAST] == m[list[0] + LAST]
    requires forall i :: 0 <= i < |list| ==>
      m'[list[i]] == m[list[i]] && m'[list[i] + PREV] == m[list[i] + PREV]
      && m'[list[i] + NEXT] == m[list[i] + NEXT]
    ensures Chain(m', sig, list)
  {
    forall k | 0 <= k < |list| ensures Link(m', sig, list, k) {
      assert Link(m, sig, list, k);
    }
  }

  /** Which words the two operations write: links of the list itself, and the header of `x`. */
  lemma DetachWrites(m: Mem, sig: Word, list: seq<nat>, i: nat, c: nat)
    requires Chain(m, sig, list) && 0 < i < |list| && c < PAGE_SIZE
    requires c != list[0] + LAST && forall j :: 0 <= j < |list| ==> c != list[j] + PREV && c != list[j] + NEXT
    ensures m[list[i] + PREV] + HEAD_SIZE <= PAGE_SIZE
    ensures m[list[i] + NEXT] == MMFLG_CLOSE || m[list[i] + NEXT] + HEAD_SIZE <= PAGE_SIZE
    ensures Detach(m, list[0], list[i])[c] == m[c]
  {
    Around(m, sig, list, i);
  }

  lemma AttachWrites(m: Mem, sig: Word, list: seq<nat>, x: Word, c: nat)
    requires Chain(m, sig, list) && x + MIN_BLOCK <= PAGE_SIZE && c < PAGE_SIZE
    requires c != list[0] + LAST && c != x && c != x + PREV && c != x + NEXT
    requires forall j :: 0 <= j < |list| ==> c != list[j] + NEXT
    ensures Attach(m, list[0], sig, x)[c] == m[c]
  {
  }
}
