/** One data file: a bitmap over 128-byte pages behind the file header, and the
    items stored in runs of pages (smmr_database.c). */
module DataFiles {
  import opened Common

  newtype byte = x: int | 0 <= x < 256
  type Bytes = seq<byte>

  const IPC_DATAFILE_TTLSIZE := 134217728
  const IPC_DATAFILE_ALIGNED := 128
  /** sizeof(db_table_header_t): 128 bytes of fields and one bitmap bit for every 128 bytes of the file. */
  const HEADER_SIZE := 128 + IPC_DATAFILE_TTLSIZE / IPC_DATAFILE_ALIGNED / 8
  const IPC_DATAFILE_PAGECNT := (IPC_DATAFILE_TTLSIZE - HEADER_SIZE) / IPC_DATAFILE_ALIGNED
  const ITEM_HEADER_SIZE := 24
  const DATAITEM_SIGNATURE_ID := 0xDEADC1DE

  /** A stored item: struct ipcshm_dataitm with flags and expire 0, its key and its value. */
  datatype Item = Item(key: Bytes, val: Bytes)

  function ItemLength(i: Item): (r: nat) {
    |i.key| + |i.val| + ITEM_HEADER_SIZE
  }

  /** The lengths of an item and their alignment fit the 32-bit fields, and neither part is empty. */
  predicate Storable(i: Item) {
    i.key != [] && i.val != [] && ItemLength(i) + IPC_DATAFILE_ALIGNED < UINT32
  }

  /** The length rounded up to whole pages: the least multiple of the page size that is not below it. */
  function AlignedSize(length: nat): (r: nat)
    ensures r % IPC_DATAFILE_ALIGNED == 0 && length <= r < length + IPC_DATAFILE_ALIGNED
  {
    if length % IPC_DATAFILE_ALIGNED == 0 then length else (length / IPC_DATAFILE_ALIGNED + 1) * IPC_DATAFILE_ALIGNED
  }

  /** The pages an item takes. */
  function PagesOf(i: Item): (n: nat)
    ensures n * IPC_DATAFILE_ALIGNED == AlignedSize(ItemLength(i)) >= ItemLength(i)
    ensures n >= 1
  {
    AlignedSize(ItemLength(i)) / IPC_DATAFILE_ALIGNED
  }

  /** An item has `p` pages exactly if it fits into them, and not into one less. */
  lemma PagesOfIff(i: Item, p: nat)
    ensures PagesOf(i) == p <==>
      (p - 1) * IPC_DATAFILE_ALIGNED < ITEM_HEADER_SIZE + |i.key| + |i.val| <= p * IPC_DATAFILE_ALIGNED
  {
    hide AlignedSize;
  }

  /** In the lengths of the key and of the two values: the new value needs no more pages than the old one. */
  predicate NoMorePages(keylen: nat, old_len: nat, new_len: nat) {
    (ITEM_HEADER_SIZE + keylen + new_len + IPC_DATAFILE_ALIGNED - 1) / IPC_DATAFILE_ALIGNED
      <= (ITEM_HEADER_SIZE + keylen + old_len + IPC_DATAFILE_ALIGNED - 1) / IPC_DATAFILE_ALIGNED
  }

  lemma NoMorePagesIff(key: Bytes, old_val: Bytes, val: Bytes)
    ensures PagesOf(Item(key, old_val)) >= PagesOf(Item(key, val)) <==> NoMorePages(|key|, |old_val|, |val|)
  {
    PagesAreCeil(Item(key, old_val));
    PagesAreCeil(Item(key, val));
    hide PagesOf;
  }

  lemma PagesAreCeil(i: Item)
    ensures PagesOf(i) ==
      (ITEM_HEADER_SIZE + |i.key| + |i.val| + IPC_DATAFILE_ALIGNED - 1) / IPC_DATAFILE_ALIGNED
  {
    PagesOfIff(i, PagesOf(i));
    hide PagesOf;
  }

  /** The file's remaining size after `n` more bytes are taken; it stops at zero. */
  function Debit(remain: nat, n: nat): (r: nat) {
    if remain > n then remain - n else 0
  }

  /** A file that has not even one free page for an item of one page is marked as full. */
  function RemainAfterRefusal(remain: nat, n: nat): (r: nat) {
    if remain > n * IPC_DATAFILE_ALIGNED && n == 1 then 0 else remain
  }

  function OffsetOf(page: nat): (r: nat) {
    HEADER_SIZE + page * IPC_DATAFILE_ALIGNED
  }

  /** The pages lie side by side behind the header, and the last one ends inside the file. */
  lemma OffsetsTile(page: nat)
    ensures OffsetOf(0) == HEADER_SIZE && OffsetOf(page + 1) == OffsetOf(page) + IPC_DATAFILE_ALIGNED
    ensures page < IPC_DATAFILE_PAGECNT <==> OffsetOf(page) + IPC_DATAFILE_ALIGNED <= IPC_DATAFILE_TTLSIZE
  {
  }

  // ---- bytes ----

  function U32(n: nat): (b: Bytes)
    requires n < UINT32
    ensures |b| == 4
  {
    [(n % 256) as byte, (n / 256 % 256) as byte, (n / 65536 % 256) as byte, (n / 16777216) as byte]
  }

  function U32At(d: Bytes, o: nat): (r: nat)
    requires o + 4 <= |d|
  {
    d[o] as nat + d[o + 1] as nat * 256 + d[o + 2] as nat * 65536 + d[o + 3] as nat * 16777216
  }

  lemma Digits(n: nat)
    ensures n == n % 256 + n / 256 % 256 * 256 + n / 65536 % 256 * 65536 + n / 16777216 * 16777216
  {
    var a := n / 256;
    var b := a / 256;
    assert n / 65536 == b && n / 16777216 == b / 256;
  }

  lemma U32RoundTrip(d: Bytes, o: nat, n: nat)
    requires o + 4 <= |d| && n < UINT32 && d[o..o + 4] == U32(n)
    ensures U32At(d, o) == n
  {
    Digits(n);
    var b := d[o..o + 4];
    assert d[o] == b[0] && d[o + 1] == b[1] && d[o + 2] == b[2] && d[o + 3] == b[3];
  }

  /** The item header as the bytes that memcpy puts in front of key and value. */
  function HeaderBytes(i: Item): (b: Bytes)
    requires Storable(i)
    ensures |b| == ITEM_HEADER_SIZE
  {
    U32(DATAITEM_SIGNATURE_ID) + U32(ItemLength(i)) + U32(0) + U32(0) + U32(|i.key|) + U32(|i.val|)
  }

  function Image(i: Item): (b: Bytes)
    requires Storable(i)
    ensures |b| == ItemLength(i)
  {
    HeaderBytes(i) + i.key + i.val
  }

  ghost predicate ItemAt(d: Bytes, o: nat, i: Item) {
    Storable(i) && o + ItemLength(i) <= |d| && d[o..o + ItemLength(i)] == Image(i)
  }

  /** The fields of an item header that are ever read. */
  datatype Head = Head(signature: nat, length: nat, keylen: nat, vallen: nat)

  function ReadHead(d: Bytes, o: nat): (r: Head)
    requires o + ITEM_HEADER_SIZE <= |d|
  {
    Head(U32At(d, o), U32At(d, o + 4), U32At(d, o + 16), U32At(d, o + 20))
  }

  /** The check that every reader of an item makes first. The sum of the two 32-bit fields wraps, and the 64-bit size
      of the header is added to what is left of it. */
  predicate HeadOk(h: Head) {
    h.signature == DATAITEM_SIGNATURE_ID && (h.keylen + h.vallen) % UINT32 + ITEM_HEADER_SIZE == h.length
  }

  /** What the reading side finds in the fields of an item's header, and behind it. */
  lemma ItemFields(d: Bytes, o: nat, i: Item)
    requires ItemAt(d, o, i)
    ensures ReadHead(d, o) == Head(DATAITEM_SIGNATURE_ID, ItemLength(i), |i.key|, |i.val|)
    ensures d[o + ITEM_HEADER_SIZE..o + ITEM_HEADER_SIZE + |i.key|] == i.key
    ensures d[o + ITEM_HEADER_SIZE + |i.key|..o + ItemLength(i)] == i.val
  {
    var m := Image(i);
    assert forall j :: 0 <= j < |m| ==> d[o + j] == d[o..o + ItemLength(i)][j] == m[j];
    assert d[o..o + 4] == m[..4] == U32(DATAITEM_SIGNATURE_ID);
    assert d[o + 4..o + 8] == m[4..8] == U32(ItemLength(i));
    assert d[o + 16..o + 20] == m[16..20] == U32(|i.key|);
    assert d[o + 20..o + 24] == m[20..24] == U32(|i.val|);
    assert d[o + 24..o + 24 + |i.key|] == m[24..24 + |i.key|] == i.key;
    assert d[o + 24 + |i.key|..o + ItemLength(i)] == m[24 + |i.key|..] == i.val;
    U32RoundTrip(d, o, DATAITEM_SIGNATURE_ID);
    U32RoundTrip(d, o + 4, ItemLength(i));
    U32RoundTrip(d, o + 16, |i.key|);
    U32RoundTrip(d, o + 20, |i.val|);
  }

  lemma HeadOfItem(d: Bytes, o: nat, i: Item)
    requires ItemAt(d, o, i)
    ensures o + ITEM_HEADER_SIZE <= |d| && HeadOk(ReadHead(d, o))
    ensures AlignedSize(ReadHead(d, o).length) == PagesOf(i) * IPC_DATAFILE_ALIGNED
  {
    assert o + ITEM_HEADER_SIZE <= |d| && Storable(i);
    hide ItemAt;
    hide ReadHead;
    hide AlignedSize;
    ItemFields(d, o, i);
    HeadOfStorable(i);
  }

  lemma HeadOfStorable(i: Item)
    requires Storable(i)
    ensures HeadOk(Head(DATAITEM_SIGNATURE_ID, ItemLength(i), |i.key|, |i.val|))
    ensures AlignedSize(ItemLength(i)) == PagesOf(i) * IPC_DATAFILE_ALIGNED
  {
  }

  // ---- runs of free pages ----

  ghost predicate FreeRun(bits: seq<bool>, p: int, n: nat) {
    1 <= p && p + n <= IPC_DATAFILE_PAGECNT <= |bits| && forall q :: p <= q < p + n ==> !bits[q]
  }

  /** The lowest free run of `n` pages. */
  ghost predicate FirstFit(bits: seq<bool>, p: nat, n: nat) {
    FreeRun(bits, p, n) && forall q :: q < p ==> !FreeRun(bits, q, n)
  }

  /** A run of marked pages and a run of unmarked ones do not overlap. */
  lemma RunsApart(bits: seq<bool>, q: nat, m: nat, p: nat, n: nat)
    requires m >= 1 && n >= 1 && q + m <= |bits| && forall j :: q <= j < q + m ==> bits[j]
    requires FreeRun(bits, p, n)
    ensures q + m <= p || p + n <= q
  {
    assert bits[q] && !bits[p];
  }

  /** Pages 1 .. used are taken and all behind them are free, and the remaining size says so; a full
      file may also say that nothing remains. */
  ghost predicate Packed(bits: seq<bool>, remain: nat, used: nat) {
    && used < IPC_DATAFILE_PAGECNT <= |bits|
    && (forall q :: 1 <= q < IPC_DATAFILE_PAGECNT ==> (bits[q] <==> q <= used))
    && (remain == (IPC_DATAFILE_PAGECNT - used) * IPC_DATAFILE_ALIGNED
        || (remain == 0 && used == IPC_DATAFILE_PAGECNT - 1))
  }

  lemma NewPacked(bits: seq<bool>)
    requires |bits| == IPC_DATAFILE_TTLSIZE / IPC_DATAFILE_ALIGNED && forall p :: 0 <= p < |bits| ==> !bits[p]
    ensures Packed(bits, IPC_DATAFILE_TTLSIZE - HEADER_SIZE, 0)
  {
  }

  /** `n` more pages fit behind the first `used`. */
  predicate PagesLeft(used: nat, n: nat) {
    1 + used + n <= IPC_DATAFILE_PAGECNT
  }

  /** Without frees a file fills from the front: the lowest run begins right behind the pages taken, and
      the two checks of an insertion come to the same. */
  lemma PackedFirstFit(bits: seq<bool>, remain: nat, used: nat, n: nat)
    requires Packed(bits, remain, used) && n >= 1
    ensures forall p: nat :: FirstFit(bits, p, n) <==> p == 1 + used && PagesLeft(used, n)
    ensures remain > n * IPC_DATAFILE_ALIGNED <==> PagesLeft(used, n)
    ensures (exists p :: FreeRun(bits, p, n)) <==> PagesLeft(used, n)
  {
    if PagesLeft(used, n) {
      assert FreeRun(bits, 1 + used, n);
    }
    forall p | FreeRun(bits, p, n) ensures p >= 1 + used {
      assert !bits[p];
    }
  }

  lemma PackedMore(bits: seq<bool>, bits': seq<bool>, remain: nat, used: nat, n: nat)
    requires Packed(bits, remain, used) && n >= 1 && PagesLeft(used, n) && |bits'| == |bits|
    requires forall q :: 0 <= q < |bits| ==> bits'[q] == (bits[q] || 1 + used <= q < 1 + used + n)
    ensures remain >= n * IPC_DATAFILE_ALIGNED && Packed(bits', remain - n * IPC_DATAFILE_ALIGNED, used + n)
  {
  }

  /** A refused item leaves a file as it is, unless it finds out that the file is full. */
  lemma PackedKept(bits: seq<bool>, remain: nat, remain': nat, used: nat)
    requires Packed(bits, remain, used)
    requires remain' == remain || (remain' == 0 && forall p :: !FreeRun(bits, p, 1))
    ensures Packed(bits, remain', used)
  {
    if remain' != remain {
      assert !FreeRun(bits, 1 + used, 1);
    }
  }

  lemma ItemKept(d: Bytes, d': Bytes, o: nat, i: Item)
    requires ItemAt(d, o, i) && |d'| == |d|
    requires forall j :: o <= j < o + ItemLength(i) ==> d'[j] == d[j]
    ensures ItemAt(d', o, i)
  {
    assert d'[o..o + ItemLength(i)] == d[o..o + ItemLength(i)];
  }

  /** Item `i` sits on marked pages inside the file, and its bytes are there. */
  ghost predicate Placed(bits: seq<bool>, d: Bytes, p: nat, i: Item) {
    1 <= p && p + PagesOf(i) <= IPC_DATAFILE_PAGECNT <= |bits|
    && (forall q :: p <= q < p + PagesOf(i) ==> bits[q])
    && ItemAt(d, OffsetOf(p), i)
  }

  /** The stored items, by first page, have marked pages of their own. */
  ghost predicate FileOk(bits: seq<bool>, d: Bytes, live: map<nat, Item>) {
    |bits| == IPC_DATAFILE_TTLSIZE / IPC_DATAFILE_ALIGNED && |d| == IPC_DATAFILE_TTLSIZE
    && (forall p :: p in live ==> Placed(bits, d, p, live[p]))
    && forall p, q :: p in live && q in live && p < q ==> p + PagesOf(live[p]) <= q
  }

  /** No stored item overlaps a free run. */
  lemma OthersApart(bits: seq<bool>, d: Bytes, live: map<nat, Item>, page: nat, n: nat, p: nat)
    requires FileOk(bits, d, live) && FreeRun(bits, page, n) && n >= 1 && p in live
    ensures p + PagesOf(live[p]) <= page || page + n <= p
  {
    RunsApart(bits, p, PagesOf(live[p]), page, n);
  }

  lemma PlacedKept(bits: seq<bool>, bits': seq<bool>, d: Bytes, d': Bytes, p: nat, i: Item)
    requires Placed(bits, d, p, i) && |bits'| == |bits| && |d'| == |d|
    requires forall q :: p <= q < p + PagesOf(i) ==> bits'[q]
    requires forall j :: OffsetOf(p) <= j < OffsetOf(p) + ItemLength(i) ==> d'[j] == d[j]
    ensures Placed(bits', d', p, i)
  {
    ItemKept(d, d', OffsetOf(p), i);
  }

  lemma InsertKeepsFile(bits: seq<bool>, bits': seq<bool>, d: Bytes, d': Bytes, live: map<nat, Item>, page: nat,
                        i: Item)
    requires FileOk(bits, d, live) && Storable(i) && FirstFit(bits, page, PagesOf(i))
    requires |bits'| == |bits| && |d'| == |d| && ItemAt(d', OffsetOf(page), i)
    requires forall q :: 0 <= q < |bits| ==> bits'[q] == (bits[q] || page <= q < page + PagesOf(i))
    requires forall j :: 0 <= j < |d| && (j < OffsetOf(page) || j >= OffsetOf(page) + ItemLength(i)) ==> d'[j] == d[j]
    ensures page !in live && FileOk(bits', d', live[page := i])
  {
    var live' := live[page := i];
    forall p | p in live ensures p + PagesOf(live[p]) <= page || page + PagesOf(i) <= p {
      OthersApart(bits, d, live, page, PagesOf(i), p);
    }
    forall p | p in live' ensures Placed(bits', d', p, live'[p]) {
      if p != page {
        PlacedKept(bits, bits', d, d', p, live[p]);
      }
    }
  }

  /** What a callback makes of the bytes an index entry points to. */
  datatype Outcome = Bad | Other | Hit(val: Bytes)

  /** The checks and the key comparison shared by both callbacks; bytes beyond the mapping are not readable. */
  function Lookup(d: Bytes, o: nat, key: Bytes): (r: Outcome) {
    if o + ITEM_HEADER_SIZE > |d| then Bad else LookupBehind(d, o + ITEM_HEADER_SIZE, ReadHead(d, o), key)
  }

  function LookupBehind(d: Bytes, k: nat, h: Head, key: Bytes): (r: Outcome) {
    if !HeadOk(h) then Bad
    else if h.keylen == 0 || h.vallen == 0 || k + h.keylen + h.vallen > |d| then Bad
    else if |key| != h.keylen || d[k..k + h.keylen] != key then Other
    else Hit(d[k + h.keylen..k + h.keylen + h.vallen])
  }

  /** Decoding what was encoded: a stored item is a hit for its own key, with its value, and for no other key. */
  lemma LookupItem(d: Bytes, o: nat, i: Item, key: Bytes)
    requires ItemAt(d, o, i)
    ensures Lookup(d, o, key) == if key == i.key then Hit(i.val) else Other
  {
    ItemFields(d, o, i);
    LookupFields(d, o + ITEM_HEADER_SIZE, i, key);
  }

  lemma LookupFields(d: Bytes, k: nat, i: Item, key: Bytes)
    requires Storable(i) && k + |i.key| + |i.val| <= |d|
    requires d[k..k + |i.key|] == i.key && d[k + |i.key|..k + |i.key| + |i.val|] == i.val
    ensures LookupBehind(d, k, Head(DATAITEM_SIGNATURE_ID, ItemLength(i), |i.key|, |i.val|), key) ==
      if key == i.key then Hit(i.val) else Other
  {
  }

  /** The four fields of a header that are read, in the order of the file: signature, length, key length and value
      length; the flags and the expiry time lie between them. */
  ghost predicate FieldsAre(d: Bytes, o: nat, signature: nat, length: nat, keylen: nat, vallen: nat) {
    && o + 24 <= |d|
    && U32At(d, o) == signature && U32At(d, o + 4) == length && U32At(d, o + 16) == keylen && U32At(d, o + 20) == vallen
  }

  /** The header passes the check that every reader makes, for some lengths of key and value. */
  ghost predicate Consistent(d: Bytes, o: nat, keylen: nat, vallen: nat) {
    FieldsAre(d, o, 0xDEADC1DE, (keylen + vallen) % UINT32 + 24, keylen, vallen)
  }

  /** When a callback goes wrong on any bytes, and when it is a hit: exactly if the fields are consistent, both lengths
      are positive, and the bytes behind the header are the key. */
  lemma LookupIff(d: Bytes, o: nat, key: Bytes, val: Bytes)
    ensures Lookup(d, o, key) == Bad <==>
      forall m: nat, n: nat :: Consistent(d, o, m, n) ==> m == 0 || n == 0 || o + 24 + m + n > |d|
    ensures Lookup(d, o, key) == Hit(val) <==>
      && Consistent(d, o, |key|, |val|) && key != [] && val != [] && o + 24 + |key| + |val| <= |d|
      && d[o + 24..o + 24 + |key|] == key && d[o + 24 + |key|..o + 24 + |key| + |val|] == val
  {
    if o + ITEM_HEADER_SIZE <= |d| {
      var h := ReadHead(d, o);
      assert HeadOk(h) ==> Consistent(d, o, h.keylen, h.vallen);
    }
  }

  /** Item `i'` written over item `i`, which has at least as many pages. */
  lemma OverwriteKeepsFile(bits: seq<bool>, d: Bytes, d': Bytes, live: map<nat, Item>, page: nat, i': Item)
    requires FileOk(bits, d, live) && page in live && PagesOf(i') <= PagesOf(live[page])
    requires |d'| == |d| && ItemAt(d', OffsetOf(page), i')
    requires forall j :: 0 <= j < |d| && (j < OffsetOf(page) || j >= OffsetOf(page) + ItemLength(i')) ==> d'[j] == d[j]
    ensures FileOk(bits, d', live[page := i'])
  {
    var live' := live[page := i'];
    assert Placed(bits, d, page, live[page]);
    forall p | p in live' ensures Placed(bits, d', p, live'[p]) {
      if p != page {
        PlacedKept(bits, bits, d, d', p, live[p]);
      }
    }
  }

  lemma FreeKeepsFile(bits: seq<bool>, bits': seq<bool>, d: Bytes, live: map<nat, Item>, page: nat)
    requires FileOk(bits, d, live) && page in live && |bits'| == |bits|
    requires forall q :: 0 <= q < |bits| ==> bits'[q] == (bits[q] && !(page <= q < page + PagesOf(live[page])))
    ensures FileOk(bits', d, live - {page})
  {
    forall p | p in live - {page} ensures Placed(bits', d, p, live[p]) {
      PlacedKept(bits, bits', d, d, p, live[p]);
    }
  }

  // ---- freeing ----

  /** The page that an offset is taken for, rounded up. */
  function PageFrom(o: nat): (page: nat) {
    if o <= HEADER_SIZE then 0
    else if (o - HEADER_SIZE) % IPC_DATAFILE_ALIGNED == 0 then (o - HEADER_SIZE) / IPC_DATAFILE_ALIGNED
    else (o - HEADER_SIZE) / IPC_DATAFILE_ALIGNED + 1
  }

  /** The aligned size as a 32-bit number. */
  function AlignedLength(length: nat): (n: nat) {
    AlignedSize(length) % UINT32
  }

  /** The checks of change_free_to_datafile on an offset and on what the file has there. */
  predicate Freeable(d: Bytes, o: nat) {
    HEADER_SIZE < o < IPC_DATAFILE_TTLSIZE && o + ITEM_HEADER_SIZE <= |d| && HeadOk(ReadHead(d, o))
  }

  /** What the remaining size is credited with, a 32-bit product. */
  function Credit(length: nat): (n: nat) {
    AlignedLength(length) * IPC_DATAFILE_ALIGNED % UINT32
  }

  /** The number of pages that the header at `o` claims. */
  function PagesAt(d: Bytes, o: nat): (n: nat) {
    if o + ITEM_HEADER_SIZE > |d| then 0 else AlignedLength(ReadHead(d, o).length) / IPC_DATAFILE_ALIGNED
  }

  ghost predicate FreedRange(bits: seq<bool>, bits': seq<bool>, first: nat, n: nat) {
    |bits'| == |bits| && forall q :: 0 <= q < |bits| ==> bits'[q] == (bits[q] && !(first <= q < first + n))
  }

  /** The pages that a header with this length claims: those the length needs, as far as their size fits 32 bits. */
  function PagesClaimed(length: nat): (n: nat) {
    (length + 127) / 128 % 0x200_0000
  }

  /** What a header has to be to pass, and what it then claims. */
  lemma FreeableIff(d: Bytes, o: nat)
    ensures Freeable(d, o) <==>
      HEADER_SIZE < o < IPC_DATAFILE_TTLSIZE && exists m: nat, n: nat :: Consistent(d, o, m, n)
    ensures forall m: nat, n: nat :: Freeable(d, o) && Consistent(d, o, m, n) ==>
      var pages := PagesClaimed((m + n) % UINT32 + 24);
      && PagesAt(d, o) == pages && Credit(ReadHead(d, o).length) == pages * 128 * 128 % UINT32
      && PageFrom(o) == (o - HEADER_SIZE + 127) / 128
  {
    if Freeable(d, o) {
      var h := ReadHead(d, o);
      assert Consistent(d, o, h.keylen, h.vallen);
      ClaimedPages(h.length);
    }
  }

  lemma ClaimedPages(length: nat)
    ensures AlignedLength(length) / IPC_DATAFILE_ALIGNED == PagesClaimed(length)
    ensures Credit(length) == PagesClaimed(length) * 128 * 128 % UINT32
  {
    var q := (length + 127) / 128;
    assert AlignedSize(length) == q * 128;
    assert q * 128 % UINT32 == q % 0x200_0000 * 128;
  }

  /** Every stored item passes, and the range to be freed is its own. */
  ghost predicate FreesItem(bits: seq<bool>, d: Bytes, page: nat, i: Item, o: nat) {
    Freeable(d, o) && PageFrom(o) == page && PagesAt(d, o) == PagesOf(i) && page + PagesOf(i) <= |bits|
  }

  lemma StoredFreeable(bits: seq<bool>, d: Bytes, live: map<nat, Item>, o: nat)
    requires FileOk(bits, d, live)
    ensures forall page :: page in live && o == OffsetOf(page) ==> FreesItem(bits, d, page, live[page], o)
  {
    forall page | page in live && o == OffsetOf(page) ensures FreesItem(bits, d, page, live[page], o) {
      PlacedFreeable(bits, d, page, live[page]);
    }
  }

  lemma PlacedFreeable(bits: seq<bool>, d: Bytes, page: nat, i: Item)
    requires Placed(bits, d, page, i) && |d| == IPC_DATAFILE_TTLSIZE
    ensures FreesItem(bits, d, page, i, OffsetOf(page))
  {
    var o := OffsetOf(page);
    assert ItemAt(d, o, i);
    PagesInFile(i, page);
    hide Placed;
    hide ReadHead;
    hide HeadOk;
    hide ItemAt;
    hide AlignedSize;
    hide PagesOf;
    hide PageFrom;
    hide AlignedLength;
    HeadOfItem(d, o, i);
    AlignedPages(ReadHead(d, o).length, PagesOf(i));
  }

  lemma AlignedPages(length: nat, n: nat)
    requires AlignedSize(length) == n * IPC_DATAFILE_ALIGNED < UINT32
    ensures AlignedLength(length) / IPC_DATAFILE_ALIGNED == n
  {
  }

  /** The 32-bit size of an item inside a file does not wrap. */
  lemma PagesInFile(i: Item, page: nat)
    requires 1 <= page && page + PagesOf(i) <= IPC_DATAFILE_PAGECNT
    ensures PagesOf(i) * IPC_DATAFILE_ALIGNED < UINT32 && PageFrom(OffsetOf(page)) == page
    ensures HEADER_SIZE < OffsetOf(page) < IPC_DATAFILE_TTLSIZE
  {
  }

  class DataFile {
    const bitmap: array<bool>
    const data: array<byte>
    var remain_length: nat
    var used_length: nat
    var used_count: nat
    /** The stored items, by their first page. */
    ghost var live: map<nat, Item>

    ghost predicate Valid()
      reads this, bitmap, data
    {
      FileOk(bitmap[..], data[..], live)
    }

    /** Nothing stored yet, every page free. */
    ghost predicate New()
      reads this, bitmap
    {
      && live == map[] && remain_length == IPC_DATAFILE_TTLSIZE - HEADER_SIZE
      && forall p :: 0 <= p < bitmap.Length ==> !bitmap[p]
    }

    /** The file takes the item: its remaining size exceeds the aligned size, and there is a free run. */
    ghost predicate HasRoom(i: Item)
      reads this, bitmap
    {
      remain_length > PagesOf(i) * IPC_DATAFILE_ALIGNED && exists p :: FreeRun(bitmap[..], p, PagesOf(i))
    }

    ghost predicate HasPacked(used: nat)
      reads this`remain_length, bitmap
    {
      Packed(bitmap[..], remain_length, used)
    }

    constructor ()
      ensures Valid() && New() && HasPacked(0) && fresh(bitmap) && fresh(data)
    {
      hide Packed;
      bitmap := new bool[IPC_DATAFILE_TTLSIZE / IPC_DATAFILE_ALIGNED](_ => false);
      data := new byte[IPC_DATAFILE_TTLSIZE];
      remain_length := IPC_DATAFILE_TTLSIZE - HEADER_SIZE;
      used_length, used_count := HEADER_SIZE, 0;
      live := map[];
      new;
      NewPacked(bitmap[..]);
    }

    /** The scan over the bitmap: the byte offset, behind the header, of the lowest free run, or 0. */
    method FindRun(shift_size: nat) returns (finded_offset: nat)
      requires bitmap.Length == IPC_DATAFILE_TTLSIZE / IPC_DATAFILE_ALIGNED && shift_size >= 1
      ensures finded_offset % IPC_DATAFILE_ALIGNED == 0
      ensures finded_offset != 0 ==> FirstFit(bitmap[..], finded_offset / IPC_DATAFILE_ALIGNED, shift_size)
      ensures finded_offset == 0 ==> forall p :: !FreeRun(bitmap[..], p, shift_size)
    {
      finded_offset := 0;
      var findbits := 0;
      var m := 0;
      while m < IPC_DATAFILE_PAGECNT - 1
        invariant m <= IPC_DATAFILE_PAGECNT - 1 && findbits < shift_size && findbits <= m && finded_offset == 0
        invariant forall q :: m + 1 - findbits <= q <= m ==> !bitmap[q]
        invariant m > findbits ==> bitmap[m - findbits]
        invariant forall p :: p + shift_size <= m + 1 ==> !FreeRun(bitmap[..], p, shift_size)
      {
        if !bitmap[m + 1] {
          findbits := findbits + 1;
          if findbits >= shift_size {
            finded_offset := (m + 1 - (shift_size - 1)) * IPC_DATAFILE_ALIGNED;
            break;
          }
          RunTooShort(bitmap[..], m + 2, findbits, shift_size);
        } else {
          findbits := 0;
          RunTooShort(bitmap[..], m + 2, 0, shift_size);
        }
        m := m + 1;
      }
    }

    /** The bitmap loops: pages first .. first + n - 1 are set to `b`. */
    method MarkPages(first: nat, n: nat, b: bool)
      requires first + n <= bitmap.Length
      modifies bitmap
      ensures forall q :: 0 <= q < bitmap.Length ==> bitmap[q] == if first <= q < first + n then b else old(bitmap[q])
    {
      for m := first to first + n
        invariant forall q :: 0 <= q < bitmap.Length ==> bitmap[q] == if first <= q < m then b else old(bitmap[q])
      {
        bitmap[m] := b;
      }
    }

    /** memcpy into the file. */
    method CopyIn(o: nat, src: Bytes)
      requires o + |src| <= data.Length
      modifies data
      ensures data[o..o + |src|] == src
      ensures forall j :: 0 <= j < data.Length && (j < o || j >= o + |src|) ==> data[j] == old(data[j])
    {
      for m := 0 to |src|
        invariant forall j :: 0 <= j < m ==> data[o + j] == src[j]
        invariant forall j :: 0 <= j < data.Length && (j < o || j >= o + m) ==> data[j] == old(data[j])
      {
        data[o + m] := src[m];
      }
    }

    /** The part of insert_to_datafile_at_freepage that is done for one file: 0 if the item does not
        go in here, otherwise the offset of the item in the file. */
    method InsertAtFreePage(i: Item) returns (offset: nat)
      requires Valid() && Storable(i)
      modifies this, bitmap, data
      ensures Valid()
      ensures offset != 0 <==> old(HasRoom(i))
      ensures offset == 0 ==> live == old(live) && bitmap[..] == old(bitmap[..]) && data[..] == old(data[..])
      ensures offset == 0 ==> remain_length == RemainAfterRefusal(old(remain_length), PagesOf(i))
      ensures offset == 0 ==> used_length == old(used_length) && used_count == old(used_count)
      ensures offset == 0 && remain_length != old(remain_length) ==> forall p :: !FreeRun(bitmap[..], p, 1)
      ensures offset != 0 ==> exists p ::
        offset == OffsetOf(p) && Inserted(old(bitmap[..]), bitmap[..], old(data[..]), data[..], old(live), live, p, i)
      ensures offset != 0 ==> remain_length == old(remain_length) - PagesOf(i) * IPC_DATAFILE_ALIGNED
      ensures offset != 0 ==> var finish := offset + PagesOf(i) * IPC_DATAFILE_ALIGNED;
        if finish > old(used_length) then used_length == finish && used_count == old(used_count) + 1
        else used_length == old(used_length) && used_count == old(used_count)
    {
      var page := FindPlace(i);
      if page == 0 {
        return 0;
      }
      offset := OffsetOf(page);
      PutItem(page, i);
      var finish := offset + AlignedSize(ItemLength(i));
      if finish > used_length {
        used_length := finish;
        used_count := used_count + 1;
      }
      remain_length := Debit(remain_length, finish - offset);
    }

    /** The checks on the remaining size, and the scan: the first page of the lowest free run, or 0. */
    method FindPlace(i: Item) returns (page: nat)
      requires Valid() && Storable(i)
      modifies this`remain_length
      ensures page != 0 <==> old(HasRoom(i))
      ensures page == 0 ==> remain_length == RemainAfterRefusal(old(remain_length), PagesOf(i))
      ensures page == 0 && remain_length != old(remain_length) ==> forall p :: !FreeRun(bitmap[..], p, 1)
      ensures page != 0 ==>
        FirstFit(bitmap[..], page, PagesOf(i))
        && remain_length == old(remain_length) > PagesOf(i) * IPC_DATAFILE_ALIGNED
    {
      var aligned_size := AlignedSize(ItemLength(i));
      var shift_size := PagesOf(i);
      assert bitmap.Length == IPC_DATAFILE_TTLSIZE / IPC_DATAFILE_ALIGNED;
      hide FileOk;
      if remain_length <= aligned_size {
        return 0;
      }
      var finded_offset := FindRun(shift_size);
      assert finded_offset != 0 <==> HasRoom(i) by {
        assert finded_offset != 0 ==> FreeRun(bitmap[..], finded_offset / IPC_DATAFILE_ALIGNED, shift_size);
      }
      if shift_size == 1 && finded_offset == 0 {
        remain_length := 0;
      }
      page := finded_offset / IPC_DATAFILE_ALIGNED;
    }

    /** Mark the run and copy header, key and value to its start. */
    method PutItem(page: nat, i: Item)
      requires Valid() && Storable(i) && FirstFit(bitmap[..], page, PagesOf(i))
      modifies this`live, bitmap, data
      ensures Valid()
      ensures Inserted(old(bitmap[..]), bitmap[..], old(data[..]), data[..], old(live), live, page, i)
    {
      ghost var bits, d, was := bitmap[..], data[..], live;
      MarkPages(page, PagesOf(i), true);
      WriteItem(OffsetOf(page), i);
      live := live[page := i];
      InsertKeepsFile(bits, bitmap[..], d, data[..], was, page, i);
    }

    /** The in-place branch of _findindex_callback_for_update_insert, for the item at `o` with the key looked for. */
    method OverwriteInPlace(ghost page: nat, o: nat, val: Bytes) returns (fits: bool)
      requires Valid() && page in live && o == OffsetOf(page) && Storable(Item(live[page].key, val))
      modifies this`live, data
      ensures Valid()
      ensures fits <==> PagesOf(old(live)[page]) >= PagesOf(Item(old(live)[page].key, val))
      ensures fits <==> NoMorePages(|old(live)[page].key|, |old(live)[page].val|, |val|)
      ensures live == if fits then old(live)[page := Item(old(live)[page].key, val)] else old(live)
      ensures forall j ::
        0 <= j < data.Length && (j < o || j >= o + PagesOf(old(live)[page]) * IPC_DATAFILE_ALIGNED) ==>
        data[j] == old(data[j])
      ensures !fits ==> data[..] == old(data[..])
    {
      fits := Fits(page, o, val);
      NoMorePagesIff(live[page].key, live[page].val, val);
      if fits {
        ghost var i', d, was := Item(live[page].key, val), data[..], live;
        assert Placed(bitmap[..], d, page, live[page]);
        WriteValue(o, live[page], val);
        live := live[page := i'];
        OverwriteKeepsFile(bitmap[..], d, data[..], was, page, i');
      }
    }

    /** The comparison of the aligned sizes, from the header at `o`. */
    method Fits(ghost page: nat, o: nat, val: Bytes) returns (fits: bool)
      requires Valid() && page in live && o == OffsetOf(page) && Storable(Item(live[page].key, val))
      ensures fits <==> PagesOf(live[page]) >= PagesOf(Item(live[page].key, val))
    {
      ghost var i, i' := live[page], Item(live[page].key, val);
      assert Placed(bitmap[..], data[..], page, i);
      ItemFields(data[..], o, i);
      var head := ReadHead(data[..], o);
      assert head.length == ItemLength(i) && head.keylen == |i.key|;
      var item_len := head.keylen + |val| + ITEM_HEADER_SIZE;
      assert item_len == ItemLength(i');
      fits := AlignedSize(head.length) >= AlignedSize(item_len);
      assert PagesOf(i) * IPC_DATAFILE_ALIGNED == AlignedSize(ItemLength(i));
      assert PagesOf(i') * IPC_DATAFILE_ALIGNED == AlignedSize(ItemLength(i'));
    }

    /** Copy the new value behind the key and, if its length differs, correct both length fields. */
    method WriteValue(o: nat, ghost i: Item, val: Bytes)
      requires ItemAt(data[..], o, i) && Storable(Item(i.key, val)) && o + ItemLength(Item(i.key, val)) <= data.Length
      modifies data
      ensures ItemAt(data[..], o, Item(i.key, val))
      ensures forall j :: 0 <= j < data.Length && (j < o || j >= o + ItemLength(Item(i.key, val))) ==>
        data[j] == old(data[j])
    {
      hide U32;
      hide HeaderBytes;
      ghost var d := data[..];
      ItemFields(d, o, i);
      var head := ReadHead(data[..], o);
      hide ReadHead;
      CopyIn(o + ITEM_HEADER_SIZE + head.keylen, val);
      ghost var d1 := data[..];
      if head.vallen != |val| {
        WriteLengths(o, |val|, head.keylen + |val| + ITEM_HEADER_SIZE);
      }
      ValueWritten(d, d1, data[..], o, i, val);
    }

    method WriteLengths(o: nat, vallen: nat, length: nat)
      requires o + ITEM_HEADER_SIZE <= data.Length && vallen < UINT32 && length < UINT32
      modifies data
      ensures data[..][o + 4..o + 8] == U32(length) && data[..][o + 20..o + 24] == U32(vallen)
      ensures forall j :: 0 <= j < data.Length && !(o + 4 <= j < o + 8) && !(o + 20 <= j < o + 24) ==>
        data[j] == old(data[j])
    {
      hide U32;
      CopyIn(o + 20, U32(vallen));
      ghost var d := data[..];
      CopyIn(o + 4, U32(length));
      assert data[..][o + 20..o + 24] == d[o + 20..o + 24];
    }

    /** change_free_to_datafile, for any offset: the pages of the item found there are free again. What
        does not pass the checks changes nothing. Marks behind the bitmap are not part of this model. */
    method ChangeFree(data_offset: nat) returns (ok: bool)
      requires Valid()
      modifies this`live, this`remain_length, bitmap
      ensures ok <==> Freeable(data[..], data_offset)
      ensures ok <==>
        HEADER_SIZE < data_offset < IPC_DATAFILE_TTLSIZE && exists m: nat, n: nat ::
          Consistent(data[..], data_offset, m, n)
      ensures forall m: nat, n: nat :: ok && Consistent(data[..], data_offset, m, n) ==>
        var pages := PagesClaimed((m + n) % UINT32 + 24);
        && FreedRange(old(bitmap[..]), bitmap[..], (data_offset - HEADER_SIZE + 127) / 128, pages)
        && remain_length == old(remain_length) + pages * 128 * 128 % UINT32
      ensures !ok ==>
        Valid() && live == old(live) && bitmap[..] == old(bitmap[..]) && remain_length == old(remain_length)
      ensures ok ==> FreedRange(old(bitmap[..]), bitmap[..], PageFrom(data_offset), PagesAt(data[..], data_offset))
      ensures ok ==> remain_length == old(remain_length) + Credit(ReadHead(data[..], data_offset).length)
      ensures forall page :: page in old(live) && data_offset == OffsetOf(page) ==>
        && ok && Valid() && live == old(live) - {page}
        && PageFrom(data_offset) == page && PagesAt(data[..], data_offset) == PagesOf(old(live)[page])
    {
      StoredFreeable(bitmap[..], data[..], live, data_offset);
      FreeableIff(data[..], data_offset);
      assert bitmap.Length == IPC_DATAFILE_TTLSIZE / IPC_DATAFILE_ALIGNED;
      hide FileOk;
      hide ReadHead;
      hide HeadOk;
      hide AlignedSize;
      hide PagesOf;
      hide FreedRange;
      hide Consistent;
      hide PagesClaimed;
      hide PageFrom;
      hide PagesAt;
      hide Credit;
      if data_offset >= IPC_DATAFILE_TTLSIZE || data_offset <= HEADER_SIZE {
        return false;
      }
      if data_offset + ITEM_HEADER_SIZE > data.Length || !HeadOk(ReadHead(data[..], data_offset)) {
        return false;
      }
      var aligned_size := AlignedLength(ReadHead(data[..], data_offset).length);
      ReleasePages(data_offset, PageFrom(data_offset), aligned_size / IPC_DATAFILE_ALIGNED);
      remain_length := remain_length + Credit(ReadHead(data[..], data_offset).length);
      ok := true;
    }

    /** The bitmap loop of change_free_to_datafile. */
    method ReleasePages(data_offset: nat, bitmap_pageno: nat, n: nat)
      requires Valid() && bitmap_pageno <= bitmap.Length
      requires forall page :: page in live && data_offset == OffsetOf(page) ==> 
        page == bitmap_pageno && n == PagesOf(live[page]) && page + n <= bitmap.Length
      modifies this`live, bitmap
      ensures FreedRange(old(bitmap[..]), bitmap[..], bitmap_pageno, n)
      ensures forall page :: page in old(live) && data_offset == OffsetOf(page) ==>
        Valid() && live == old(live) - {page}
    {
      hide FileOk;
      hide PagesOf;
      ghost var bits, was := bitmap[..], live;
      var end := if bitmap_pageno + n <= bitmap.Length then bitmap_pageno + n else bitmap.Length;
      MarkPages(bitmap_pageno, end - bitmap_pageno, false);
      live := if data_offset == OffsetOf(bitmap_pageno) then live - {bitmap_pageno} else live;
      forall page | page in was && data_offset == OffsetOf(page) ensures FileOk(bitmap[..], data[..], was - {page}) {
        FreeKeepsFile(bits, bitmap[..], data[..], was, page);
      }
    }

    method WriteItem(o: nat, i: Item)
      requires Storable(i) && o + ItemLength(i) <= data.Length
      modifies data
      ensures ItemAt(data[..], o, i)
      ensures forall j :: 0 <= j < data.Length && (j < o || j >= o + ItemLength(i)) ==> data[j] == old(data[j])
    {
      var k, v := o + ITEM_HEADER_SIZE, o + ITEM_HEADER_SIZE + |i.key|;
      CopyIn(o, HeaderBytes(i));
      CopyIn(k, i.key);
      assert data[o..k] == HeaderBytes(i);
      CopyIn(v, i.val);
      assert data[o..k] == HeaderBytes(i);
      assert data[k..v] == i.key;
      assert data[..][o..k] == data[o..k] && data[..][k..v] == data[k..v];
      assert data[..][v..v + |i.val|] == data[v..v + |i.val|];
      ImageWritten(data[..], o, i);
    }
  }

  /** What inserting item `i` at page `p` does to the file. */
  ghost predicate Inserted(bits: seq<bool>, bits': seq<bool>, d: Bytes, d': Bytes, live: map<nat, Item>,
                           live': map<nat, Item>, p: nat, i: Item) {
    FirstFit(bits, p, PagesOf(i)) && p !in live && live' == live[p := i] && |bits'| == |bits| && |d'| == |d|
    && (forall q :: 0 <= q < |bits| ==> bits'[q] == (bits[q] || p <= q < p + PagesOf(i)))
    && (forall j :: 0 <= j < |d| && (j < OffsetOf(p) || j >= OffsetOf(p) + ItemLength(i)) ==> d'[j] == d[j])
  }

  /** Value, value length and total length are all that tells the new item from the old one. */
  lemma ValueWritten(d: Bytes, d1: Bytes, d2: Bytes, o: nat, i: Item, val: Bytes)
    requires ItemAt(d, o, i) && Storable(Item(i.key, val)) && o + ItemLength(Item(i.key, val)) <= |d|
    requires |d| == |d1| == |d2|
    requires d1[o + ITEM_HEADER_SIZE + |i.key|..o + ItemLength(Item(i.key, val))] == val
    requires forall j :: o <= j < o + ITEM_HEADER_SIZE + |i.key| ==> d1[j] == d[j]
    requires forall j :: 0 <= j < |d| && !(o + 4 <= j < o + 8) && !(o + 20 <= j < o + 24) ==> d2[j] == d1[j]
    requires |i.val| == |val| ==> d2 == d1
    requires |i.val| != |val| ==>
      d2[o + 4..o + 8] == U32(ItemLength(Item(i.key, val))) && d2[o + 20..o + 24] == U32(|val|)
    ensures ItemAt(d2, o, Item(i.key, val))
  {
    hide U32;
    var i', k := Item(i.key, val), o + ITEM_HEADER_SIZE;
    HeaderSplit(d, o, i);
    assert d2[o..o + 4] == d[o..o + 4] && d2[o + 8..o + 20] == d[o + 8..o + 20];
    if |i.val| == |val| {
      assert d2[o + 4..o + 8] == d[o + 4..o + 8] && d2[o + 20..k] == d[o + 20..k];
    }
    assert d2[o..k] == d2[o..o + 4] + d2[o + 4..o + 8] + d2[o + 8..o + 20] + d2[o + 20..k];
    assert d2[o..k] == HeaderBytes(i');
    assert d2[k..k + |i.key|] == d[k..k + |i.key|] == i.key by { ItemFields(d, o, i); }
    assert d2[k + |i.key|..o + ItemLength(i')] == d1[k + |i.key|..o + ItemLength(i')];
    ImageWritten(d2, o, i');
  }

  lemma HeaderSplit(d: Bytes, o: nat, i: Item)
    requires ItemAt(d, o, i)
    ensures d[o..o + 4] == U32(DATAITEM_SIGNATURE_ID) && d[o + 4..o + 8] == U32(ItemLength(i))
    ensures d[o + 8..o + 20] == U32(0) + U32(0) + U32(|i.key|) && d[o + 20..o + 24] == U32(|i.val|)
  {
    var m := Image(i);
    assert forall j :: 0 <= j < |m| ==> d[o + j] == d[o..o + ItemLength(i)][j] == m[j];
    assert d[o..o + 4] == m[..4] && d[o + 4..o + 8] == m[4..8];
    assert d[o + 8..o + 20] == m[8..20] && d[o + 20..o + 24] == m[20..24];
  }

  lemma ImageWritten(d: Bytes, o: nat, i: Item)
    requires Storable(i) && o + ItemLength(i) <= |d|
    requires d[o..o + ITEM_HEADER_SIZE] == HeaderBytes(i)
    requires d[o + ITEM_HEADER_SIZE..o + ITEM_HEADER_SIZE + |i.key|] == i.key
    requires d[o + ITEM_HEADER_SIZE + |i.key|..o + ItemLength(i)] == i.val
    ensures ItemAt(d, o, i)
  {
    var m := o + ITEM_HEADER_SIZE;
    assert d[o..o + ItemLength(i)] == d[o..m] + d[m..m + |i.key|] + d[m + |i.key|..o + ItemLength(i)];
  }

  /** In front of page `e` lies a free stretch of only `k` pages: no run of `n > k` pages ends there. */
  lemma RunTooShort(bits: seq<bool>, e: nat, k: nat, n: nat)
    requires k < n && k < e <= |bits|
    requires e > k + 1 ==> bits[e - k - 1]
    ensures forall p :: p + n == e ==> !FreeRun(bits, p, n)
  {
    forall p | p + n == e ensures !FreeRun(bits, p, n) {
      if p >= 1 && e > k + 1 {
        assert p <= e - k - 1 < p + n;
      }
    }
  }
}
