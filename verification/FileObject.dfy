/** The file object (src/file_inode/file_inode.c): reads, writes and truncation through the page cache
    and the block index tree behave like a flat array of bytes with a size. */
module FileObjects {
  import opened Bytes
  import opened BlockIndex
  import opened PageCaching
  import BlockDevice
  import RedoLog

  type Image = RedoLog.Image

  const MAX_U32: nat := 0xffff_ffff

  // ---- What the file shows ----

  /** The state of a file as values: cached pages, device, nodes and inode number. */
  datatype FileState = FileState(index: Index, disk: Image, nodes: map<U32, Node>, ino: U32)

  /** The LPA of a block; blocks beyond the tree have none. */
  ghost function LpaAt(s: FileState, k: nat): U32 {
    if k < MAX_BLOCKS then LpaOf(s.nodes, s.ino, k) else INVALID_LPA
  }

  /** What the device holds for a block; a hole reads as zeros. */
  ghost function Stored(s: FileState, k: nat): Block {
    var l := LpaAt(s, k);
    if l == INVALID_LPA || l >= |s.disk| then ZeroBlock() else s.disk[l]
  }

  ghost predicate Cached(s: FileState, k: nat) {
    k <= MAX_U32 && k in s.index && s.index[k].ready
  }

  /** What the file shows at a block: the cached page, or else what is stored. */
  ghost function BlockOf(s: FileState, k: nat): Block {
    if Cached(s, k) then s.index[k].data else Stored(s, k)
  }

  ghost function ByteOf(s: FileState, o: nat): Byte {
    BlockOf(s, o / BLOCK_SIZE)[o % BLOCK_SIZE]
  }

  /** SIZE_TO_BLOCK */
  function SizeToBlock(size: nat): nat {
    (size + 4095) / BLOCK_SIZE
  }

  /** A cached page knows its LPA; unless it is dirty it shows what is stored, of a block the tree can map. */
  ghost predicate PageCoherent(s: FileState, k: U32)
    requires k in s.index
  {
    var p := s.index[k];
    && (p.dirty ==> p.ready && p.refCount > 0)
    && (p.ready ==> p.lpa == LpaAt(s, k))
    && (p.ready && !p.dirty ==> p.data == Stored(s, k) && k < MAX_BLOCKS)
  }

  ghost predicate Coherent(s: FileState) {
    && (forall k :: k in s.index ==> PageCoherent(s, k))
    && forall k | 0 <= k < MAX_BLOCKS :: LpaOf(s.nodes, s.ino, k) < |s.disk| || LpaOf(s.nodes, s.ino, k) == INVALID_LPA
  }

  /** Nothing is mapped or dirty behind the end of the file, and bytes behind the end are zero. */
  ghost predicate Tidy(s: FileState, size: nat) {
    && (forall k: nat :: k >= SizeToBlock(size) ==> LpaAt(s, k) == INVALID_LPA)
    && (forall k :: k in s.index && s.index[k].dirty ==> k < SizeToBlock(size))
    && (forall o: nat :: o >= size ==> ByteOf(s, o) == 0)
  }

  /** The two states show the same file. */
  ghost predicate SameBlocks(s: FileState, t: FileState) {
    forall k: nat :: BlockOf(t, k) == BlockOf(s, k)
  }

  /** A block that can be read: the tree can map it, or its page is cached. */
  ghost predicate InReach(s: FileState, k: nat) {
    k < MAX_BLOCKS || Cached(s, k)
  }

  ghost predicate SameReach(s: FileState, t: FileState) {
    forall k: nat :: InReach(t, k) <==> InReach(s, k)
  }

  lemma SameReachChain(a: FileState, b: FileState, c: FileState)
    requires SameReach(a, b) && SameReach(b, c)
    ensures SameReach(a, c)
  {
    forall k: nat ensures InReach(c, k) <==> InReach(a, k) { assert InReach(b, k) <==> InReach(a, k); }
  }

  lemma SameReachSelf(s: FileState)
    ensures SameReach(s, s)
  {
  }

  lemma SameBlocksSameBytes(s: FileState, t: FileState)
    requires SameBlocks(s, t)
    ensures forall o: nat :: ByteOf(t, o) == ByteOf(s, o)
  {
  }

  /** Taking a page into the cache, and dropping unreferenced ones, shows nothing else: eviction is
      invisible. */
  lemma GotIsInvisible(s: FileState, index': Index, k: U32, size: nat)
    requires Coherent(s) && Tidy(s, size) && Got(s.index, index', k)
    ensures var t := s.(index := index'); Coherent(t) && SameBlocks(s, t) && Tidy(t, size) && SameReach(s, t)
  {
    var t := s.(index := index');
    forall j: nat | j > MAX_U32 || j >= MAX_BLOCKS ensures InReach(t, j) <==> InReach(s, j) {
      if j <= MAX_U32 && j in s.index { assert PageCoherent(s, j); }
    }
    forall j | j in index' ensures PageCoherent(t, j) {
      if j in s.index { assert PageCoherent(s, j); }
    }
    forall j: nat ensures BlockOf(t, j) == BlockOf(s, j) {
      if j <= MAX_U32 && j in s.index { assert PageCoherent(s, j); }
    }
    SameBlocksSameBytes(s, t);
    forall j: nat | j >= SizeToBlock(size) ensures LpaAt(t, j) == INVALID_LPA { assert LpaAt(s, j) == LpaAt(t, j); }
  }

  /** Filling a page that is not ready from what is stored shows nothing else. */
  lemma FillIsInvisible(s: FileState, k: U32, lpa: U32, data: Block, size: nat)
    requires Coherent(s) && Tidy(s, size) && k in s.index && !s.index[k].ready
    requires lpa == LpaAt(s, k) && data == Stored(s, k) && k < MAX_BLOCKS
    ensures var t := s.(index := s.index[k := s.index[k].(lpa := lpa, ready := true, data := data)]);
      Coherent(t) && SameBlocks(s, t) && Tidy(t, size) && SameReach(s, t)
  {
    var t := s.(index := s.index[k := s.index[k].(lpa := lpa, ready := true, data := data)]);
    assert PageCoherent(s, k);
    forall j | j in t.index ensures PageCoherent(t, j) { assert PageCoherent(s, j); }
    SameBlocksSameBytes(s, t);
    forall j: nat | j >= SizeToBlock(size) ensures LpaAt(t, j) == INVALID_LPA { assert LpaAt(s, j) == LpaAt(t, j); }
  }

  /** Changing only reference counts shows nothing else. */
  lemma RefIsInvisible(s: FileState, k: U32, refCount: nat, size: nat)
    requires Coherent(s) && Tidy(s, size) && k in s.index && (s.index[k].dirty ==> refCount > 0)
    ensures var t := s.(index := s.index[k := s.index[k].(refCount := refCount)]);
      Coherent(t) && SameBlocks(s, t) && Tidy(t, size) && SameReach(s, t)
  {
    var t := s.(index := s.index[k := s.index[k].(refCount := refCount)]);
    forall j | j in t.index ensures PageCoherent(t, j) { assert PageCoherent(s, j); }
    SameBlocksSameBytes(s, t);
    forall j: nat | j >= SizeToBlock(size) ensures LpaAt(t, j) == INVALID_LPA { assert LpaAt(s, j) == LpaAt(t, j); }
  }

  lemma SameBlocksChain(a: FileState, b: FileState, c: FileState)
    requires SameBlocks(a, b) && SameBlocks(b, c)
    ensures SameBlocks(a, c)
  {
    forall k: nat ensures BlockOf(c, k) == BlockOf(a, k) { assert BlockOf(b, k) == BlockOf(a, k); }
  }

  /** A page that shows nothing yet may change as long as it still shows nothing. */
  lemma UnreadIsInvisible(s: FileState, k: U32, p: Page, size: nat)
    requires Coherent(s) && Tidy(s, size) && k in s.index && !s.index[k].ready && !p.ready && !p.dirty
    ensures var t := s.(index := s.index[k := p]); Coherent(t) && SameBlocks(s, t) && Tidy(t, size) && SameReach(s, t)
  {
    var t := s.(index := s.index[k := p]);
    forall j | j in t.index ensures PageCoherent(t, j) { if j != k { assert PageCoherent(s, j); } }
    SameBlocksSameBytes(s, t);
    forall j: nat | j >= SizeToBlock(size) ensures LpaAt(t, j) == INVALID_LPA { assert LpaAt(s, j) == LpaAt(t, j); }
  }

  /** Where in a block a byte of a chunk stands. */
  lemma ChunkByte(o: nat, i: nat)
    requires o % BLOCK_SIZE + i < BLOCK_SIZE
    ensures (o + i) / BLOCK_SIZE == o / BLOCK_SIZE && (o + i) % BLOCK_SIZE == o % BLOCK_SIZE + i
  {
  }

  /** The bytes from off on. */
  ghost predicate Reads(s: FileState, off: nat, bytes: seq<Byte>) {
    forall i :: 0 <= i < |bytes| ==> bytes[i] == ByteOf(s, off + i)
  }

  lemma ReadsChunk(s: FileState, o: nat, chunk: nat)
    requires o % BLOCK_SIZE + chunk <= BLOCK_SIZE
    ensures Reads(s, o, BlockOf(s, o / BLOCK_SIZE)[o % BLOCK_SIZE..o % BLOCK_SIZE + chunk])
  {
    hide BlockOf;
    var bytes := BlockOf(s, o / BLOCK_SIZE)[o % BLOCK_SIZE..o % BLOCK_SIZE + chunk];
    forall i | 0 <= i < |bytes| ensures bytes[i] == ByteOf(s, o + i) {
      ChunkByte(o, i);
    }
  }

  lemma ReadsAppend(s: FileState, off: nat, bytes: seq<Byte>, more: seq<Byte>)
    requires Reads(s, off, bytes) && Reads(s, off + |bytes|, more)
    ensures Reads(s, off, bytes + more)
  {
    hide ByteOf;
    forall i | 0 <= i < |bytes + more| ensures (bytes + more)[i] == ByteOf(s, off + i) {
      if i >= |bytes| { assert more[i - |bytes|] == ByteOf(s, off + |bytes| + (i - |bytes|)); }
    }
  }

  lemma ReadsSame(s: FileState, t: FileState, off: nat, bytes: seq<Byte>)
    requires SameBlocks(s, t) && Reads(t, off, bytes)
    ensures Reads(s, off, bytes)
  {
    SameBlocksSameBytes(s, t);
  }

  lemma BooksReferenced(index: Index, pinned: set<U32>, dirty: set<U32>, handles: multiset<U32>, k: U32)
    requires Books(index, pinned, dirty, handles) && k in index
    ensures index[k].dirty ==> index[k].refCount > 0
  {
    assert Counted(index[k], k, pinned, dirty, handles);
  }

  // ---- Writing ----

  /** t shows the bytes d from off on, and otherwise what s shows. */
  ghost predicate Writes(s: FileState, t: FileState, off: nat, d: seq<Byte>) {
    forall o: nat :: ByteOf(t, o) == if off <= o < off + |d| then d[o - off] else ByteOf(s, o)
  }

  lemma WritesAppend(s: FileState, t: FileState, u: FileState, off: nat, d: seq<Byte>, e: seq<Byte>)
    requires Writes(s, t, off, d) && Writes(t, u, off + |d|, e)
    ensures Writes(s, u, off, d + e)
  {
    hide ByteOf;
    forall o: nat ensures ByteOf(u, o) == if off <= o < off + |d + e| then (d + e)[o - off] else ByteOf(s, o) {
      assert ByteOf(t, o) == if off <= o < off + |d| then d[o - off] else ByteOf(s, o);
    }
  }

  lemma WritesSame(s: FileState, t: FileState, u: FileState, off: nat, d: seq<Byte>)
    requires SameBlocks(s, t) && Writes(t, u, off, d)
    ensures Writes(s, u, off, d)
  {
    SameBlocksSameBytes(s, t);
  }

  lemma WritesThenSame(s: FileState, t: FileState, u: FileState, off: nat, d: seq<Byte>)
    requires Writes(s, t, off, d) && SameBlocks(t, u)
    ensures Writes(s, u, off, d)
  {
    SameBlocksSameBytes(t, u);
  }

  lemma WritesNothing(s: FileState, off: nat)
    ensures Writes(s, s, off, [])
  {
  }

  /** The page holds the new contents of its block and will be written back. */
  ghost predicate Dirtied(s: FileState, t: FileState, k: U32, data: Block) {
    && k in s.index && k in t.index && t == s.(index := s.index[k := t.index[k]])
    && t.index[k].ready && t.index[k].dirty && t.index[k].refCount > 0
    && t.index[k].data == data && t.index[k].lpa == LpaAt(s, k)
  }

  /** A dirtied page shows its contents and changes nothing else. */
  lemma DirtiedShows(s: FileState, t: FileState, k: U32, data: Block)
    requires Coherent(s) && Dirtied(s, t, k, data)
    ensures Coherent(t) && (forall j: nat :: LpaAt(t, j) == LpaAt(s, j))
    ensures forall j: nat :: BlockOf(t, j) == if j == k then data else BlockOf(s, j)
  {
    forall j | j in t.index ensures PageCoherent(t, j) { if j != k { assert PageCoherent(s, j); } }
  }

  /** Bytes of the chunk that would stand behind the end of the file are zero. */
  ghost predicate EndsIn(o: nat, chunk: seq<Byte>, size: nat) {
    forall i :: 0 <= i < |chunk| && o + i >= size ==> chunk[i] == 0
  }

  /** Overwriting a part of a block. */
  lemma DirtiedWrites(s: FileState, t: FileState, o: nat, old': Block, chunk: seq<Byte>, size: nat, size': nat)
    requires o / BLOCK_SIZE <= MAX_U32 && o % BLOCK_SIZE + |chunk| <= BLOCK_SIZE && o < size'
    requires Coherent(s) && Tidy(s, size) && size <= size' && EndsIn(o, chunk, size')
    requires old' == BlockOf(s, o / BLOCK_SIZE) || |chunk| == BLOCK_SIZE
    requires Dirtied(s, t, o / BLOCK_SIZE, Splice(old', o % BLOCK_SIZE, chunk))
    ensures Coherent(t) && Tidy(t, size') && Writes(s, t, o, chunk)
  {
    var k, b := o / BLOCK_SIZE, o % BLOCK_SIZE;
    DirtiedShows(s, t, k, Splice(old', b, chunk));
    forall x: nat ensures ByteOf(t, x) == if o <= x < o + |chunk| then chunk[x - o] else ByteOf(s, x) {
      SpliceByte(s, t, o, old', chunk, x);
    }
    DirtiedTidy(s, t, o, chunk, size, size');
  }

  lemma SpliceByte(s: FileState, t: FileState, o: nat, old': Block, chunk: seq<Byte>, x: nat)
    requires o % BLOCK_SIZE + |chunk| <= BLOCK_SIZE
    requires old' == BlockOf(s, o / BLOCK_SIZE) || |chunk| == BLOCK_SIZE
    requires forall j: nat ::
      BlockOf(t, j) == if j == o / BLOCK_SIZE then Splice(old', o % BLOCK_SIZE, chunk) else BlockOf(s, j)
    ensures ByteOf(t, x) == if o <= x < o + |chunk| then chunk[x - o] else ByteOf(s, x)
  {
    hide BlockOf;
    var b := o % BLOCK_SIZE;
    if o <= x < o + |chunk| { ChunkByte(o, x - o); }
    assert BlockOf(t, x / BLOCK_SIZE) ==
      if x / BLOCK_SIZE == o / BLOCK_SIZE then Splice(old', b, chunk) else BlockOf(s, x / BLOCK_SIZE);
    if x / BLOCK_SIZE == o / BLOCK_SIZE {
      var i := x % BLOCK_SIZE;
      var r := Splice(old', b, chunk);
      if b <= i < b + |chunk| { assert r[i] == r[b..b + |chunk|][i - b]; }
    }
  }

  lemma DirtiedTidy(s: FileState, t: FileState, o: nat, chunk: seq<Byte>, size: nat, size': nat)
    requires Tidy(s, size) && size <= size' && o < size' && EndsIn(o, chunk, size')
    requires o / BLOCK_SIZE <= MAX_U32 && o / BLOCK_SIZE in s.index
    requires o / BLOCK_SIZE in t.index && t == s.(index := s.index[o / BLOCK_SIZE := t.index[o / BLOCK_SIZE]])
    requires Writes(s, t, o, chunk)
    ensures Tidy(t, size')
  {
    forall k: nat | k >= SizeToBlock(size') ensures LpaAt(t, k) == INVALID_LPA {
      assert LpaAt(s, k) == INVALID_LPA;
      assert LpaAt(t, k) == LpaAt(s, k);
    }
    hide ByteOf, LpaAt;
    forall k | k in t.index && t.index[k].dirty ensures k < SizeToBlock(size') {
      if k != o / BLOCK_SIZE { assert k in s.index && s.index[k].dirty; }
    }
  }

  // ---- How far a read or a write gets ----

  /** The bytes wanted from the block of cur. */
  function ChunkOf(cur: nat, room: nat): (n: nat)
    ensures n <= room && (room > 0 ==> n > 0)
  {
    Min(BLOCK_SIZE - cur % BLOCK_SIZE, room)
  }

  lemma ChunkFits(cur: nat, room: nat)
    ensures cur % BLOCK_SIZE + ChunkOf(cur, room) <= BLOCK_SIZE
  {
  }

  /** The blocks of the n bytes from offset on can all be read. */
  ghost predicate AllInReach(s: FileState, offset: nat, n: nat) {
    forall o: nat :: offset <= o < offset + n ==> InReach(s, o / BLOCK_SIZE)
  }

  /** Why the block of cur cannot be read. */
  ghost predicate ReadFails(s: FileState, cur: nat, faulty: bool, e: Errno) {
    var k := cur / BLOCK_SIZE;
    if k > MAX_U32 then e == EFBIG else if !InReach(s, k) then e == ENOSYS else e == EIO && faulty
  }

  lemma SameReachAt(s: FileState, t: FileState, cur: nat, faulty: bool)
    requires SameReach(s, t)
    ensures InReach(t, cur / BLOCK_SIZE) <==> InReach(s, cur / BLOCK_SIZE)
    ensures forall e :: ReadFails(t, cur, faulty, e) <==> ReadFails(s, cur, faulty, e)
  {
    hide InReach;
  }

  lemma ReachNothing(s: FileState, offset: nat)
    ensures AllInReach(s, offset, 0)
  {
  }

  lemma FirstInReach(s: FileState, offset: nat, n: nat)
    requires AllInReach(s, offset, n)
    ensures n > 0 ==> InReach(s, offset / BLOCK_SIZE)
  {
  }

  lemma ReachMore(s: FileState, offset: nat, n: nat, m: nat)
    requires AllInReach(s, offset, n) && InReach(s, (offset + n) / BLOCK_SIZE) &&
      (offset + n) % BLOCK_SIZE + m <= BLOCK_SIZE
    ensures AllInReach(s, offset, n + m)
  {
    hide InReach;
    forall o: nat | offset <= o < offset + n + m ensures InReach(s, o / BLOCK_SIZE) {
      if o >= offset + n { SameBlockNumber(offset + n, o - offset - n); }
    }
  }

  lemma SameBlockNumber(o: nat, i: nat)
    requires o % BLOCK_SIZE + i < BLOCK_SIZE
    ensures (o + i) / BLOCK_SIZE == o / BLOCK_SIZE
  {
    ChunkByte(o, i);
  }

  lemma ReadStops(s: FileState, offset: nat, n: nat, readable: nat, faulty: bool, e: Errno)
    requires n < readable && ReadFails(s, offset + n, faulty, e)
    ensures !faulty ==> !InReach(s, (offset + n) / BLOCK_SIZE) && !AllInReach(s, offset, readable)
  {
    BeyondU32(s, (offset + n) / BLOCK_SIZE);
    hide InReach;
    if AllInReach(s, offset, readable) { assert InReach(s, (offset + n) / BLOCK_SIZE); }
  }

  lemma BeyondU32(s: FileState, k: nat)
    ensures k > MAX_U32 ==> !InReach(s, k)
  {
  }

  /** The end of the range cannot be expressed as a 64-bit offset. */
  predicate TooFar(offset: nat, n: nat) {
    n > 0 && offset + n > MAX_U64
  }

  /** A block that a write of n bytes at offset can store: one that can be read, or one that it
      overwrites as a whole behind the end of the file. */
  ghost predicate Storable(s: FileState, size: nat, offset: nat, n: nat, k: nat) {
    k <= MAX_U32 && (InReach(s, k) || Appended(size, offset, n, k))
  }

  /** A write of n bytes at offset overwrites block k as a whole, behind the end of the file. */
  ghost predicate Appended(size: nat, offset: nat, n: nat, k: nat) {
    k >= SizeToBlock(size) && offset <= k * BLOCK_SIZE && k * BLOCK_SIZE + BLOCK_SIZE <= offset + n
  }

  /** The blocks of the first m of n bytes from offset on can all be stored. */
  ghost predicate AllStorable(s: FileState, size: nat, offset: nat, n: nat, m: nat) {
    forall o: nat :: offset <= o < offset + m ==> Storable(s, size, offset, n, o / BLOCK_SIZE)
  }

  /** Why block k cannot be stored. */
  ghost predicate WriteFails(s: FileState, size: nat, offset: nat, n: nat, k: nat, faulty: bool, e: Errno) {
    if k > MAX_U32 then e == EFBIG
    else if !Storable(s, size, offset, n, k) then e == ENOSYS
    else e == EIO && faulty && !Appended(size, offset, n, k)
  }

  /** What preparing its page makes of a write within one block. */
  lemma ChunkOutcome(s: FileState, size: nat, cur: nat, n: nat, faulty: bool, r: Result)
    requires 0 < n && cur % BLOCK_SIZE + n <= BLOCK_SIZE
    requires var k, preserve := cur / BLOCK_SIZE, cur % BLOCK_SIZE != 0 || n != BLOCK_SIZE;
      if k > MAX_U32 then r == Failed(EFBIG) else
        && r in {Done, Failed(EIO), Failed(ENOSYS)}
        && (r == Failed(EIO) ==> faulty && (preserve || k < SizeToBlock(size)))
        && (r == Failed(ENOSYS) <==> !InReach(s, k) && (preserve || k < SizeToBlock(size)))
    ensures r.Done? ==> Storable(s, size, cur, n, cur / BLOCK_SIZE)
    ensures r.Failed? ==> WriteFails(s, size, cur, n, cur / BLOCK_SIZE, faulty, r.error)
  {
    WholeBlock(cur, n);
    hide InReach;
  }

  ghost predicate ReachElsewhere(s: FileState, t: FileState, k: nat) {
    forall j: nat :: j != k ==> (InReach(t, j) <==> InReach(s, j))
  }

  ghost predicate ReachFrom(s: FileState, t: FileState, k: nat) {
    forall j: nat :: j >= k ==> (InReach(t, j) <==> InReach(s, j))
  }

  /** What has been written can be read. */
  lemma ReachWritten(s: FileState, t: FileState, offset: nat, n: nat, done: nat, chunk: nat)
    requires AllInReach(s, offset, done) && ReachElsewhere(s, t, (offset + done) / BLOCK_SIZE)
    requires InReach(t, (offset + done) / BLOCK_SIZE) && done < n && chunk == ChunkOf(offset + done, n - done)
    ensures AllInReach(t, offset, done + chunk)
  {
    hide InReach;
    ChunkFits(offset + done, n - done);
    forall o: nat | offset <= o < offset + done + chunk ensures InReach(t, o / BLOCK_SIZE) {
      if o >= offset + done { SameBlockNumber(offset + done, o - offset - done); }
    }
  }

  lemma ReachKept(s: FileState, t: FileState, offset: nat, done: nat)
    requires AllInReach(s, offset, done) && SameReach(s, t)
    ensures AllInReach(t, offset, done)
  {
    hide InReach;
  }

  lemma ReachElsewhereBy(s: FileState, t: FileState, k: nat)
    requires SameReach(s, t)
    ensures ReachElsewhere(s, t, k) && (InReach(t, k) <==> InReach(s, k))
  {
    hide InReach;
  }

  lemma ReachElsewhereChain(a: FileState, b: FileState, c: FileState, k: nat)
    requires ReachElsewhere(a, b, k) && ReachElsewhere(b, c, k)
    ensures ReachElsewhere(a, c, k)
  {
    hide InReach;
    forall j: nat | j != k ensures InReach(c, j) <==> InReach(a, j) { assert InReach(b, j) <==> InReach(a, j); }
  }

  lemma ReachElsewhereDirtied(s: FileState, t: FileState, k: U32, data: Block)
    requires Dirtied(s, t, k, data)
    ensures ReachElsewhere(s, t, k)
  {
  }

  lemma DirtiedInReach(s: FileState, t: FileState, u: FileState, k: U32, data: Block)
    requires Dirtied(s, t, k, data) && SameReach(t, u)
    ensures InReach(u, k)
  {
    assert InReach(t, k);
  }

  lemma ReachElsewhereThen(s: FileState, t: FileState, u: FileState, k: nat)
    requires ReachElsewhere(s, t, k) && SameReach(t, u)
    ensures ReachElsewhere(s, u, k)
  {
    forall j: nat | j != k ensures InReach(u, j) <==> InReach(s, j) { assert InReach(t, j) <==> InReach(s, j); }
  }

  lemma ReachFromSelf(s: FileState, k: nat)
    ensures ReachFrom(s, s, k)
  {
  }

  /** A write stands between two turns: at its start, its end or a block boundary. */
  predicate AtBoundary(offset: nat, n: nat, done: nat) {
    done == 0 || done == n || (offset + done) % BLOCK_SIZE == 0
  }

  lemma NextBoundary(offset: nat, n: nat, done: nat)
    requires done < n
    ensures AtBoundary(offset, n, done + ChunkOf(offset + done, n - done))
  {
  }

  lemma WholeBlock(cur: nat, n: nat)
    requires 0 < n && cur % BLOCK_SIZE + n <= BLOCK_SIZE
    ensures var k := cur / BLOCK_SIZE;
      (cur <= k * BLOCK_SIZE && k * BLOCK_SIZE + BLOCK_SIZE <= cur + n) <==> cur % BLOCK_SIZE == 0 && n == BLOCK_SIZE
  {
  }

  /** What the block of the next chunk needs is what it needed at the start of the write. */
  lemma SameStorable(s: FileState, t: FileState, size0: nat, size: nat, offset: nat, n: nat, done: nat, chunk: nat,
                     faulty: bool)
    requires done < n && AtBoundary(offset, n, done) && chunk == ChunkOf(offset + done, n - done)
    requires size == if done == 0 then size0 else Max(size0, offset + done)
    requires ReachFrom(s, t, (offset + done) / BLOCK_SIZE)
    ensures var k := (offset + done) / BLOCK_SIZE;
      && (Storable(t, size, offset + done, chunk, k) <==> Storable(s, size0, offset, n, k))
      && forall e :: WriteFails(t, size, offset + done, chunk, k, faulty, e) <==>
        WriteFails(s, size0, offset, n, k, faulty, e)
  {
    var cur := offset + done;
    var k := cur / BLOCK_SIZE;
    assert InReach(t, k) <==> InReach(s, k);
    hide InReach, ReachFrom;
    SameWhole(size0, size, offset, n, done);
  }

  lemma SameWhole(size0: nat, size: nat, offset: nat, n: nat, done: nat)
    requires done < n && AtBoundary(offset, n, done)
    requires size == if done == 0 then size0 else Max(size0, offset + done)
    ensures var cur := offset + done; var k, chunk := cur / BLOCK_SIZE, ChunkOf(cur, n - done);
      Appended(size, cur, chunk, k) <==> Appended(size0, offset, n, k)
  {
    var cur := offset + done;
    var k := cur / BLOCK_SIZE;
    assert cur % BLOCK_SIZE == 0 ==> cur == k * BLOCK_SIZE && SizeToBlock(cur) == k;
  }

  lemma StorableNothing(s: FileState, size: nat, offset: nat, n: nat)
    ensures AllStorable(s, size, offset, n, 0)
  {
  }

  lemma StorableMore(s: FileState, size: nat, offset: nat, n: nat, done: nat, m: nat)
    requires AllStorable(s, size, offset, n, done) && Storable(s, size, offset, n, (offset + done) / BLOCK_SIZE)
    requires (offset + done) % BLOCK_SIZE + m <= BLOCK_SIZE
    ensures AllStorable(s, size, offset, n, done + m)
  {
    hide Storable;
    forall o: nat | offset <= o < offset + done + m ensures Storable(s, size, offset, n, o / BLOCK_SIZE) {
      if o >= offset + done { SameBlockNumber(offset + done, o - offset - done); }
    }
  }

  lemma ReachOnwards(s: FileState, t: FileState, u: FileState, cur: nat, chunk: nat, room: nat)
    requires ReachFrom(s, t, cur / BLOCK_SIZE) && ReachElsewhere(t, u, cur / BLOCK_SIZE) && chunk == ChunkOf(cur, room)
    ensures chunk < room ==> ReachFrom(s, u, (cur + chunk) / BLOCK_SIZE)
  {
    if chunk < room {
      assert (cur + chunk) / BLOCK_SIZE == cur / BLOCK_SIZE + 1;
      hide InReach;
      forall j: nat | j >= (cur + chunk) / BLOCK_SIZE ensures InReach(u, j) <==> InReach(s, j) {
        assert InReach(t, j) <==> InReach(s, j);
      }
    }
  }

  lemma WriteStops(s: FileState, size: nat, offset: nat, n: nat, m: nat, faulty: bool, e: Errno)
    requires m < n && WriteFails(s, size, offset, n, (offset + m) / BLOCK_SIZE, faulty, e)
    ensures !Storable(s, size, offset, n, (offset + m) / BLOCK_SIZE) ||
      (faulty && !Appended(size, offset, n, (offset + m) / BLOCK_SIZE))
    ensures !faulty ==> !AllStorable(s, size, offset, n, n)
  {
    if AllStorable(s, size, offset, n, n) { assert Storable(s, size, offset, n, (offset + m) / BLOCK_SIZE); }
  }

  // ---- Truncation ----

  /** The LPAs that the blocks from a to b have. */
  ghost function Mapped(s: FileState, a: nat, b: nat): seq<U32> {
    if a >= b then []
    else Mapped(s, a, b - 1) + (if LpaAt(s, b - 1) == INVALID_LPA then [] else [LpaAt(s, b - 1)])
  }

  /** The pages from first on show nothing and are clean, the others are as before. */
  ghost predicate Cut(before: Index, after: Index, first: nat) {
    && after.Keys == before.Keys
    && forall k :: k in before ==> if k >= first then !after[k].ready && !after[k].dirty else after[k] == before[k]
  }

  /** The blocks from first on are unmapped, the others are as before. */
  ghost predicate Unmapped(s: FileState, t: FileState, first: nat) {
    forall k: nat :: LpaAt(t, k) == if k >= first then INVALID_LPA else LpaAt(s, k)
  }

  lemma UnmappedAfter(s: FileState, t: FileState, t': FileState, first: nat)
    requires Unmapped(s, t, first) && t'.nodes == t.nodes && t'.ino == t.ino
    ensures Unmapped(s, t', first)
  {
    hide LpaOf;
    forall k: nat ensures LpaAt(t', k) == if k >= first then INVALID_LPA else LpaAt(s, k) {
      assert LpaAt(t', k) == LpaAt(t, k);
    }
  }

  lemma TruncateShows(s: FileState, t: FileState, size: nat, target: nat)
    requires Coherent(s) && Tidy(s, size) && target < size && t.disk == s.disk
    requires Cut(s.index, t.index, SizeToBlock(target)) && Unmapped(s, t, SizeToBlock(target))
    requires forall o: nat :: target <= o < SizeToBlock(target) * BLOCK_SIZE ==> ByteOf(s, o) == 0
    ensures Coherent(t) && Tidy(t, target)
    ensures forall o: nat :: ByteOf(t, o) == if o < target then ByteOf(s, o) else 0
  {
    var first := SizeToBlock(target);
    forall k | k in t.index ensures PageCoherent(t, k) {
      assert PageCoherent(s, k);
      assert LpaAt(t, k) == if k >= first then INVALID_LPA else LpaAt(s, k);
    }
    forall k | 0 <= k < MAX_BLOCKS
      ensures LpaOf(t.nodes, t.ino, k) < |t.disk| || LpaOf(t.nodes, t.ino, k) == INVALID_LPA {
      assert LpaAt(t, k) == if k >= first then INVALID_LPA else LpaAt(s, k);
    }
    forall k: nat ensures BlockOf(t, k) == if k >= first then ZeroBlock() else BlockOf(s, k) {
      assert LpaAt(t, k) == if k >= first then INVALID_LPA else LpaAt(s, k);
    }
    CutBytes(s, t, target);
  }

  lemma CutBytes(s: FileState, t: FileState, target: nat)
    requires forall k: nat :: BlockOf(t, k) == if k >= SizeToBlock(target) then ZeroBlock() else BlockOf(s, k)
    requires forall o: nat :: target <= o < SizeToBlock(target) * BLOCK_SIZE ==> ByteOf(s, o) == 0
    ensures forall o: nat :: ByteOf(t, o) == if o < target then ByteOf(s, o) else 0
  {
    hide BlockOf;
    forall o: nat ensures ByteOf(t, o) == if o < target then ByteOf(s, o) else 0 {
      BehindBlock(o, SizeToBlock(target));
      if o < target { BelowEnd(o, target); }
      assert ByteOf(s, o) == BlockOf(s, o / BLOCK_SIZE)[o % BLOCK_SIZE];
      assert BlockOf(t, o / BLOCK_SIZE) ==
        if o / BLOCK_SIZE >= SizeToBlock(target) then ZeroBlock() else BlockOf(s, o / BLOCK_SIZE);
    }
  }

  lemma BehindBlock(o: nat, first: nat)
    ensures o / BLOCK_SIZE >= first || o < first * BLOCK_SIZE
  {
  }

  lemma BelowEnd(o: nat, size: nat)
    requires o < size
    ensures o / BLOCK_SIZE < SizeToBlock(size)
  {
  }

  datatype Result = Done | Failed(error: Errno)

  class FileObject {
    const cache: PageCache
    const nodes: FileNodes
    const dev: BlockDevice.Device
    var size: nat
    var truncated: seq<U32>   // LPAs that truncation gave up since the last commit

    ghost function State(): FileState
      reads cache.manager, nodes, dev
    {
      FileState(cache.manager.index, dev.disk, nodes.nodes, nodes.ino)
    }

    ghost predicate Valid()
      reads this, cache, cache.manager, cache.manager.replacer, nodes, dev
    {
      cache.Valid() && nodes.Valid() && Coherent(State()) && Tidy(State(), size)
    }

    /** Whether the device or the loading of a node may fail. */
    ghost predicate Faulty() {
      dev.faulty || nodes.faulty
    }

    /** A file is opened with an empty page cache on what the device and its nodes hold. */
    constructor (dev: BlockDevice.Device, nodes: FileNodes, size: nat, expectSize: nat)
      requires nodes.Valid() && var s := FileState(map[], dev.disk, nodes.nodes, nodes.ino);
        Coherent(s) && Tidy(s, size)
      ensures Valid() && this.dev == dev && this.nodes == nodes && this.size == size && cache.manager.index == map[]
    {
      this.dev, this.nodes, this.size, truncated := dev, nodes, size, [];
      cache := new PageCache(expectSize);
    }

    /** The handle of a page is destroyed. */
    method ReleasePage(k: U32)
      requires Valid() && k in cache.handles
      modifies cache, cache.manager, cache.manager.replacer
      ensures Valid() && cache.handles == old(cache.handles) - multiset{k}
      ensures SameBlocks(old(State()), State()) && SameReach(old(State()), State())
    {
      hide Coherent, Tidy, SameBlocks, SameReach, Books;
      ghost var s := State();
      cache.Release(k);
      BooksReferenced(cache.manager.index, cache.manager.Pinned(), cache.dirtyPages, cache.handles, k);
      RefIsInvisible(s, k, cache.manager.index[k].refCount, size);
    }

    /** rtfsFileInodePreparePageForRead: the caller gets a page with contents, or an error. */
    method PreparePageForRead(k: U32) returns (r: Result)
      requires Valid()
      modifies cache, cache.manager, cache.manager.replacer
      ensures Valid() && SameBlocks(old(State()), State()) && SameReach(old(State()), State())
      ensures cache.handles == old(cache.handles) + if r.Done? then multiset{k} else multiset{}
      ensures r.Done? ==> k in cache.manager.index && cache.manager.index[k].ready
      ensures r in {Done, Failed(EIO), Failed(ENOSYS)} && (r == Failed(EIO) ==> Faulty())
      ensures r == Failed(ENOSYS) <==> !InReach(old(State()), k)
    {
      hide Coherent, Tidy, SameBlocks, SameReach, Books, Got;
      ghost var s0 := State();
      GetPage(k);
      if cache.manager.index[k].ready { return Done; }
      var err, lpa, data := LoadBlock(k);
      ghost var s1 := State();
      if err != Ok {
        ReleasePage(k);
        assert cache.handles == old(cache.handles);
        SameBlocksChain(s0, s1, State());
        SameReachChain(s0, s1, State());
        return Failed(err);
      }
      FillIsInvisible(s1, k, lpa, data, size);
      cache.Fill(k, lpa, true, data);
      SameBlocksChain(s0, s1, State());
      SameReachChain(s0, s1, State());
      r := Done;
    }

    /** What the device has for a block: its LPA, and its contents or zeros for a hole. */
    method LoadBlock(k: U32) returns (err: Errno, lpa: U32, data: Block)
      requires Valid()
      ensures err in {Ok, EIO, ENOSYS} && (err == EIO ==> Faulty()) && (err == ENOSYS <==> k >= MAX_BLOCKS)
      ensures err == Ok ==> lpa == LpaAt(State(), k) && data == Stored(State(), k)
    {
      hide Tidy, Books, LpaOf;
      err, lpa := nodes.ResolveDataLpa(k);
      data := ZeroBlock();
      if err == Ok && lpa != INVALID_LPA {
        var readable: bool := *;
        LpaOnDisk(State(), k, lpa);
        if readable || !dev.faulty { readable, data := dev.ReadBlock(lpa); }
        if !readable { err := EIO; }
      }
    }

    /** pageCacheGet, as the file sees it. */
    method GetPage(k: U32)
      requires Valid()
      modifies cache, cache.manager, cache.manager.replacer
      ensures Valid() && SameBlocks(old(State()), State()) && SameReach(old(State()), State()) &&
        k in cache.manager.index
      ensures cache.handles == old(cache.handles) + multiset{k} && (Cached(State(), k) <==> Cached(old(State()), k))
    {
      hide Coherent, Tidy, SameBlocks, SameReach, Books;
      ghost var s := State();
      cache.Get(k);
      GotIsInvisible(s, cache.manager.index, k, size);
    }

    /** The part of one block that a read wants. */
    method ReadChunk(cur: nat, room: nat) returns (r: Result, bytes: seq<Byte>)
      requires Valid() && room > 0
      modifies cache, cache.manager, cache.manager.replacer
      ensures Valid() && SameBlocks(old(State()), State()) && cache.handles == old(cache.handles)
      ensures SameReach(old(State()), State())
      ensures r.Done? ==>
        |bytes| == ChunkOf(cur, room) && Reads(old(State()), cur, bytes) && InReach(old(State()), cur / BLOCK_SIZE)
      ensures r.Failed? ==> bytes == [] && ReadFails(old(State()), cur, Faulty(), r.error)
    {
      hide Coherent, Tidy, SameBlocks, SameReach, Reads, Books;
      ghost var s := State();
      SameBlocksSelf(s);
      SameReachSelf(s);
      var k, blockOffset := cur / BLOCK_SIZE, cur % BLOCK_SIZE;
      if k > MAX_U32 { return Failed(EFBIG), []; }
      var chunk := ChunkOf(cur, room);
      r := PreparePageForRead(k);
      if r.Failed? { return r, []; }
      CachedShows(s, State(), k);
      bytes := cache.manager.index[k].data[blockOffset..blockOffset + chunk];
      ReadsChunk(s, cur, chunk);
      ghost var s1 := State();
      ReleasePage(k);
      assert cache.handles == old(cache.handles);
      SameBlocksChain(s, s1, State());
      SameReachChain(s, s1, State());
    }

    /** One turn of the read loop, with what has been read of state s so far. */
    method ReadMore(ghost s: FileState, offset: nat, bytes: seq<Byte>, readable: nat)
      returns (r: Result, bytes': seq<Byte>)
      requires Valid() && SameBlocks(s, State()) && Reads(s, offset, bytes) && |bytes| < readable
      requires SameReach(s, State()) && AllInReach(s, offset, |bytes|)
      modifies cache, cache.manager, cache.manager.replacer
      ensures Valid() && SameBlocks(s, State()) && cache.handles == old(cache.handles) && Reads(s, offset, bytes')
      ensures SameReach(s, State()) && AllInReach(s, offset, |bytes'|)
      ensures if r.Done? then |bytes| < |bytes'| <= readable
        else bytes' == bytes && ReadFails(s, offset + |bytes|, Faulty(), r.error)
    {
      hide FileObject.Valid, FileObject.State, SameBlocks, SameReach, Reads, AllInReach, ReadFails, InReach;
      ghost var s1 := State();
      var more;
      r, more := ReadChunk(offset + |bytes|, readable - |bytes|);
      SameBlocksChain(s, s1, State());
      SameReachChain(s, s1, State());
      SameReachAt(s, s1, offset + |bytes|, Faulty());
      bytes' := bytes;
      if r.Done? {
        ReadsSame(s, s1, offset + |bytes|, more);
        ReadsAppend(s, offset, bytes, more);
        ReachMore(s, offset, |bytes|, |more|);
        bytes' := bytes + more;
      }
    }

    /** rtfsFileInodeRead. What is read is what the file shows, up to the first block that cannot be
        reached. Without a device fault the read returns all bytes up to the end of the file exactly if
        every block it touches is in reach; the error of a read that returns nothing tells the reason. */
    method Read(offset: int, count: nat) returns (r: Result, bytes: seq<Byte>)
      requires Valid()
      modifies cache, cache.manager, cache.manager.replacer
      ensures Valid() && SameBlocks(old(State()), State()) && cache.handles == old(cache.handles)
      ensures offset < 0 ==> r == Failed(EINVAL) && bytes == []
      ensures offset >= 0 ==> Reads(old(State()), offset, bytes) && |bytes| <= Readable(size, offset, count)
      ensures offset >= 0 ==> (r.Done? <==> bytes != [] || Readable(size, offset, count) == 0)
      ensures offset >= 0 && r.Failed? ==> ReadFails(old(State()), offset, Faulty(), r.error)
      ensures offset >= 0 ==> AllInReach(old(State()), offset, |bytes|)
      ensures offset >= 0 && |bytes| < Readable(size, offset, count) && !Faulty() ==>
        !InReach(old(State()), (offset + |bytes|) / BLOCK_SIZE)
      ensures offset >= 0 && !Faulty() ==>
        (|bytes| == Readable(size, offset, count) <==> AllInReach(old(State()), offset, Readable(size, offset, count)))
    {
      hide FileObject.Valid, FileObject.State, SameBlocks, SameReach, Reads, AllInReach, ReadFails, InReach;
      ghost var s := State();
      SameBlocksSelf(s);
      SameReachSelf(s);
      r, bytes := Done, [];
      if offset < 0 { return Failed(EINVAL), []; }
      ReadsNothing(s, offset);
      ReachNothing(s, offset);
      var readable := Readable(size, offset, count);
      while |bytes| < readable
        invariant |bytes| <= readable && Valid() && SameBlocks(s, State()) && cache.handles == old(cache.handles)
        invariant Reads(s, offset, bytes) && r == Done && SameReach(s, State()) && AllInReach(s, offset, |bytes|)
      {
        var done;
        done, bytes := ReadMore(s, offset, bytes, readable);
        if done.Failed? {
          ReadStops(s, offset, |bytes|, readable, Faulty(), done.error);
          if bytes == [] { r := done; }
          return;
        }
      }
    }

    /** rtfsFileInodePreparePageForWrite: a block that will be overwritten as a whole is not read. */
    method PreparePageForWrite(k: U32, preserve: bool) returns (r: Result)
      requires Valid()
      modifies cache, cache.manager, cache.manager.replacer
      ensures Valid() && SameBlocks(old(State()), State()) && SameReach(old(State()), State())
      ensures cache.handles == old(cache.handles) + if r.Done? then multiset{k} else multiset{}
      ensures r.Done? ==>
        && k in cache.manager.index && (cache.manager.index[k].ready || !preserve)
        && cache.manager.index[k].lpa == LpaAt(State(), k)
      ensures r in {Done, Failed(EIO), Failed(ENOSYS)}
      ensures r == Failed(EIO) ==> Faulty() && (preserve || k < SizeToBlock(size))
      ensures r == Failed(ENOSYS) <==> !InReach(old(State()), k) && (preserve || k < SizeToBlock(size))
    {
      hide Coherent, Tidy, SameBlocks, SameReach, Books, Got;
      ghost var s0 := State();
      if preserve {
        r := PreparePageForRead(k);
        if r.Done? { ReadyKnowsLpa(State(), k); }
        return;
      }
      GetPage(k);
      ghost var s1 := State();
      var p := cache.manager.index[k];
      if p.ready {
        ReadyKnowsLpa(State(), k);
        return Done;
      }
      var err, lpa := Ok, INVALID_LPA;
      if k >= SizeToBlock(size) {
        BehindEnd(s1, size, k);
      } else {
        err, lpa := nodes.ResolveDataLpa(k);
      }
      if err != Ok {
        ReleasePage(k);
        assert cache.handles == old(cache.handles);
        SameBlocksChain(s0, s1, State());
        SameReachChain(s0, s1, State());
        return Failed(err);
      }
      NotDirty(s1, k);
      UnreadIsInvisible(s1, k, p.(lpa := lpa), size);
      cache.Fill(k, lpa, false, p.data);
      SameBlocksChain(s0, s1, State());
      SameReachChain(s0, s1, State());
      r := Done;
    }

    /** The part of a write that falls into one block. */
    method WriteChunk(cur: nat, chunk: seq<Byte>) returns (r: Result)
      requires Valid() && chunk != [] && cur % BLOCK_SIZE + |chunk| <= BLOCK_SIZE
      modifies this`size, cache, cache.manager, cache.manager.replacer
      ensures Valid() && cache.handles == old(cache.handles)
      ensures r.Failed? ==> size == old(size) && SameBlocks(old(State()), State())
      ensures r.Done? ==> size == Max(old(size), cur + |chunk|) && Writes(old(State()), State(), cur, chunk)
      ensures r.Failed? ==> SameReach(old(State()), State())
      ensures r.Done? ==> ReachElsewhere(old(State()), State(), cur / BLOCK_SIZE) && InReach(State(), cur / BLOCK_SIZE)
      ensures r.Done? ==> Storable(old(State()), old(size), cur, |chunk|, cur / BLOCK_SIZE)
      ensures r.Failed? ==> WriteFails(old(State()), old(size), cur, |chunk|, cur / BLOCK_SIZE, Faulty(), r.error)
    {
      hide Coherent, Tidy, SameBlocks, SameReach, ReachElsewhere, Books, Writes, Dirtied, InReach, Storable, WriteFails;
      ghost var s0, size0 := State(), size;
      SameBlocksSelf(s0);
      SameReachSelf(s0);
      if cur / BLOCK_SIZE > MAX_U32 {
        ChunkOutcome(s0, size0, cur, |chunk|, Faulty(), Failed(EFBIG));
        return Failed(EFBIG);
      }
      var k: U32 := cur / BLOCK_SIZE;
      r := PreparePageForWrite(k, cur % BLOCK_SIZE != 0 || |chunk| != BLOCK_SIZE);
      ChunkOutcome(s0, size0, cur, |chunk|, Faulty(), r);
      if r.Failed? { return; }
      ReachElsewhereBy(s0, State(), k);
      ghost var s1 := State();
      PutChunk(k, cur, chunk);
      WritesSame(s0, s1, State(), cur, chunk);
      ReachElsewhereChain(s0, s1, State(), k);
    }

    /** The bytes go into the prepared page, which is then let go. */
    method PutChunk(k: U32, cur: nat, chunk: seq<Byte>)
      requires Valid() && chunk != [] && cur % BLOCK_SIZE + |chunk| <= BLOCK_SIZE && k == cur / BLOCK_SIZE
      requires k in cache.handles && k in cache.manager.index && cache.manager.index[k].lpa == LpaAt(State(), k)
      requires cache.manager.index[k].ready || (cur % BLOCK_SIZE == 0 && |chunk| == BLOCK_SIZE)
      modifies this`size, cache, cache.manager, cache.manager.replacer
      ensures Valid() && cache.handles == old(cache.handles) - multiset{k} && size == Max(old(size), cur + |chunk|)
      ensures Writes(old(State()), State(), cur, chunk) && ReachElsewhere(old(State()), State(), k) &&
        InReach(State(), k)
    {
      hide Coherent, Tidy, SameBlocks, SameReach, ReachElsewhere, Books, Writes, Dirtied, InReach;
      ghost var s1 := State();
      var p := cache.manager.index[k];
      if p.ready { CachedShows(s1, s1, k); }
      var data := Splice(p.data, cur % BLOCK_SIZE, chunk);
      StorePage(k, p.lpa, data);
      ghost var s2 := State();
      DirtiedWrites(s1, s2, cur, p.data, chunk, size, Max(size, cur + |chunk|));
      size := Max(size, cur + |chunk|);
      ReleasePage(k);
      WritesThenSame(s1, s2, State(), cur, chunk);
      ReachElsewhereDirtied(s1, s2, k, data);
      ReachElsewhereThen(s1, s2, State(), k);
      DirtiedInReach(s1, s2, State(), k, data);
    }

    /** The new contents go into the page, which becomes dirty. */
    method StorePage(k: U32, lpa: U32, data: Block)
      requires cache.Valid() && k in cache.handles && k in cache.manager.index
      requires lpa == cache.manager.index[k].lpa == LpaAt(State(), k)
      modifies cache, cache.manager
      ensures cache.Valid() && cache.handles == old(cache.handles)
      ensures Dirtied(old(State()), State(), k, data)
    {
      hide Books, LpaAt;
      ghost var s := State();
      cache.Fill(k, lpa, true, data);
      cache.MakeDirty(k);
      BooksHave(cache.manager.index, cache.manager.Pinned(), cache.dirtyPages, cache.handles, k);
      assert State().index == s.index[k := State().index[k]];
    }

    /** One turn of the write loop, with what has been written over state s so far. */
    method WriteMore(ghost s: FileState, ghost size0: nat, offset: nat, data: seq<Byte>, done: nat)
      returns (r: Result, done': nat)
      requires Valid() && done < |data| && Writes(s, State(), offset, data[..done])
      requires size == if done == 0 then size0 else Max(size0, offset + done)
      requires AtBoundary(offset, |data|, done) && ReachFrom(s, State(), (offset + done) / BLOCK_SIZE)
      requires AllStorable(s, size0, offset, |data|, done) && AllInReach(State(), offset, done)
      modifies this`size, cache, cache.manager, cache.manager.replacer
      ensures Valid() && cache.handles == old(cache.handles) && done' <= |data| &&
        Writes(s, State(), offset, data[..done'])
      ensures size == if done' == 0 then size0 else Max(size0, offset + done')
      ensures AtBoundary(offset, |data|, done') &&
        (r.Done? && done' < |data| ==> ReachFrom(s, State(), (offset + done') / BLOCK_SIZE))
      ensures AllStorable(s, size0, offset, |data|, done') && AllInReach(State(), offset, done')
      ensures if r.Done? then done < done' else
        done' == done && WriteFails(s, size0, offset, |data|, (offset + done) / BLOCK_SIZE, Faulty(), r.error)
    {
      hide FileObject.Valid, FileObject.State, SameBlocks, Writes, ReachFrom, ReachElsewhere, AllStorable, Storable,
        WriteFails;
      hide SameReach, AllInReach, InReach;
      ghost var s1 := State();
      var cur := offset + done;
      var n := ChunkOf(cur, |data| - done);
      var chunk := data[done..done + n];
      ChunkFits(cur, |data| - done);
      SameStorable(s, s1, size0, size, offset, |data|, done, n, Faulty());
      r := WriteChunk(cur, chunk);
      done' := done;
      if r.Done? {
        done' := done + n;
        assert data[..done] + chunk == data[..done'];
        WritesAppend(s, s1, State(), offset, data[..done], chunk);
        StorableMore(s, size0, offset, |data|, done, n);
        NextBoundary(offset, |data|, done);
        ReachOnwards(s, s1, State(), cur, n, |data| - done);
        ReachWritten(s1, State(), offset, |data|, done, n);
      } else {
        ReachKept(s1, State(), offset, done);
        WritesThenSame(s, s1, State(), offset, data[..done]);
      }
    }

    /** rtfsFileInodeWrite. The bytes written appear from offset on, the file grows to hold them, a gap
        behind the old end reads as zeros, and nothing else changes. Without a device fault all bytes
        are written exactly if every block they touch is Storable and their end can be expressed; else
        the write stops at the first block that is not. */
    method Write(offset: int, data: seq<Byte>) returns (r: Result, written: nat)
      requires Valid()
      modifies this`size, cache, cache.manager, cache.manager.replacer
      ensures Valid() && cache.handles == old(cache.handles) && written <= |data|
      ensures offset < 0 ==> r == Failed(EINVAL) && written == 0
      ensures written == 0 ==> size == old(size)
      ensures offset >= 0 ==> Writes(old(State()), State(), offset, data[..written])
      ensures offset >= 0 && written > 0 ==> size == Max(old(size), offset + written)
      ensures offset >= 0 ==> (r.Done? <==> written > 0 || data == [])
      ensures offset >= 0 && TooFar(offset, |data|) ==> written == 0 && r == Failed(EFBIG)
      ensures offset >= 0 && r.Failed? && !TooFar(offset, |data|) ==>
        WriteFails(old(State()), old(size), offset, |data|, offset / BLOCK_SIZE, Faulty(), r.error)
      ensures offset >= 0 ==>
        AllStorable(old(State()), old(size), offset, |data|, written) && AllInReach(State(), offset, written)
      ensures offset >= 0 && written < |data| && !TooFar(offset, |data|) ==>
        var k := (offset + written) / BLOCK_SIZE;
        !Storable(old(State()), old(size), offset, |data|, k) || (Faulty() && !Appended(old(size), offset, |data|, k))
      ensures offset >= 0 && !Faulty() ==>
        (written == |data| <==> !TooFar(offset, |data|) && AllStorable(old(State()), old(size), offset, |data|, |data|))
    {
      hide FileObject.Valid, FileObject.State, SameBlocks, Writes, ReachFrom, AllStorable, Storable, WriteFails,
        AllInReach, Appended;
      r, written := Done, 0;
      if offset < 0 { return Failed(EINVAL), 0; }
      ghost var s, size0 := State(), size;
      WritesNothing(s, offset);
      StorableNothing(s, size0, offset, |data|);
      ReachFromSelf(s, offset / BLOCK_SIZE);
      ReachNothing(s, offset);
      if TooFar(offset, |data|) { return Failed(EFBIG), 0; }
      while written < |data|
        invariant written <= |data| && Valid() && cache.handles == old(cache.handles)
        invariant Writes(s, State(), offset, data[..written]) && r == Done
        invariant size == if written == 0 then size0 else Max(size0, offset + written)
        invariant AtBoundary(offset, |data|, written) && AllStorable(s, size0, offset, |data|, written)
        invariant AllInReach(State(), offset, written)
        invariant written < |data| ==> ReachFrom(s, State(), (offset + written) / BLOCK_SIZE)
      {
        var done;
        done, written := WriteMore(s, size0, offset, data, written);
        if done.Failed? {
          WriteStops(s, size0, offset, |data|, written, Faulty(), done.error);
          if written == 0 { r := done; }
          return;
        }
      }
    }

    /** Shrinking into a block: the rest of that block becomes zero. */
    method ZeroTail(target: nat) returns (r: Result)
      requires Valid() && target < size && target % BLOCK_SIZE != 0
      modifies cache, cache.manager, cache.manager.replacer
      ensures Valid() && cache.handles == old(cache.handles)
      ensures r.Failed? ==> SameBlocks(old(State()), State())
      ensures r.Done? ==> Writes(old(State()), State(), target, Zeros(BLOCK_SIZE - target % BLOCK_SIZE))
      ensures r.Done? || (r.error in {EIO, ENOSYS, EFBIG} && (r.error == EIO ==> Faulty()))
      ensures r.Failed? && r.error != EIO <==> !InReach(old(State()), target / BLOCK_SIZE)
    {
      hide Coherent, Tidy, SameBlocks, SameReach, Books, Writes, Dirtied;
      ghost var s0 := State();
      SameBlocksSelf(s0);
      if target / BLOCK_SIZE > MAX_U32 { return Failed(EFBIG); }
      var k: U32, keep := target / BLOCK_SIZE, target % BLOCK_SIZE;
      r := PreparePageForWrite(k, true);
      if r.Failed? { return; }
      ghost var s1 := State();
      var p, zeros := cache.manager.index[k], Zeros(BLOCK_SIZE - keep);
      CachedShows(s1, s1, k);
      StorePage(k, p.lpa, Splice(p.data, keep, zeros));
      ghost var s2 := State();
      DirtiedWrites(s1, s2, target, p.data, zeros, size, size);
      ReleasePage(k);
      assert cache.handles == old(cache.handles);
      WritesSame(s0, s1, s2, target, zeros);
      WritesThenSame(s0, s2, State(), target, zeros);
    }

    /** rtfsFileSetDataLpaByBlockIndex, as the file sees it. */
    method RemapBlock(k: nat, lpa: U32, create: bool) returns (err: Errno, oldLpa: U32)
      requires nodes.Valid()
      modifies nodes
      ensures nodes.Valid() && (k >= MAX_BLOCKS <==> err == ENOSYS) && err in {Ok, EIO, ENOSPC, ENOSYS, ENOENT}
      ensures (err == EIO ==> nodes.faulty) && (err == ENOSPC ==> lpa != INVALID_LPA && nodes.supply == [])
      ensures err == ENOENT ==> !create && lpa != INVALID_LPA
      ensures err == Ok ==> oldLpa == LpaAt(old(State()), k)
      ensures forall j: nat :: LpaAt(State(), j) == if j == k && err == Ok then lpa else LpaAt(old(State()), j)
      ensures Touched(old(nodes.Book()), nodes.Book(), 3)
      ensures lpa == INVALID_LPA ==> nodes.nodes.Keys == old(nodes.nodes).Keys && nodes.supply == old(nodes.supply)
    {
      hide LpaOf, Touched, Stocked;
      ghost var s := State();
      assert forall j | 0 <= j < MAX_BLOCKS :: LpaAt(s, j) == nodes.Map(j);
      label before:
      err, oldLpa := nodes.SetDataLpa(k, lpa, create);
      forall j: nat ensures LpaAt(State(), j) == if j == k && err == Ok then lpa else LpaAt(s, j) {
        if j < MAX_BLOCKS { assert nodes.Map(j) == if j == k && err == Ok then lpa else old@before(nodes.Map(j)); }
      }
    }

    /** One turn of the unmapping loop, with the blocks from first on already unmapped. */
    method UnmapOne(ghost s: FileState, first: nat, i: nat) returns (err: Errno, oldLpa: U32)
      requires nodes.Valid() && first <= i && UnmappedTo(s, State(), first, i)
      modifies nodes
      ensures nodes.Valid() && (i >= MAX_BLOCKS <==> err == ENOSYS) && err in {Ok, EIO, ENOSYS} &&
        (err == EIO ==> nodes.faulty)
      ensures Touched(old(nodes.Book()), nodes.Book(), 0)
      ensures err == Ok ==> oldLpa == LpaAt(s, i) && UnmappedTo(s, State(), first, i + 1)
      ensures err != Ok ==> UnmappedTo(s, State(), first, i)
    {
      hide LpaAt, UnmappedTo, Stocked;
      ghost var t, book := State(), nodes.Book();
      err, oldLpa := RemapBlock(i, INVALID_LPA, false);
      TouchedNone(book, nodes.Book(), 3);
      UnmappedMore(s, t, State(), first, i, err == Ok);
    }

    /** The unmapping loop of rtfsFileInodeTruncate. The given up LPAs are remembered. If it fails, the
        blocks before stop have lost their LPAs. */
    method UnmapBlocks(first: nat, end: nat) returns (r: Result, ghost stop: nat)
      requires nodes.Valid() && first <= end && forall k: nat :: k >= end ==> LpaAt(State(), k) == INVALID_LPA
      modifies this`truncated, nodes
      ensures nodes.Valid() && first <= stop <= end && UnmappedTo(old(State()), State(), first, stop)
      ensures truncated == old(truncated) + Mapped(old(State()), first, stop)
      ensures r.Done? ==> Unmapped(old(State()), State(), first) && stop == end
      ensures r.Done? || (r.error in {EIO, ENOSYS, EFBIG} && (r.error == EIO ==> nodes.faulty))
      ensures r.Failed? && r.error != EIO ==> first < end && end > MAX_BLOCKS
      ensures r.Done? ==> first == end || end <= MAX_BLOCKS
      ensures Touched(old(nodes.Book()), nodes.Book(), 0)
    {
      hide LpaAt, Unmapped, UnmappedTo, Touched, Stocked;
      ghost var s, book := State(), nodes.Book();
      UnmappedNone(s, first);
      TouchedSame(book, 0);
      var i := first;
      stop := first;
      while i < end
        invariant first <= i <= end && nodes.Valid() && (i == first || i <= MAX_BLOCKS) && stop == i
        invariant UnmappedTo(s, State(), first, i) && Touched(book, nodes.Book(), 0)
        invariant truncated == old(truncated) + Mapped(s, first, i)
      {
        if i > MAX_U32 { return Failed(EFBIG), i; }
        ghost var now := nodes.Book();
        var err, oldLpa := UnmapOne(s, first, i);
        TouchedChain(book, now, nodes.Book(), 0, 0);
        if err != Ok { return Failed(err), i; }
        if oldLpa != INVALID_LPA { truncated := truncated + [oldLpa]; }
        i, stop := i + 1, i + 1;
      }
      UnmappedAll(s, State(), first, end);
      r := Done;
    }

    /** rtfsFileInodeInvalidateCachedPagesFrom */
    method InvalidateCachedPagesFrom(target: nat)
      requires cache.Valid()
      modifies cache, cache.manager, cache.manager.replacer
      ensures cache.Valid() && cache.handles == old(cache.handles)
      ensures Cut(old(cache.manager.index), cache.manager.index, SizeToBlock(target))
    {
      hide Books;
      var first := SizeToBlock(target);
      ghost var before := cache.manager.index;
      if target == 0 {
        cache.ClearDirtyPages();
      } else if first - 1 <= MAX_U32 {
        cache.Truncate(first - 1);
      }
      ghost var now := cache.manager.index;
      DirtyBelow(cache.manager.index, cache.manager.Pinned(), cache.dirtyPages, cache.handles);
      if first <= MAX_U32 { cache.InvalidateFrom(first); }
    }

    /** The part of rtfsFileInodeTruncate that shrinks the file. */
    method Shrink(target: nat) returns (r: Result, ghost stop: nat)
      requires Valid() && target < size
      modifies this`size, this`truncated, nodes, cache, cache.manager, cache.manager.replacer
      ensures r.Done? ==>
        && Valid() && cache.handles == old(cache.handles) && size == target
        && forall o: nat :: ByteOf(State(), o) == if o < target then ByteOf(old(State()), o) else 0
      ensures r.Done? || (r.error in {EIO, ENOSYS, EFBIG} && (r.error == EIO ==> Faulty()))
      ensures r != Failed(EIO) ==> (r.Done? <==> CanTruncate(old(State()), old(size), target))
      ensures Touched(old(nodes.Book()), nodes.Book(), 0) && OnlyUnmapped(old(State()), State())
      ensures GivesUp(old(State()), State(), SizeToBlock(target), stop, old(truncated), truncated)
      ensures r.Done? ==> stop == SizeToBlock(old(size))
      ensures r.Failed? ==>
        size == old(size) && cache.Valid() && nodes.Valid() && CutShort(old(State()), State(), target, stop)
    {
      hide Coherent, Tidy, SameBlocks, Writes, Mapped, ByteOf, Unmapped, Cut, UnmappedTo, CutShort, Cached, LpaAt,
        Tree, Books;
      hide Touched, Stocked, OnlyUnmapped, GivesUp;
      TouchedSame(nodes.Book(), 0);
      ghost var s0, given := State(), truncated;
      stop := SizeToBlock(target);
      SameBlocksSelf(s0);
      WritesNothing(s0, target);
      if target % BLOCK_SIZE != 0 {
        r := ZeroTail(target);
        if r.Failed? {
          NotCut(s0, State(), target);
          OnlyUnmappedSame(s0, State());
          NothingGivenUp(s0, State(), stop, given);
          return;
        }
      }
      ghost var s1 := State();
      TailIsZero(s0, s1, target);
      NothingBehind(s1, size);
      SizeToBlockGrows(target, size);
      r, stop := UnmapBlocks(SizeToBlock(target), SizeToBlock(size));
      OnlyUnmappedTo(s0, s1, State(), SizeToBlock(target), stop);
      GivenUp(s0, s1, State(), SizeToBlock(target), stop, given, truncated);
      if r.Failed? {
        CutShortAfter(s0, s1, State(), target, stop);
        return;
      }
      ghost var s2 := State();
      InvalidateCachedPagesFrom(target);
      UnmappedAfter(s1, s2, State(), SizeToBlock(target));
      OnlyUnmappedThen(s0, s2, State());
      GivesUpThen(s0, s2, State(), SizeToBlock(target), stop, given, truncated);
      TruncateShows(s1, State(), size, target);
      size := target;
    }

    /** rtfsFileInodeTruncate. The file has the new size, keeps its bytes below it, and shows zeros
        behind: a file that is shrunk and grown again does not bring back old bytes. Unless an I/O
        error occurs it succeeds exactly if CanTruncate. A failure leaves the size alone; the blocks up
        to stop have lost their LPAs then, and only pages that are still cached show their old bytes.
        In either case the LPAs that were lost, and no others, join those given up for the next commit
        to reclaim. */
    method Truncate(target: nat) returns (r: Result, ghost stop: nat)
      requires Valid()
      modifies this`size, this`truncated, nodes, cache, cache.manager, cache.manager.replacer
      ensures r.Done? ==>
        && Valid() && cache.handles == old(cache.handles) && size == target
        && forall o: nat :: ByteOf(State(), o) == if o < target then ByteOf(old(State()), o) else 0
      ensures target >= old(size) ==> r.Done? && State() == old(State())
      ensures r.Done? || (r.error in {EIO, ENOSYS, EFBIG} && (r.error == EIO ==> Faulty()))
      ensures r != Failed(EIO) ==> (r.Done? <==> CanTruncate(old(State()), old(size), target))
      ensures Touched(old(nodes.Book()), nodes.Book(), 0) && OnlyUnmapped(old(State()), State())
      ensures GivesUp(old(State()), State(), SizeToBlock(target), stop, old(truncated), truncated)
      ensures r.Done? ==> stop == if target < old(size) then SizeToBlock(old(size)) else SizeToBlock(target)
      ensures r.Failed? ==> size == old(size) && target < size && cache.Valid() && nodes.Valid()
      ensures r.Failed? ==> CutShort(old(State()), State(), target, stop)
    {
      hide Coherent, Tidy, ByteOf, CutShort, Cached, LpaAt, Tree, Books, Touched, OnlyUnmapped, GivesUp;
      TouchedSame(nodes.Book(), 0);
      OnlyUnmappedSame(State(), State());
      stop := SizeToBlock(target);
      NothingGivenUp(State(), State(), stop, truncated);
      if target < size {
        r, stop := Shrink(target);
      } else {
        GrowShows(State(), size, target);
        size := target;
        r := Done;
      }
    }
  }

  /** Whether a truncation can succeed: growing always can; shrinking needs every block it unmaps to
      lie below the limit of the tree, and the block it cuts into to lie there or to be cached. */
  ghost predicate CanTruncate(s: FileState, size: nat, target: nat) {
    target >= size || (
      && (target % BLOCK_SIZE == 0 || InReach(s, target / BLOCK_SIZE))
      && (SizeToBlock(target) == SizeToBlock(size) || SizeToBlock(size) <= MAX_BLOCKS))
  }

  /** Blocks may have lost their LPAs; none got another one. */
  ghost predicate OnlyUnmapped(s: FileState, t: FileState) {
    && t.disk == s.disk && t.ino == s.ino
    && forall k: nat :: LpaAt(t, k) == INVALID_LPA || LpaAt(t, k) == LpaAt(s, k)
  }

  lemma OnlyUnmappedSame(s: FileState, t: FileState)
    requires t.nodes == s.nodes && t.ino == s.ino && t.disk == s.disk
    ensures OnlyUnmapped(s, t)
  {
    forall k: nat ensures LpaAt(t, k) == LpaAt(s, k) {}
  }

  lemma OnlyUnmappedTo(s: FileState, s1: FileState, t: FileState, first: nat, stop: nat)
    requires s1.nodes == s.nodes && s1.ino == s.ino && s1.disk == s.disk && t.disk == s.disk && t.ino == s.ino
    requires UnmappedTo(s1, t, first, stop)
    ensures OnlyUnmapped(s, t)
  {
    hide LpaOf;
    forall k: nat
      ensures LpaAt(t, k) == INVALID_LPA || LpaAt(t, k) == LpaAt(s, k) { assert LpaAt(s1, k) == LpaAt(s, k); }
  }

  lemma OnlyUnmappedThen(s: FileState, t: FileState, u: FileState)
    requires OnlyUnmapped(s, t) && u.nodes == t.nodes && u.ino == t.ino && u.disk == t.disk
    ensures OnlyUnmapped(s, u)
  {
    hide LpaOf;
    forall k: nat
      ensures LpaAt(u, k) == INVALID_LPA || LpaAt(u, k) == LpaAt(s, k) { assert LpaAt(u, k) == LpaAt(t, k); }
  }

  /** The blocks from first up to stop are unmapped, the others are as before. */
  ghost predicate UnmappedTo(s: FileState, t: FileState, first: nat, stop: nat) {
    forall k: nat :: LpaAt(t, k) == if first <= k < stop then INVALID_LPA else LpaAt(s, k)
  }

  /** The blocks from first up to stop are unmapped and no others, and the LPAs they had, in order, are
      what is given up besides what was given up before. */
  ghost predicate GivesUp(s: FileState, t: FileState, first: nat, stop: nat, before: seq<U32>, after: seq<U32>) {
    first <= stop && UnmappedTo(s, t, first, stop) && after == before + Mapped(s, first, stop)
  }

  lemma NothingGivenUp(s: FileState, t: FileState, first: nat, given: seq<U32>)
    requires t.nodes == s.nodes && t.ino == s.ino
    ensures GivesUp(s, t, first, first, given, given)
  {
    forall k: nat ensures LpaAt(t, k) == LpaAt(s, k) {}
    assert given == given + Mapped(s, first, first);
  }

  lemma GivenUp(s: FileState, s1: FileState, t: FileState, first: nat, stop: nat, before: seq<U32>, after: seq<U32>)
    requires s1.nodes == s.nodes && s1.ino == s.ino && first <= stop && UnmappedTo(s1, t, first, stop)
    requires after == before + Mapped(s1, first, stop)
    ensures GivesUp(s, t, first, stop, before, after)
  {
    forall k: nat ensures LpaAt(s1, k) == LpaAt(s, k) {}
    hide LpaAt;
    MappedSame(s, s1, first, stop);
  }

  lemma GivesUpThen(s: FileState, t: FileState, u: FileState, first: nat, stop: nat, before: seq<U32>, after: seq<U32>)
    requires GivesUp(s, t, first, stop, before, after) && u.nodes == t.nodes && u.ino == t.ino
    ensures GivesUp(s, u, first, stop, before, after)
  {
    forall k: nat ensures LpaAt(u, k) == LpaAt(t, k) {}
    hide LpaAt, Mapped;
  }

  lemma {:induction false} MappedSame(s: FileState, t: FileState, a: nat, b: nat)
    requires forall k: nat :: LpaAt(t, k) == LpaAt(s, k)
    ensures Mapped(t, a, b) == Mapped(s, a, b)
  {
    hide LpaAt;
    if a < b { MappedSame(s, t, a, b - 1); }
  }

  lemma {:induction false} MappedHas(s: FileState, a: nat, b: nat, l: U32)
    ensures l in Mapped(s, a, b) <==> l != INVALID_LPA && exists k: nat :: a <= k < b && LpaAt(s, k) == l
  {
    hide LpaAt;
    if a < b {
      MappedHas(s, a, b - 1, l);
      assert l in Mapped(s, a, b) <==> l in Mapped(s, a, b - 1) || (l != INVALID_LPA && l == LpaAt(s, b - 1));
    }
  }

  /** A truncation loses no LPA: each one that the file had is still mapped by the same block or given
      up, and what is given up was mapped before and is not any more. */
  lemma TruncationLosesNothing(s: FileState, t: FileState, first: nat, stop: nat, before: seq<U32>, after: seq<U32>)
    requires GivesUp(s, t, first, stop, before, after)
    ensures forall k: nat :: LpaAt(s, k) != INVALID_LPA ==>
      LpaAt(t, k) == LpaAt(s, k) || (LpaAt(t, k) == INVALID_LPA && LpaAt(s, k) in after[|before|..])
    ensures before <= after && forall l :: l in after[|before|..] ==>
      l != INVALID_LPA && exists k: nat :: LpaAt(s, k) == l && LpaAt(t, k) == INVALID_LPA
  {
    hide LpaAt, Mapped;
    assert after[|before|..] == Mapped(s, first, stop);
    forall k: nat | LpaAt(s, k) != INVALID_LPA && first <= k < stop ensures LpaAt(s, k) in Mapped(s, first, stop) {
      MappedHas(s, first, stop, LpaAt(s, k));
    }
    forall l | l in Mapped(s, first, stop)
      ensures l != INVALID_LPA && exists k: nat :: LpaAt(s, k) == l && LpaAt(t, k) == INVALID_LPA
    {
      MappedHas(s, first, stop, l);
    }
  }

  lemma UnmappedNone(s: FileState, first: nat)
    ensures UnmappedTo(s, s, first, first)
  {
  }

  lemma UnmappedMore(s: FileState, t: FileState, u: FileState, first: nat, i: nat, done: bool)
    requires UnmappedTo(s, t, first, i) && first <= i
    requires forall k: nat :: LpaAt(u, k) == if k == i && done then INVALID_LPA else LpaAt(t, k)
    ensures LpaAt(t, i) == LpaAt(s, i) && UnmappedTo(s, u, first, if done then i + 1 else i)
  {
    hide LpaAt;
  }

  lemma UnmappedAll(s: FileState, t: FileState, first: nat, end: nat)
    requires UnmappedTo(s, t, first, end) && forall k: nat :: k >= end ==> LpaAt(s, k) == INVALID_LPA
    ensures Unmapped(s, t, first)
  {
    hide LpaAt;
  }

  /** What a truncation that failed has left of s: the bytes before the target; behind it, up to the end
      of its block, old bytes or zeros; of every later block what is cached, and else zeros if the block
      has lost its LPA and the old block if not. */
  ghost predicate CutShort(s: FileState, t: FileState, target: nat, stop: nat) {
    var first := SizeToBlock(target);
    && UnmappedTo(s, t, first, stop)
    && (forall o: nat :: o < target ==> ByteOf(t, o) == ByteOf(s, o))
    && (forall o: nat :: target <= o < first * BLOCK_SIZE ==> ByteOf(t, o) == ByteOf(s, o) || ByteOf(t, o) == 0)
    && forall k: nat :: k >= first ==> BlockOf(t, k) == if Cached(t, k) || k >= stop then BlockOf(s, k) else ZeroBlock()
  }

  lemma NotCut(s: FileState, t: FileState, target: nat)
    requires SameBlocks(s, t) && t.nodes == s.nodes && t.ino == s.ino
    ensures CutShort(s, t, target, SizeToBlock(target))
  {
    SameBlocksSameBytes(s, t);
    assert forall k: nat :: LpaAt(t, k) == LpaAt(s, k);
  }

  lemma CutShortAfter(s: FileState, s1: FileState, t: FileState, target: nat, stop: nat)
    requires if target % BLOCK_SIZE == 0 then s1 == s
      else Writes(s, s1, target, Zeros(BLOCK_SIZE - target % BLOCK_SIZE))
    requires s1.nodes == s.nodes && s1.ino == s.ino && s1.disk == s.disk && t == s1.(nodes := t.nodes)
    requires UnmappedTo(s1, t, SizeToBlock(target), stop) && stop >= SizeToBlock(target)
    ensures CutShort(s, t, target, stop)
  {
    TailIsZero(s, s1, target);
    hide LpaOf;
    var first := SizeToBlock(target);
    forall k: nat ensures LpaAt(t, k) == if first <= k < stop then INVALID_LPA else LpaAt(s, k) {
      assert LpaAt(s1, k) == LpaAt(s, k);
    }
    forall k: nat
      ensures BlockOf(t, k) == if Cached(t, k) || !(first <= k < stop) then BlockOf(s1, k) else ZeroBlock() {
      assert LpaAt(t, k) == if first <= k < stop then INVALID_LPA else LpaAt(s1, k);
    }
    forall k: nat | k >= first ensures BlockOf(s1, k) == BlockOf(s, k) { SameBlockBehind(s, s1, target, k); }
  }

  lemma SameBlockBehind(s: FileState, t: FileState, target: nat, k: nat)
    requires if target % BLOCK_SIZE == 0 then t == s else Writes(s, t, target, Zeros(BLOCK_SIZE - target % BLOCK_SIZE))
    requires k >= SizeToBlock(target)
    ensures BlockOf(t, k) == BlockOf(s, k)
  {
    forall i | 0 <= i < BLOCK_SIZE ensures BlockOf(t, k)[i] == BlockOf(s, k)[i] {
      ByteIn(s, k, i);
      ByteIn(t, k, i);
      assert ByteOf(t, k * BLOCK_SIZE + i) == ByteOf(s, k * BLOCK_SIZE + i);
    }
  }

  lemma ByteIn(s: FileState, k: nat, i: nat)
    requires i < BLOCK_SIZE
    ensures ByteOf(s, k * BLOCK_SIZE + i) == BlockOf(s, k)[i]
  {
    assert (k * BLOCK_SIZE + i) / BLOCK_SIZE == k && (k * BLOCK_SIZE + i) % BLOCK_SIZE == i;
  }

  /** After a failed truncation the eviction of a page that nobody changed can be seen: the page shows its
      old contents as long as it is cached, and zeros afterwards. So such a file is no flat array. */
  lemma EvictionShowsAfterFailure(s: FileState, t: FileState, target: nat, stop: nat, k: U32)
    requires CutShort(s, t, target, stop) && SizeToBlock(target) <= k < stop && k in t.index && t.index[k].ready
    ensures BlockOf(t, k) == BlockOf(s, k) && BlockOf(t.(index := t.index - {k}), k) == ZeroBlock()
  {
    var u := t.(index := t.index - {k});
    assert LpaAt(u, k) == LpaAt(t, k);
  }

  /** A file that has been grown past the limit of the tree cannot be emptied any more. */
  method ShrinkPastTheLimitFails(f: FileObject) returns (r: Result)
    requires f.Valid() && f.size <= BLOCK_SIZE * (MAX_BLOCKS + 1)
    modifies f`size, f`truncated, f.nodes, f.cache, f.cache.manager, f.cache.manager.replacer
    ensures r.Failed? && f.size == BLOCK_SIZE * (MAX_BLOCKS + 1)
  {
    hide FileObject.Valid, CutShort, ByteOf;
    var grown, _ := f.Truncate(BLOCK_SIZE * (MAX_BLOCKS + 1));
    ghost var stop;
    r, stop := f.Truncate(0);
  }

  /** The failing read: behind the limit of the tree a file that has been grown there is a hole, but
      reading it fails although no device fault occurs. */
  method ReadPastTheLimitFails(f: FileObject) returns (r: Result, bytes: seq<Byte>)
    requires f.Valid() && f.size <= BLOCK_SIZE * MAX_BLOCKS
    modifies f`size, f`truncated, f.nodes, f.cache, f.cache.manager, f.cache.manager.replacer
    ensures f.Valid() && f.size == BLOCK_SIZE * (MAX_BLOCKS + 1) && r == Failed(ENOSYS) && bytes == []
  {
    NothingCachedBehind(f.State(), f.size);
    hide FileObject.Valid, CutShort, ByteOf, Reads, InReach, AllInReach;
    ghost var s := f.State();
    var grown, _ := f.Truncate(BLOCK_SIZE * (MAX_BLOCKS + 1));
    var offset := BLOCK_SIZE * MAX_BLOCKS;
    assert offset / BLOCK_SIZE == MAX_BLOCKS && !InReach(s, MAX_BLOCKS);
    r, bytes := f.Read(offset, 1);
    FirstInReach(s, offset, |bytes|);
  }

  /** Below the limit of the tree a file has no pages behind it. */
  lemma NothingCachedBehind(s: FileState, size: nat)
    requires Coherent(s) && Tidy(s, size) && size <= BLOCK_SIZE * MAX_BLOCKS
    ensures forall k: nat :: InReach(s, k) <==> k < MAX_BLOCKS
  {
    forall k: nat | Cached(s, k) ensures k < MAX_BLOCKS {
      assert PageCoherent(s, k);
      SizeToBlockGrows(size, BLOCK_SIZE * MAX_BLOCKS);
    }
  }

  lemma GrowShows(s: FileState, size: nat, target: nat)
    requires Tidy(s, size) && target >= size
    ensures Tidy(s, target) && forall o: nat :: ByteOf(s, o) == if o < target then ByteOf(s, o) else 0
  {
    hide ByteOf, LpaAt;
    SizeToBlockGrows(size, target);
  }

  lemma SizeToBlockGrows(a: nat, b: nat)
    requires a <= b
    ensures SizeToBlock(a) <= SizeToBlock(b)
  {
  }

  lemma NothingBehind(s: FileState, size: nat)
    requires Tidy(s, size)
    ensures forall k: nat :: k >= SizeToBlock(size) ==> LpaAt(s, k) == INVALID_LPA
  {
  }

  /** With the tail of its block written over, a file is zero from the target to the end of the block. */
  lemma TailIsZero(s: FileState, t: FileState, target: nat)
    requires if target % BLOCK_SIZE == 0 then t == s else Writes(s, t, target, Zeros(BLOCK_SIZE - target % BLOCK_SIZE))
    ensures forall o: nat :: o < target ==> ByteOf(t, o) == ByteOf(s, o)
    ensures forall o: nat :: target <= o < SizeToBlock(target) * BLOCK_SIZE ==> ByteOf(t, o) == 0
  {
    hide ByteOf;
  }

  /** The dirty flag and the dirty set agree. */
  lemma DirtyBelow(index: Index, pinned: set<U32>, dirty: set<U32>, handles: multiset<U32>)
    requires Books(index, pinned, dirty, handles)
    ensures forall k :: k in index && index[k].dirty ==> k in dirty
  {
    forall k | k in index && index[k].dirty ensures k in dirty { assert Counted(index[k], k, pinned, dirty, handles); }
  }

  const MAX_U64: nat := 0xffff_ffff_ffff_ffff

  function Max(a: nat, b: nat): nat {
    if a >= b then a else b
  }

  lemma ReadyKnowsLpa(s: FileState, k: U32)
    requires Coherent(s) && k in s.index && s.index[k].ready
    ensures s.index[k].lpa == LpaAt(s, k)
  {
    assert PageCoherent(s, k);
  }

  lemma BehindEnd(s: FileState, size: nat, k: nat)
    requires Tidy(s, size) && k >= SizeToBlock(size)
    ensures LpaAt(s, k) == INVALID_LPA
  {
  }

  lemma NotDirty(s: FileState, k: U32)
    requires Coherent(s) && k in s.index && !s.index[k].ready
    ensures !s.index[k].dirty
  {
    assert PageCoherent(s, k);
  }

  /** How much of the file a read can return. */
  function Readable(size: nat, offset: nat, count: nat): nat {
    if offset >= size then 0 else Min(count, size - offset)
  }

  function Min(a: nat, b: nat): nat {
    if a <= b then a else b
  }

  lemma SameBlocksSelf(s: FileState)
    ensures SameBlocks(s, s)
  {
  }

  lemma ReadsNothing(s: FileState, off: nat)
    ensures Reads(s, off, [])
  {
  }

  lemma CachedShows(s: FileState, t: FileState, k: U32)
    requires SameBlocks(s, t) && k in t.index && t.index[k].ready
    ensures t.index[k].data == BlockOf(s, k)
  {
    assert BlockOf(t, k) == BlockOf(s, k);
  }

  lemma LpaOnDisk(s: FileState, k: U32, lpa: U32)
    requires Coherent(s) && k < MAX_BLOCKS && lpa == LpaOf(s.nodes, s.ino, k) && lpa != INVALID_LPA
    ensures lpa < |s.disk| && lpa == LpaAt(s, k) && Stored(s, k) == s.disk[lpa]
  {
  }
}
