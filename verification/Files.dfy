/** Files as byte arrays over a bitmap allocator (fs.c): what is on disk, and what it stands for.
    `store` is what bread returns for each block, which is what log_write has been given last. */
module Files {
  import opened Blocks

  const NDIRECT: nat := 11
  const NINDIRECT: nat := 128      // BSIZE / sizeof(uint)
  const MAXFILE: nat := 139        // NDIRECT + NINDIRECT
  const BPB: nat := 4096           // bitmap bits per block
  const SLOTS: nat := 140          // the 12 entries of addrs, then the entries of the indirect block

  datatype Super = Super(size: nat, bmapstart: nat, dataStart: nat)
  datatype Inode = Inode(addrs: seq<nat>, size: nat)

  // The bitmap covers all blocks and lies, with the other metadata, below the data area.
  predicate SuperOk(sb: Super, store: Disk) {
    && 0 < sb.size <= |store| < WORD_LIMIT
    && 0 < sb.dataStart <= sb.size
    && sb.bmapstart + (sb.size - 1) / BPB < sb.dataStart
  }

  predicate DataBlock(sb: Super, b: nat) {
    sb.dataStart <= b < sb.size
  }

  // ----- bits

  // Bit k of x, counting from the least significant.
  predicate HasBit(x: nat, k: nat) {
    if k == 0 then x % 2 == 1 else HasBit(x / 2, k - 1)
  }

  // x with bit k set, as by x |= 1 << k.
  function WithBit(x: nat, k: nat): nat {
    if k == 0 then x - x % 2 + 1 else x % 2 + 2 * WithBit(x / 2, k - 1)
  }

  // x with bit k clear, as by x &= ~(1 << k).
  function WithoutBit(x: nat, k: nat): nat {
    if k == 0 then x - x % 2 else x % 2 + 2 * WithoutBit(x / 2, k - 1)
  }

  function Pow2(k: nat): nat {
    if k == 0 then 1 else 2 * Pow2(k - 1)
  }

  lemma {:induction false} BitsFit(x: nat, k: nat, w: nat)
    requires k < w && x < Pow2(w)
    ensures WithBit(x, k) < Pow2(w) && WithoutBit(x, k) < Pow2(w)
  {
    var p := Pow2(w - 1);
    assert Pow2(w) == 2 * p;
    assert x / 2 < p && x - x % 2 == 2 * (x / 2);
    if k > 0 {
      BitsFit(x / 2, k - 1, w - 1);
      var y, z := WithBit(x / 2, k - 1), WithoutBit(x / 2, k - 1);
      assert y < p && z < p && x % 2 < 2;
      assert WithBit(x, k) == x % 2 + 2 * y && WithoutBit(x, k) == x % 2 + 2 * z;
    }
  }

  lemma {:induction false} BitsAfter(x: nat, k: nat, j: nat)
    ensures HasBit(WithBit(x, k), j) <==> j == k || HasBit(x, j)
    ensures HasBit(WithoutBit(x, k), j) <==> j != k && HasBit(x, j)
  {
    if k > 0 && j > 0 {
      BitsAfter(x / 2, k - 1, j - 1);
      assert WithBit(x, k) / 2 == WithBit(x / 2, k - 1) && WithoutBit(x, k) / 2 == WithoutBit(x / 2, k - 1);
    } else if j > 0 {
      assert WithBit(x, 0) / 2 == x / 2 && WithoutBit(x, 0) / 2 == x / 2;
    }
  }

  function OrBit(x: Byte, k: nat): Byte
    requires k < 8
  {
    BitsFit(x, k, 8);
    assert Pow2(8) == 2 * 2 * 2 * 2 * Pow2(4) == 256;
    WithBit(x, k)
  }

  function ClearBit(x: Byte, k: nat): Byte
    requires k < 8
  {
    BitsFit(x, k, 8);
    assert Pow2(8) == 2 * 2 * 2 * 2 * Pow2(4) == 256;
    WithoutBit(x, k)
  }

  // ----- the bitmap

  function BitmapBlock(sb: Super, b: nat): nat {
    b / BPB + sb.bmapstart
  }

  function BitmapByte(b: nat): (i: nat)
    ensures i < BSIZE
  {
    b % BPB / 8
  }

  predicate Marked(sb: Super, store: Disk, b: nat)
    requires SuperOk(sb, store) && b < sb.size
  {
    BitmapInside(sb, store, b);
    HasBit(store[BitmapBlock(sb, b)][BitmapByte(b)], b % BPB % 8)
  }

  lemma BitmapInside(sb: Super, store: Disk, b: nat)
    requires SuperOk(sb, store) && b < sb.size
    ensures BitmapBlock(sb, b) < sb.dataStart
  {
  }

  // The store with block b's bit set or cleared.
  function WithMark(sb: Super, store: Disk, b: nat, used: bool): (store': Disk)
    requires SuperOk(sb, store) && b < sb.size
    ensures |store'| == |store|
  {
    BitmapInside(sb, store, b);
    var k, i := BitmapBlock(sb, b), BitmapByte(b);
    var x := store[k][i];
    store[k := store[k][i := if used then OrBit(x, b % BPB % 8) else ClearBit(x, b % BPB % 8)]]
  }

  lemma MarkedAfter(sb: Super, store: Disk, b: nat, used: bool, c: nat)
    requires SuperOk(sb, store) && b < sb.size && c < sb.size
    ensures Marked(sb, WithMark(sb, store, b, used), c) == if c == b then used else Marked(sb, store, c)
  {
    BitmapInside(sb, store, b);
    BitmapInside(sb, store, c);
    BitsAfter(store[BitmapBlock(sb, b)][BitmapByte(b)], b % BPB % 8, c % BPB % 8);
    SameBit(b, c);
  }

  lemma SameBit(b: nat, c: nat)
    ensures b / BPB == c / BPB && BitmapByte(b) == BitmapByte(c) && b % BPB % 8 == c % BPB % 8 ==> b == c
  {
  }

  // ----- the blocks of an inode

  predicate InodeOk(store: Disk, ip: Inode) {
    && |ip.addrs| == NDIRECT + 1
    && (forall k :: 0 <= k <= NDIRECT ==> ip.addrs[k] < |store|)
  }

  // What slot t of an inode names, 0 for nothing: slots 0 to 11 are addrs, the rest the indirect block's entries.
  function Slot(store: Disk, ip: Inode, t: nat): nat
    requires InodeOk(store, ip) && t < SLOTS
  {
    if t <= NDIRECT then ip.addrs[t]
    else if ip.addrs[NDIRECT] == 0 then 0
    else Word(store[ip.addrs[NDIRECT]], t - NDIRECT - 1)
  }

  // The slot of the n-th block of a file.
  function FileSlot(n: nat): (t: nat)
    requires n < MAXFILE
    ensures t < SLOTS && t != NDIRECT
  {
    if n < NDIRECT then n else n + 1
  }

  // ----- the whole file system

  ghost predicate SlotsOk(sb: Super, store: Disk, inodes: seq<Inode>)
    requires SuperOk(sb, store)
  {
    && (forall i :: 0 <= i < |inodes| ==> InodeOk(store, inodes[i]))
    // every block an inode owns is a data block marked in the bitmap
    && (forall i, t {:trigger Slot(store, inodes[i], t)} ::
          0 <= i < |inodes| && 0 <= t < SLOTS && Slot(store, inodes[i], t) != 0 ==>
          DataBlock(sb, Slot(store, inodes[i], t)) && Marked(sb, store, Slot(store, inodes[i], t)))
    // and is owned once
    && (forall i, t, j, u {:trigger Slot(store, inodes[i], t), Slot(store, inodes[j], u)} ::
          0 <= i < |inodes| && 0 <= t < SLOTS && 0 <= j < |inodes| && 0 <= u < SLOTS ==>
          Slot(store, inodes[i], t) == Slot(store, inodes[j], u) != 0 ==> i == j && t == u)
  }

  ghost predicate MetadataMarked(sb: Super, store: Disk)
    requires SuperOk(sb, store)
  {
    forall b: nat :: b < sb.dataStart ==> Marked(sb, store, b)
  }

  // No holes: every block below the size is there.
  ghost predicate Covered(store: Disk, ip: Inode)
    requires InodeOk(store, ip)
  {
    && ip.size <= MAXFILE * BSIZE
    && (forall n {:trigger FileSlot(n)} :: 0 <= n < MAXFILE && n * BSIZE < ip.size ==>
          Slot(store, ip, FileSlot(n)) != 0)
  }

  ghost predicate FsOk(sb: Super, store: Disk, inodes: seq<Inode>) {
    && SuperOk(sb, store)
    && SlotsOk(sb, store, inodes)
    && MetadataMarked(sb, store)
    && (forall i :: 0 <= i < |inodes| ==> Covered(store, inodes[i]))
  }

  // The bytes of a file.
  ghost function ByteAt(store: Disk, ip: Inode, k: nat): Byte
    requires InodeOk(store, ip) && k < MAXFILE * BSIZE
    requires Slot(store, ip, FileSlot(k / BSIZE)) < |store|
  {
    store[Slot(store, ip, FileSlot(k / BSIZE))][k % BSIZE]
  }

  ghost function Content(sb: Super, store: Disk, inodes: seq<Inode>, i: nat): (c: seq<Byte>)
    requires FsOk(sb, store, inodes) && i < |inodes|
    ensures |c| == inodes[i].size
  {
    seq(inodes[i].size, k requires 0 <= k < inodes[i].size =>
      SlotInside(sb, store, inodes, i, FileSlot(k / BSIZE));
      ByteAt(store, inodes[i], k))
  }

  lemma SlotInside(sb: Super, store: Disk, inodes: seq<Inode>, i: nat, t: nat)
    requires SuperOk(sb, store) && SlotsOk(sb, store, inodes) && i < |inodes| && t < SLOTS
    ensures Slot(store, inodes[i], t) < |store|
  {
  }

  // ----- what one step keeps

  ghost predicate Owns(store: Disk, inodes: seq<Inode>, b: nat)
    requires forall i :: 0 <= i < |inodes| ==> InodeOk(store, inodes[i])
  {
    exists i, t :: 0 <= i < |inodes| && 0 <= t < SLOTS && Slot(store, inodes[i], t) == b
  }

  // The two stores hold the same in every block some inode owns.
  ghost predicate SameOwned(store: Disk, store': Disk, inodes: seq<Inode>)
    requires forall i :: 0 <= i < |inodes| ==> InodeOk(store, inodes[i])
  {
    && |store'| == |store|
    && (forall i, t {:trigger Slot(store, inodes[i], t)} ::
          0 <= i < |inodes| && 0 <= t < SLOTS && Slot(store, inodes[i], t) != 0 ==>
          Slot(store, inodes[i], t) < |store| && store'[Slot(store, inodes[i], t)] == store[Slot(store, inodes[i], t)])
  }

  lemma SameSlots(store: Disk, store': Disk, inodes: seq<Inode>, i: nat, t: nat)
    requires forall i :: 0 <= i < |inodes| ==> InodeOk(store, inodes[i])
    requires SameOwned(store, store', inodes) && i < |inodes| && t < SLOTS
    ensures InodeOk(store', inodes[i]) && Slot(store', inodes[i], t) == Slot(store, inodes[i], t)
  {
    assert Slot(store, inodes[i], NDIRECT) == inodes[i].addrs[NDIRECT];
  }

  // balloc's effect: the block was free, so nobody owned it, and no file changes.
  lemma AllocKeeps(sb: Super, store: Disk, inodes: seq<Inode>, a: nat)
    requires FsOk(sb, store, inodes) && a < sb.size && !Marked(sb, store, a)
    ensures DataBlock(sb, a) && !Owns(store, inodes, a)
    ensures var store' := WithMark(sb, store, a, true)[a := ZeroBlock()];
            FsOk(sb, store', inodes) && SameOwned(store, store', inodes) && !Owns(store', inodes, a)
            && Marked(sb, store', a)
  {
    var store1 := WithMark(sb, store, a, true);
    var store' := store1[a := ZeroBlock()];
    assert DataBlock(sb, a);
    BitmapInside(sb, store, a);
    assert SameOwned(store, store', inodes);
    forall i, t | 0 <= i < |inodes| && 0 <= t < SLOTS
      ensures InodeOk(store', inodes[i]) && Slot(store', inodes[i], t) == Slot(store, inodes[i], t)
    {
      SameSlots(store, store', inodes, i, t);
    }
    forall b: nat | b < sb.size
      ensures Marked(sb, store', b) == (b == a || Marked(sb, store, b))
    {
      MarkedAfter(sb, store, a, true, b);
      BitmapInside(sb, store', b);
    }
  }

  // The file system with slot t of inode i naming block a.
  function WithSlot(store: Disk, inodes: seq<Inode>, i: nat, t: nat, a: nat): (r: (Disk, seq<Inode>))
    requires i < |inodes| && InodeOk(store, inodes[i]) && t < SLOTS && a < |store| < WORD_LIMIT
    requires t > NDIRECT ==> inodes[i].addrs[NDIRECT] != 0
  {
    var ip := inodes[i];
    if t <= NDIRECT then (store, inodes[i := ip.(addrs := ip.addrs[t := a])])
    else (store[ip.addrs[NDIRECT] := WithWord(store[ip.addrs[NDIRECT]], t - NDIRECT - 1, a)], inodes)
  }

  // a may be put in the empty slot t of inode i.
  ghost predicate MayFill(sb: Super, store: Disk, inodes: seq<Inode>, i: nat, t: nat, a: nat) {
    && FsOk(sb, store, inodes) && i < |inodes| && t < SLOTS && Slot(store, inodes[i], t) == 0
    && (t > NDIRECT ==> inodes[i].addrs[NDIRECT] != 0)
    && a < sb.size && DataBlock(sb, a) && Marked(sb, store, a) && !Owns(store, inodes, a)
    && (t == NDIRECT ==> store[a] == ZeroBlock())
  }

  lemma FillSlots(sb: Super, store: Disk, inodes: seq<Inode>, i: nat, t: nat, a: nat, j: nat, u: nat)
    requires MayFill(sb, store, inodes, i, t, a) && j < |inodes| && u < SLOTS
    ensures var (store', inodes') := WithSlot(store, inodes, i, t, a);
            && |store'| == |store| && |inodes'| == |inodes| && InodeOk(store', inodes'[j])
            && Slot(store', inodes'[j], u) == if j == i && u == t then a else Slot(store, inodes[j], u)
  {
    var (store', inodes') := WithSlot(store, inodes, i, t, a);
    assert Slot(store, inodes[j], NDIRECT) == inodes[j].addrs[NDIRECT];
    assert Slot(store, inodes[i], NDIRECT) == inodes[i].addrs[NDIRECT];
    if t > NDIRECT {
      if u > NDIRECT {
        WordOfWithWord(store[inodes[i].addrs[NDIRECT]], t - NDIRECT - 1, a, u - NDIRECT - 1);
      }
    } else if t == NDIRECT && j == i && u > NDIRECT {
      ZeroBlockWords(u - NDIRECT - 1);
    }
  }

  lemma FillKeepsSlots(sb: Super, store: Disk, inodes: seq<Inode>, i: nat, t: nat, a: nat)
    requires MayFill(sb, store, inodes, i, t, a)
    ensures var (store', inodes') := WithSlot(store, inodes, i, t, a);
            SuperOk(sb, store') && SlotsOk(sb, store', inodes') && MetadataMarked(sb, store')
  {
    var (store', inodes') := WithSlot(store, inodes, i, t, a);
    assert Slot(store, inodes[i], NDIRECT) == inodes[i].addrs[NDIRECT];
    forall b: nat | b < sb.size
      ensures Marked(sb, store', b) == Marked(sb, store, b)
    {
      BitmapInside(sb, store, b);
    }
    forall j | 0 <= j < |inodes'|
      ensures InodeOk(store', inodes'[j])
    {
      FillSlots(sb, store, inodes, i, t, a, j, 0);
    }
    forall j, u | 0 <= j < |inodes'| && 0 <= u < SLOTS
      ensures Slot(store', inodes'[j], u) == if j == i && u == t then a else Slot(store, inodes[j], u)
    {
      FillSlots(sb, store, inodes, i, t, a, j, u);
    }
  }

  lemma FillKeeps(sb: Super, store: Disk, inodes: seq<Inode>, i: nat, t: nat, a: nat)
    requires MayFill(sb, store, inodes, i, t, a)
    ensures var (store', inodes') := WithSlot(store, inodes, i, t, a);
            FsOk(sb, store', inodes')
  {
    var (store', inodes') := WithSlot(store, inodes, i, t, a);
    FillKeepsSlots(sb, store, inodes, i, t, a);
    forall j | 0 <= j < |inodes'|
      ensures Covered(store', inodes'[j])
    {
      assert Covered(store, inodes[j]);
      forall n | 0 <= n < MAXFILE && n * BSIZE < inodes'[j].size
        ensures Slot(store', inodes'[j], FileSlot(n)) != 0
      {
        FillSlots(sb, store, inodes, i, t, a, j, FileSlot(n));
      }
    }
  }

  // A block of a file is overwritten: only that file's bytes in that block change.
  lemma OverwriteKeeps(sb: Super, store: Disk, inodes: seq<Inode>, i: nat, n: nat, data: Block)
    requires FsOk(sb, store, inodes) && i < |inodes| && n < MAXFILE && Slot(store, inodes[i], FileSlot(n)) != 0
    ensures var d := Slot(store, inodes[i], FileSlot(n));
            && d < |store|
            && FsOk(sb, store[d := data], inodes)
            && (forall j, t {:trigger Slot(store, inodes[j], t)} :: 0 <= j < |inodes| && 0 <= t < SLOTS ==>
                  Slot(store[d := data], inodes[j], t) == Slot(store, inodes[j], t))
            && (forall j :: 0 <= j < |inodes| && j != i ==>
                  Content(sb, store[d := data], inodes, j) == Content(sb, store, inodes, j))
  {
    var d := Slot(store, inodes[i], FileSlot(n));
    var store' := store[d := data];
    forall j, t | 0 <= j < |inodes| && 0 <= t < SLOTS
      ensures InodeOk(store', inodes[j]) && Slot(store', inodes[j], t) == Slot(store, inodes[j], t)
    {
      assert Slot(store, inodes[j], NDIRECT) == inodes[j].addrs[NDIRECT];
    }
    forall b: nat | b < sb.size
      ensures Marked(sb, store', b) == Marked(sb, store, b)
    {
      BitmapInside(sb, store, b);
    }
    forall j | 0 <= j < |inodes|
      ensures Covered(store', inodes[j])
    {
      assert Covered(store, inodes[j]);
    }
    forall j | 0 <= j < |inodes| && j != i
      ensures Content(sb, store', inodes, j) == Content(sb, store, inodes, j)
    {
      forall k | 0 <= k < inodes[j].size
        ensures Content(sb, store', inodes, j)[k] == Content(sb, store, inodes, j)[k]
      {
        assert Slot(store, inodes[j], FileSlot(k / BSIZE)) != d;
      }
    }
  }

  // Every block the file already has stays in place with its contents.
  ghost predicate KeepsMapped(store: Disk, ip: Inode, store': Disk, ip': Inode)
    requires InodeOk(store, ip) && InodeOk(store', ip')
  {
    && |store'| == |store| && ip'.size == ip.size
    && forall n {:trigger FileSlot(n)} :: 0 <= n < MAXFILE && Slot(store, ip, FileSlot(n)) != 0 ==>
         && Slot(store', ip', FileSlot(n)) == Slot(store, ip, FileSlot(n)) < |store|
         && store'[Slot(store, ip, FileSlot(n))] == store[Slot(store, ip, FileSlot(n))]
  }

  // The same for every file.
  ghost predicate KeepsFiles(store: Disk, inodes: seq<Inode>, store': Disk, inodes': seq<Inode>) {
    && |inodes'| == |inodes|
    && (forall j :: 0 <= j < |inodes| ==>
          InodeOk(store, inodes[j]) && InodeOk(store', inodes'[j]) && KeepsMapped(store, inodes[j], store', inodes'[j]))
  }

  lemma KeepsFilesContent(sb: Super, store: Disk, inodes: seq<Inode>, store': Disk, inodes': seq<Inode>, j: nat)
    requires FsOk(sb, store, inodes) && FsOk(sb, store', inodes') && KeepsFiles(store, inodes, store', inodes')
    requires j < |inodes|
    ensures Content(sb, store', inodes', j) == Content(sb, store, inodes, j)
  {
    forall k | 0 <= k < inodes[j].size
      ensures Content(sb, store', inodes', j)[k] == Content(sb, store, inodes, j)[k]
    {
      var n := k / BSIZE;
      assert Covered(store, inodes[j]);
      assert Slot(store, inodes[j], FileSlot(n)) != 0;
    }
  }

  lemma AllocKeepsFiles(sb: Super, store: Disk, inodes: seq<Inode>, a: nat)
    requires FsOk(sb, store, inodes) && a < sb.size && !Marked(sb, store, a)
    ensures KeepsFiles(store, inodes, WithMark(sb, store, a, true)[a := ZeroBlock()], inodes)
  {
    var store' := WithMark(sb, store, a, true)[a := ZeroBlock()];
    AllocKeeps(sb, store, inodes, a);
    forall j, n | 0 <= j < |inodes| && 0 <= n < MAXFILE
      ensures InodeOk(store', inodes[j]) && Slot(store', inodes[j], FileSlot(n)) == Slot(store, inodes[j], FileSlot(n))
    {
      SameSlots(store, store', inodes, j, FileSlot(n));
    }
  }

  lemma FillKeepsFiles(sb: Super, store: Disk, inodes: seq<Inode>, i: nat, t: nat, a: nat)
    requires MayFill(sb, store, inodes, i, t, a)
    ensures var (store', inodes') := WithSlot(store, inodes, i, t, a);
            KeepsFiles(store, inodes, store', inodes')
  {
    var (store', inodes') := WithSlot(store, inodes, i, t, a);
    forall j | 0 <= j < |inodes|
      ensures InodeOk(store, inodes[j]) && InodeOk(store', inodes'[j])
      ensures KeepsMapped(store, inodes[j], store', inodes'[j])
    {
      FillSlots(sb, store, inodes, i, t, a, j, 0);
      forall n | 0 <= n < MAXFILE && Slot(store, inodes[j], FileSlot(n)) != 0
        ensures Slot(store', inodes'[j], FileSlot(n)) == Slot(store, inodes[j], FileSlot(n)) < |store|
        ensures store'[Slot(store, inodes[j], FileSlot(n))] == store[Slot(store, inodes[j], FileSlot(n))]
      {
        FillSlots(sb, store, inodes, i, t, a, j, FileSlot(n));
        assert Slot(store, inodes[i], NDIRECT) == inodes[i].addrs[NDIRECT];
      }
    }
  }

  lemma KeepsFilesTransitive(s1: Disk, i1: seq<Inode>, s2: Disk, i2: seq<Inode>, s3: Disk, i3: seq<Inode>)
    requires KeepsFiles(s1, i1, s2, i2) && KeepsFiles(s2, i2, s3, i3)
    ensures KeepsFiles(s1, i1, s3, i3)
  {
    forall j | 0 <= j < |i1|
      ensures KeepsMapped(s1, i1[j], s3, i3[j])
    {
      assert KeepsMapped(s1, i1[j], s2, i2[j]) && KeepsMapped(s2, i2[j], s3, i3[j]);
    }
  }

  // The file with src laid over it from off on, growing as needed.
  function Overlay(c: seq<Byte>, off: nat, src: seq<Byte>): seq<Byte>
    requires off <= |c|
  {
    c[..off] + src + if off + |src| < |c| then c[off + |src|..] else []
  }

  // What was written is read back, and two writes that touch at their ends are one write.
  lemma OverlayReadsBack(c: seq<Byte>, off: nat, src: seq<Byte>, more: seq<Byte>)
    requires off <= |c|
    ensures Overlay(c, off, src)[off..off + |src|] == src
    ensures Overlay(Overlay(c, off, src), off + |src|, more) == Overlay(c, off, src + more)
  {
    var one := Overlay(c, off, src);
    var two := Overlay(one, off + |src|, more);
    assert one[..off + |src|] == c[..off] + src;
    if off + |src| + |more| < |c| {
      assert one[off + |src| + |more|..] == c[off + |src| + |more|..];
    }
    assert c[..off] + src + more == c[..off] + (src + more);
  }

  function Min(a: nat, b: nat): nat {
    if a < b then a else b
  }

  // Byte k of the file's blocks, whether or not k is below its size.
  ghost predicate HasByte(store: Disk, ip: Inode, k: nat, x: Byte)
    requires InodeOk(store, ip)
  {
    && k < MAXFILE * BSIZE
    && Slot(store, ip, FileSlot(k / BSIZE)) != 0 && Slot(store, ip, FileSlot(k / BSIZE)) < |store|
    && ByteAt(store, ip, k) == x
  }

  // Byte k after the first tot bytes of src have been laid over c from off on.
  function LaidAt(c: seq<Byte>, off: nat, src: seq<Byte>, tot: nat, k: nat): Byte
    requires off <= |c| && tot <= |src| && (k < |c| || k < off + tot)
  {
    if off <= k < off + tot then src[k - off] else c[k]
  }

  // writei after tot bytes: they are in place from off on, and every other byte of the old contents is still there.
  ghost predicate Laid(store: Disk, ip: Inode, c: seq<Byte>, off: nat, src: seq<Byte>, tot: nat)
    requires InodeOk(store, ip)
  {
    && tot <= |src| && ip.size == |c| && off <= |c|
    && (forall k: nat {:trigger LaidAt(c, off, src, tot, k)} :: k < |c| || k < off + tot ==>
          HasByte(store, ip, k, LaidAt(c, off, src, tot, k)))
  }

  lemma LaidStart(sb: Super, store: Disk, inodes: seq<Inode>, i: nat, off: nat, src: seq<Byte>)
    requires FsOk(sb, store, inodes) && i < |inodes| && off <= inodes[i].size
    ensures Laid(store, inodes[i], Content(sb, store, inodes, i), off, src, 0)
  {
    var c := Content(sb, store, inodes, i);
    assert Covered(store, inodes[i]);
    forall k | 0 <= k < |c|
      ensures HasByte(store, inodes[i], k, c[k])
    {
      SlotInside(sb, store, inodes, i, FileSlot(k / BSIZE));
    }
  }

  lemma LaidKept(store: Disk, ip: Inode, store': Disk, ip': Inode, c: seq<Byte>, off: nat, src: seq<Byte>, tot: nat)
    requires InodeOk(store, ip) && InodeOk(store', ip') && KeepsMapped(store, ip, store', ip')
    requires Laid(store, ip, c, off, src, tot)
    ensures Laid(store', ip', c, off, src, tot)
  {
    forall k: nat | k < |c| || k < off + tot
      ensures HasByte(store', ip', k, LaidAt(c, off, src, tot, k))
    {
      assert HasByte(store, ip, k, LaidAt(c, off, src, tot, k));
      assert FileSlot(k / BSIZE) == FileSlot(k / BSIZE);
    }
  }

  // The bytes of one block, replaced from position at on.
  function Patched(b: Block, at: nat, src: seq<Byte>): Block
    requires at + |src| <= BSIZE
  {
    b[..at] + src + b[at + |src|..]
  }

  lemma LaidStep(sb: Super, store: Disk, inodes: seq<Inode>, i: nat, c: seq<Byte>, off: nat, src: seq<Byte>, tot: nat,
                 m: nat)
    requires FsOk(sb, store, inodes) && i < |inodes| && Laid(store, inodes[i], c, off, src, tot)
    requires (off + tot) / BSIZE < MAXFILE && Slot(store, inodes[i], FileSlot((off + tot) / BSIZE)) != 0
    requires tot + m <= |src| && (off + tot) % BSIZE + m <= BSIZE
    ensures var d := Slot(store, inodes[i], FileSlot((off + tot) / BSIZE));
            && d < |store|
            && InodeOk(store[d := Patched(store[d], (off + tot) % BSIZE, src[tot..tot + m])], inodes[i])
            && Laid(store[d := Patched(store[d], (off + tot) % BSIZE, src[tot..tot + m])], inodes[i], c, off, src,
                    tot + m)
  {
    var n, at := (off + tot) / BSIZE, (off + tot) % BSIZE;
    var ip := inodes[i];
    var d := Slot(store, ip, FileSlot(n));
    SlotInside(sb, store, inodes, i, FileSlot(n));
    var data := Patched(store[d], at, src[tot..tot + m]);
    var store' := store[d := data];
    OverwriteKeeps(sb, store, inodes, i, n, data);
    forall k: nat {:trigger LaidAt(c, off, src, tot + m, k)} | k < |c| || k < off + tot + m
      ensures HasByte(store', ip, k, LaidAt(c, off, src, tot + m, k))
    {
      if off + tot <= k < off + tot + m {
        PatchedHere(store[d], at, src[tot..tot + m], off + tot, k);
      } else {
        assert HasByte(store, ip, k, LaidAt(c, off, src, tot, k));
        PatchedElsewhere(sb, store, inodes, i, off + tot, src[tot..tot + m], k);
      }
    }
  }

  lemma PatchedHere(b: Block, at: nat, src: seq<Byte>, pos: nat, k: nat)
    requires at == pos % BSIZE && at + |src| <= BSIZE && pos <= k < pos + |src|
    ensures k / BSIZE == pos / BSIZE && Patched(b, at, src)[k % BSIZE] == src[k - pos]
  {
    assert k % BSIZE == at + (k - pos);
  }

  lemma PatchedElsewhere(sb: Super, store: Disk, inodes: seq<Inode>, i: nat, pos: nat, src: seq<Byte>, k: nat)
    requires FsOk(sb, store, inodes) && i < |inodes| && k < MAXFILE * BSIZE
    requires pos / BSIZE < MAXFILE && Slot(store, inodes[i], FileSlot(pos / BSIZE)) != 0 && pos % BSIZE + |src| <= BSIZE
    requires Slot(store, inodes[i], FileSlot(k / BSIZE)) != 0 && !(pos <= k < pos + |src|)
    ensures var d := Slot(store, inodes[i], FileSlot(pos / BSIZE));
            var e := Slot(store, inodes[i], FileSlot(k / BSIZE));
            d < |store| && e < |store|
            && store[d := Patched(store[d], pos % BSIZE, src)][e][k % BSIZE] == store[e][k % BSIZE]
  {
    SlotInside(sb, store, inodes, i, FileSlot(pos / BSIZE));
    SlotInside(sb, store, inodes, i, FileSlot(k / BSIZE));
    var d := Slot(store, inodes[i], FileSlot(pos / BSIZE));
    var e := Slot(store, inodes[i], FileSlot(k / BSIZE));
    if d == e {
      assert FileSlot(pos / BSIZE) == FileSlot(k / BSIZE);
      assert pos / BSIZE == k / BSIZE;
    }
  }

  // Every file but the i-th reads the same.
  ghost predicate OthersSame(sb: Super, store: Disk, inodes: seq<Inode>, store': Disk, inodes': seq<Inode>, i: nat) {
    && FsOk(sb, store, inodes) && FsOk(sb, store', inodes') && |inodes'| == |inodes|
    && (forall j :: 0 <= j < |inodes| && j != i ==> Content(sb, store', inodes', j) == Content(sb, store, inodes, j))
  }

  lemma OthersSameTransitive(sb: Super, s1: Disk, i1: seq<Inode>, s2: Disk, i2: seq<Inode>, s3: Disk, i3: seq<Inode>,
                             i: nat)
    requires OthersSame(sb, s1, i1, s2, i2, i) && OthersSame(sb, s2, i2, s3, i3, i)
    ensures OthersSame(sb, s1, i1, s3, i3, i)
  {
    hide FsOk;
    forall j | 0 <= j < |i1| && j != i
      ensures Content(sb, s3, i3, j) == Content(sb, s1, i1, j)
    {
      assert Content(sb, s2, i2, j) == Content(sb, s1, i1, j);
    }
  }

  lemma KeptThenPatched(sb: Super, store: Disk, inodes: seq<Inode>, s1: Disk, i1: seq<Inode>, i: nat, n: nat,
                        data: Block)
    requires FsOk(sb, store, inodes) && FsOk(sb, s1, i1) && KeepsFiles(store, inodes, s1, i1) && i < |inodes|
    requires n < MAXFILE && 0 < Slot(s1, i1[i], FileSlot(n)) < |s1|
    ensures OthersSame(sb, store, inodes, s1[Slot(s1, i1[i], FileSlot(n)) := data], i1, i)
  {
    var s2 := s1[Slot(s1, i1[i], FileSlot(n)) := data];
    OverwriteKeeps(sb, s1, i1, i, n, data);
    forall j | 0 <= j < |inodes| && j != i
      ensures Content(sb, s2, i1, j) == Content(sb, store, inodes, j)
    {
      KeepsFilesContent(sb, store, inodes, s1, i1, j);
    }
  }

  lemma SliceOfBlock(sb: Super, store: Disk, inodes: seq<Inode>, i: nat, off: nat, m: nat)
    requires FsOk(sb, store, inodes) && i < |inodes| && off % BSIZE + m <= BSIZE
    requires off + m <= inodes[i].size && off / BSIZE < MAXFILE
    ensures var d := Slot(store, inodes[i], FileSlot(off / BSIZE));
            d < |store| && store[d][off % BSIZE..off % BSIZE + m] == Content(sb, store, inodes, i)[off..off + m]
  {
    SlotInside(sb, store, inodes, i, FileSlot(off / BSIZE));
    var a := store[Slot(store, inodes[i], FileSlot(off / BSIZE))][off % BSIZE..off % BSIZE + m];
    var b := Content(sb, store, inodes, i)[off..off + m];
    forall k | 0 <= k < m
      ensures a[k] == b[k]
    {
      assert (off + k) / BSIZE == off / BSIZE && (off + k) % BSIZE == off % BSIZE + k;
    }
  }

  // What Laid says byte by byte, once all of src is in place.
  lemma LaidByte(store: Disk, ip: Inode, c: seq<Byte>, off: nat, src: seq<Byte>, k: nat)
    requires InodeOk(store, ip) && Laid(store, ip, c, off, src, |src|) && off <= |c|
    requires k < |Overlay(c, off, src)|
    ensures HasByte(store, ip, k, Overlay(c, off, src)[k])
  {
    assert HasByte(store, ip, k, LaidAt(c, off, src, |src|, k));
  }

  lemma LaidIsOverlay(sb: Super, store: Disk, inodes: seq<Inode>, i: nat, c: seq<Byte>, off: nat, src: seq<Byte>)
    requires FsOk(sb, store, inodes) && i < |inodes| && Laid(store, inodes[i], c, off, src, |src|)
    requires off <= |c| && |Overlay(c, off, src)| == |c|
    ensures Content(sb, store, inodes, i) == Overlay(c, off, src)
  {
    forall k | 0 <= k < |c|
      ensures Content(sb, store, inodes, i)[k] == Overlay(c, off, src)[k]
    {
      LaidByte(store, inodes[i], c, off, src, k);
    }
  }

  function Resized(inodes: seq<Inode>, i: nat, size: nat): seq<Inode>
    requires i < |inodes|
  {
    inodes[i := inodes[i].(size := size)]
  }

  // writei's last step for a file that has grown.
  lemma GrownOk(sb: Super, store: Disk, inodes: seq<Inode>, i: nat, c: seq<Byte>, off: nat, src: seq<Byte>)
    requires FsOk(sb, store, inodes) && i < |inodes| && Laid(store, inodes[i], c, off, src, |src|)
    requires off <= |c| < off + |src| <= MAXFILE * BSIZE
    ensures FsOk(sb, store, Resized(inodes, i, off + |src|))
  {
    var inodes' := Resized(inodes, i, off + |src|);
    forall j, t | 0 <= j < |inodes| && 0 <= t < SLOTS
      ensures InodeOk(store, inodes'[j]) && Slot(store, inodes'[j], t) == Slot(store, inodes[j], t)
    {
    }
    forall j | 0 <= j < |inodes|
      ensures InodeOk(store, inodes'[j]) && Covered(store, inodes'[j])
    {
      assert Covered(store, inodes[j]);
      forall n | 0 <= n < MAXFILE && n * BSIZE < inodes'[j].size
        ensures Slot(store, inodes'[j], FileSlot(n)) != 0
      {
        if j == i {
          LaidByte(store, inodes[i], c, off, src, n * BSIZE);
          assert n * BSIZE / BSIZE == n;
        }
      }
    }
  }

  lemma GrownIsOverlay(sb: Super, store: Disk, inodes: seq<Inode>, i: nat, c: seq<Byte>, off: nat, src: seq<Byte>)
    requires FsOk(sb, store, inodes) && i < |inodes| && Laid(store, inodes[i], c, off, src, |src|)
    requires off <= |c| < off + |src| <= MAXFILE * BSIZE
    ensures var inodes' := Resized(inodes, i, off + |src|);
            FsOk(sb, store, inodes') && Content(sb, store, inodes', i) == Overlay(c, off, src)
            && OthersSame(sb, store, inodes, store, inodes', i)
  {
    var inodes' := Resized(inodes, i, off + |src|);
    GrownOk(sb, store, inodes, i, c, off, src);
    forall k | 0 <= k < off + |src|
      ensures Content(sb, store, inodes', i)[k] == Overlay(c, off, src)[k]
    {
      LaidByte(store, inodes[i], c, off, src, k);
    }
    forall j | 0 <= j < |inodes| && j != i
      ensures Content(sb, store, inodes', j) == Content(sb, store, inodes, j)
    {
      forall k | 0 <= k < inodes[j].size
        ensures Content(sb, store, inodes', j)[k] == Content(sb, store, inodes, j)[k]
      {
      }
    }
  }

  // ----- giving blocks back

  ghost predicate OwnedBy(store: Disk, ip: Inode, b: nat)
    requires InodeOk(store, ip)
  {
    b != 0 && exists t {:trigger Slot(store, ip, t)} :: 0 <= t < SLOTS && Slot(store, ip, t) == b
  }

  function ZeroAddrs(): (z: seq<nat>)
    ensures |z| == NDIRECT + 1
  {
    seq(NDIRECT + 1, k => 0)
  }

  function Cleared(addrs: seq<nat>, n: nat): (r: seq<nat>)
    requires n <= |addrs|
    ensures |r| == |addrs| && forall k :: 0 <= k < |r| ==> r[k] == if k < n then 0 else addrs[k]
  {
    seq(|addrs|, k requires 0 <= k < |addrs| => if k < n then 0 else addrs[k])
  }

  function WithAddrs(inodes: seq<Inode>, i: nat, addrs: seq<nat>): seq<Inode>
    requires i < |inodes|
  {
    inodes[i := inodes[i].(addrs := addrs)]
  }

  // One of the file's first n blocks.
  ghost predicate AmongFirst(store: Disk, ip: Inode, n: nat, b: nat)
    requires InodeOk(store, ip) && n <= MAXFILE
  {
    b != 0 && exists p {:trigger FileSlot(p)} :: 0 <= p < n && Slot(store, ip, FileSlot(p)) == b
  }

  // itrunc with the file's first n blocks freed: their bits are clear, and nothing else has changed.
  ghost predicate Freeing(sb: Super, store: Disk, ip: Inode, store': Disk, n: nat) {
    && SuperOk(sb, store) && InodeOk(store, ip) && SuperOk(sb, store') && |store'| == |store| && n <= MAXFILE
    && (forall b :: sb.dataStart <= b < |store| ==> store'[b] == store[b])
    && (forall b: nat {:trigger Marked(sb, store', b)} :: b < sb.size ==>
          (Marked(sb, store', b) <==> Marked(sb, store, b) && !AmongFirst(store, ip, n, b)))
  }

  lemma AmongOneMore(store: Disk, ip: Inode, n: nat, b: nat)
    requires InodeOk(store, ip) && n < MAXFILE
    ensures AmongFirst(store, ip, n + 1, b) <==>
            AmongFirst(store, ip, n, b) || (b != 0 && b == Slot(store, ip, FileSlot(n)))
  {
    assert FileSlot(n) == FileSlot(n);
  }

  lemma FreeStart(sb: Super, store: Disk, inodes: seq<Inode>, i: nat)
    requires FsOk(sb, store, inodes) && i < |inodes|
    ensures Freeing(sb, store, inodes[i], store, 0) && |inodes[i].addrs| == NDIRECT + 1
    ensures inodes == WithAddrs(inodes, i, Cleared(inodes[i].addrs, 0))
  {
    assert inodes[i].addrs == Cleared(inodes[i].addrs, 0);
  }

  // The next block is still marked, so freeing it cannot panic.
  lemma FreeStep(sb: Super, store: Disk, inodes: seq<Inode>, i: nat, store': Disk, n: nat)
    requires FsOk(sb, store, inodes) && i < |inodes| && Freeing(sb, store, inodes[i], store', n) && n < MAXFILE
    ensures var s := Slot(store, inodes[i], FileSlot(n));
            if s == 0 then Freeing(sb, store, inodes[i], store', n + 1)
            else
              && s < sb.size && Marked(sb, store', s)
              && Freeing(sb, store, inodes[i], WithMark(sb, store', s, false), n + 1)
  {
    var ip := inodes[i];
    var s := Slot(store, ip, FileSlot(n));
    forall b: nat
      ensures AmongFirst(store, ip, n + 1, b) <==> AmongFirst(store, ip, n, b) || (b != 0 && b == s)
    {
      AmongOneMore(store, ip, n, b);
    }
    if s != 0 {
      forall p | 0 <= p < n
        ensures Slot(store, ip, FileSlot(p)) != s
      {
        assert FileSlot(p) != FileSlot(n);
      }
      UnmarkOne(sb, store, ip, store', n, s);
    }
  }

  lemma UnmarkOne(sb: Super, store: Disk, ip: Inode, store': Disk, n: nat, s: nat)
    requires Freeing(sb, store, ip, store', n) && n < MAXFILE && DataBlock(sb, s)
    requires forall b: nat :: AmongFirst(store, ip, n + 1, b) <==> AmongFirst(store, ip, n, b) || (b != 0 && b == s)
    ensures Freeing(sb, store, ip, WithMark(sb, store', s, false), n + 1)
  {
    var store'' := WithMark(sb, store', s, false);
    BitmapInside(sb, store', s);
    forall b: nat | b < sb.size
      ensures Marked(sb, store'', b) <==> Marked(sb, store, b) && !AmongFirst(store, ip, n + 1, b)
    {
      MarkedAfter(sb, store', s, false, b);
      assert Marked(sb, store', b) <==> Marked(sb, store, b) && !AmongFirst(store, ip, n, b);
    }
  }

  lemma IndirectIsData(sb: Super, store: Disk, inodes: seq<Inode>, i: nat)
    requires FsOk(sb, store, inodes) && i < |inodes| && inodes[i].addrs[NDIRECT] != 0
    ensures DataBlock(sb, inodes[i].addrs[NDIRECT])
  {
    assert Slot(store, inodes[i], NDIRECT) == inodes[i].addrs[NDIRECT];
  }

  // itrunc is done with the bitmap.
  ghost predicate AllFreed(sb: Super, store: Disk, ip: Inode, store': Disk) {
    && SuperOk(sb, store) && InodeOk(store, ip) && SuperOk(sb, store') && |store'| == |store|
    && (forall b :: sb.dataStart <= b < |store| ==> store'[b] == store[b])
    && (forall b: nat {:trigger Marked(sb, store', b)} :: b < sb.size ==>
          (Marked(sb, store', b) <==> Marked(sb, store, b) && !OwnedBy(store, ip, b)))
  }

  lemma OwnedIsAmong(store: Disk, ip: Inode, b: nat)
    requires InodeOk(store, ip)
    ensures OwnedBy(store, ip, b) <==> AmongFirst(store, ip, MAXFILE, b) || (b != 0 && b == ip.addrs[NDIRECT])
  {
    if OwnedBy(store, ip, b) && b != ip.addrs[NDIRECT] {
      var t :| 0 <= t < SLOTS && Slot(store, ip, t) == b;
      var p := if t < NDIRECT then t else t - 1;
      assert FileSlot(p) == t;
    }
    assert Slot(store, ip, NDIRECT) == ip.addrs[NDIRECT];
  }

  lemma FreeLast(sb: Super, store: Disk, inodes: seq<Inode>, i: nat, store': Disk)
    requires FsOk(sb, store, inodes) && i < |inodes| && Freeing(sb, store, inodes[i], store', MAXFILE)
    requires inodes[i].addrs[NDIRECT] != 0
    ensures var s := inodes[i].addrs[NDIRECT];
            s < sb.size && Marked(sb, store', s) && AllFreed(sb, store, inodes[i], WithMark(sb, store', s, false))
  {
    var ip := inodes[i];
    var s := ip.addrs[NDIRECT];
    assert s == Slot(store, ip, NDIRECT);
    forall p | 0 <= p < MAXFILE
      ensures Slot(store, ip, FileSlot(p)) != s
    {
      assert FileSlot(p) != NDIRECT;
    }
    BitmapInside(sb, store', s);
    forall b: nat | b < sb.size
      ensures Marked(sb, WithMark(sb, store', s, false), b) <==> Marked(sb, store, b) && !OwnedBy(store, ip, b)
    {
      MarkedAfter(sb, store', s, false, b);
      OwnedIsAmong(store, ip, b);
    }
  }

  lemma FreeNone(sb: Super, store: Disk, inodes: seq<Inode>, i: nat, store': Disk)
    requires FsOk(sb, store, inodes) && i < |inodes| && Freeing(sb, store, inodes[i], store', NDIRECT)
    requires inodes[i].addrs[NDIRECT] == 0
    ensures AllFreed(sb, store, inodes[i], store')
  {
    var ip := inodes[i];
    forall b: nat | b < sb.size
      ensures AmongFirst(store, ip, NDIRECT, b) <==> OwnedBy(store, ip, b)
    {
      OwnedIsAmong(store, ip, b);
      forall p | NDIRECT <= p < MAXFILE
        ensures Slot(store, ip, FileSlot(p)) == 0
      {
      }
    }
  }

  // The truncated inode, and what its blocks being free leaves of the rest.
  lemma FreedIsOk(sb: Super, store: Disk, inodes: seq<Inode>, i: nat, store': Disk)
    requires FsOk(sb, store, inodes) && i < |inodes| && AllFreed(sb, store, inodes[i], store')
    ensures var inodes' := inodes[i := Inode(ZeroAddrs(), 0)];
            FsOk(sb, store', inodes') && OthersSame(sb, store, inodes, store', inodes', i)
  {
    var inodes' := inodes[i := Inode(ZeroAddrs(), 0)];
    forall j, t | 0 <= j < |inodes| && 0 <= t < SLOTS
      ensures InodeOk(store', inodes'[j])
      ensures Slot(store', inodes'[j], t) == if j == i then 0 else Slot(store, inodes[j], t)
    {
      assert Slot(store, inodes[j], NDIRECT) == inodes[j].addrs[NDIRECT];
    }
    forall j | 0 <= j < |inodes'|
      ensures Covered(store', inodes'[j])
    {
      assert Covered(store, inodes[j]);
    }
    forall b: nat | b < sb.dataStart
      ensures !OwnedBy(store, inodes[i], b)
    {
    }
    forall j | 0 <= j < |inodes|
      ensures InodeOk(store', inodes'[j])
    {
    }
    FreedSlotsOk(sb, store, inodes, i, store', inodes');
    forall j | 0 <= j < |inodes| && j != i
      ensures Content(sb, store', inodes', j) == Content(sb, store, inodes, j)
    {
      forall k | 0 <= k < inodes[j].size
        ensures Content(sb, store', inodes', j)[k] == Content(sb, store, inodes, j)[k]
      {
        assert Covered(store, inodes[j]) && Slot(store, inodes[j], FileSlot(k / BSIZE)) != 0;
      }
    }
  }

  lemma FreedSlotsOk(sb: Super, store: Disk, inodes: seq<Inode>, i: nat, store': Disk, inodes': seq<Inode>)
    requires FsOk(sb, store, inodes) && i < |inodes| == |inodes'| && AllFreed(sb, store, inodes[i], store')
    requires forall j :: 0 <= j < |inodes| ==> InodeOk(store', inodes'[j])
    requires forall j, t {:trigger Slot(store', inodes'[j], t)} :: 0 <= j < |inodes| && 0 <= t < SLOTS ==>
               Slot(store', inodes'[j], t) == if j == i then 0 else Slot(store, inodes[j], t)
    ensures SlotsOk(sb, store', inodes')
  {
  }

  lemma InodeFacts(sb: Super, store: Disk, inodes: seq<Inode>, i: nat, t: nat)
    requires FsOk(sb, store, inodes) && i < |inodes| && t < SLOTS
    ensures SuperOk(sb, store)
    ensures InodeOk(store, inodes[i]) && |inodes[i].addrs| == NDIRECT + 1 && inodes[i].size <= MAXFILE * BSIZE
    ensures Slot(store, inodes[i], t) < |store| && (t <= NDIRECT ==> Slot(store, inodes[i], t) == inodes[i].addrs[t])
    ensures KeepsFiles(store, inodes, store, inodes)
  {
    assert Covered(store, inodes[i]);
  }

  lemma BlockThere(sb: Super, store: Disk, inodes: seq<Inode>, i: nat, off: nat)
    requires FsOk(sb, store, inodes) && i < |inodes| && off < inodes[i].size
    ensures InodeOk(store, inodes[i]) && off / BSIZE < MAXFILE
    ensures 0 < Slot(store, inodes[i], FileSlot(off / BSIZE)) < |store|
  {
    assert Covered(store, inodes[i]);
    SlotInside(sb, store, inodes, i, FileSlot(off / BSIZE));
  }

  // No block is free.
  ghost predicate Full(sb: Super, store: Disk) {
    SuperOk(sb, store) && forall c: nat :: c < sb.size ==> Marked(sb, store, c)
  }

  // ----- how many blocks an operation takes

  ghost function FreeBlocks(sb: Super, store: Disk): set<nat>
    requires SuperOk(sb, store)
  {
    set b: nat | b < sb.size && !Marked(sb, store, b)
  }

  // The slots of an inode that name a block.
  ghost function Named(store: Disk, ip: Inode): set<nat>
    requires InodeOk(store, ip)
  {
    set t: nat | t < SLOTS && Slot(store, ip, t) != 0
  }

  // The slots that the bn-th block of a file needs.
  function Path(bn: nat): set<nat> {
    if bn < NDIRECT then {bn} else {NDIRECT, bn + 1}
  }

  predicate SlotTouched(off: nat, n: nat, t: nat) {
    n > 0 && (if t == NDIRECT then (off + n - 1) / BSIZE >= NDIRECT
              else off / BSIZE <= (if t < NDIRECT then t else t - 1) <= (off + n - 1) / BSIZE)
  }

  // The slots that n bytes from off on need.
  function Touched(off: nat, n: nat): set<nat> {
    set t: nat | t < SLOTS && SlotTouched(off, n, t)
  }

  // The blocks it takes to fill the slots in want of an inode that has those in have.
  function Takes(have: set<nat>, want: set<nat>): int {
    |have + want| - |have|
  }

  // There are free blocks for filling the slots in want.
  ghost predicate Enough(sb: Super, store: Disk, ip: Inode, want: set<nat>) {
    SuperOk(sb, store) && InodeOk(store, ip) && Takes(Named(store, ip), want) <= |FreeBlocks(sb, store)|
  }

  // The slots in add are filled, each that was empty with a block that was free.
  ghost predicate Counted(sb: Super, store: Disk, ip: Inode, store': Disk, ip': Inode, add: set<nat>) {
    && SuperOk(sb, store) && SuperOk(sb, store') && InodeOk(store, ip) && InodeOk(store', ip')
    && Named(store', ip') == Named(store, ip) + add
    && |FreeBlocks(sb, store')| == |FreeBlocks(sb, store)| - Takes(Named(store, ip), add)
  }

  lemma SizeWith(s: set<nat>, i: nat)
    ensures |s + {i}| == |s| + if i in s then 0 else 1
  {
    if i in s {
      assert s + {i} == s;
    }
  }

  lemma SizeMonotone(s: set<nat>, t: set<nat>)
    requires s <= t
    ensures |s| <= |t|
  {
    assert t == s + (t - s);
  }

  lemma CountedNothing(sb: Super, store: Disk, ip: Inode)
    requires SuperOk(sb, store) && InodeOk(store, ip)
    ensures Counted(sb, store, ip, store, ip, {})
  {
    assert Named(store, ip) + {} == Named(store, ip);
  }

  // Slots that were filled already.
  lemma CountedFound(sb: Super, store: Disk, ip: Inode, add: set<nat>)
    requires SuperOk(sb, store) && InodeOk(store, ip) && add <= Named(store, ip)
    ensures Counted(sb, store, ip, store, ip, add)
  {
    assert Named(store, ip) + add == Named(store, ip);
  }

  lemma CountedThen(sb: Super, s0: Disk, ip0: Inode, s1: Disk, ip1: Inode, s2: Disk, ip2: Inode, a: set<nat>,
                    b: set<nat>)
    requires Counted(sb, s0, ip0, s1, ip1, a) && Counted(sb, s1, ip1, s2, ip2, b)
    ensures Counted(sb, s0, ip0, s2, ip2, a + b)
  {
    hide SuperOk, InodeOk, Named, FreeBlocks;
    assert (Named(s0, ip0) + a) + b == Named(s0, ip0) + (a + b);
  }

  // A shortage on the way is a shortage for the whole.
  lemma ShortThen(sb: Super, s0: Disk, ip0: Inode, s1: Disk, ip1: Inode, a: set<nat>, b: set<nat>, all: set<nat>)
    requires Counted(sb, s0, ip0, s1, ip1, a) && !Enough(sb, s1, ip1, b) && a + b <= all
    ensures !Enough(sb, s0, ip0, all)
  {
    hide SuperOk, InodeOk, Named, FreeBlocks;
    var have := Named(s0, ip0);
    assert (have + a) + b <= have + all;
    SizeMonotone((have + a) + b, have + all);
  }

  lemma CountedSlot(sb: Super, store: Disk, ip: Inode, t: nat)
    requires SuperOk(sb, store) && InodeOk(store, ip) && t < SLOTS && Slot(store, ip, t) != 0
    ensures Counted(sb, store, ip, store, ip, {t}) && Enough(sb, store, ip, {t})
  {
    CountedFound(sb, store, ip, {t});
  }

  lemma CountedNeed(sb: Super, s0: Disk, ip0: Inode, s1: Disk, ip1: Inode, add: set<nat>)
    requires Counted(sb, s0, ip0, s1, ip1, add)
    ensures Enough(sb, s0, ip0, add)
  {
  }

  lemma ShortMore(sb: Super, store: Disk, ip: Inode, a: set<nat>, b: set<nat>)
    requires SuperOk(sb, store) && InodeOk(store, ip) && !Enough(sb, store, ip, a) && a <= b
    ensures !Enough(sb, store, ip, b)
  {
    SizeMonotone(Named(store, ip) + a, Named(store, ip) + b);
  }

  // What came of filling an empty slot.
  lemma Allocated(ok: bool, sb: Super, s0: Disk, ip0: Inode, s1: Disk, ip1: Inode, t: nat)
    requires SuperOk(sb, s0) && InodeOk(s0, ip0) && t < SLOTS && Slot(s0, ip0, t) == 0
    requires if ok then Counted(sb, s0, ip0, s1, ip1, {t}) else s1 == s0 && ip1 == ip0 && Full(sb, s0)
    ensures ok <==> Enough(sb, s0, ip0, {t})
  {
    if !ok {
      NoneFree(sb, s0, Named(s0, ip0), t);
    }
  }

  lemma NoneFree(sb: Super, store: Disk, have: set<nat>, t: nat)
    requires Full(sb, store) && t !in have
    ensures |FreeBlocks(sb, store)| == 0 < Takes(have, {t})
  {
    assert FreeBlocks(sb, store) == {};
    SizeWith(have, t);
  }

  lemma FillMarks(sb: Super, store: Disk, inodes: seq<Inode>, i: nat, t: nat, a: nat)
    requires MayFill(sb, store, inodes, i, t, a)
    ensures var (store', inodes') := WithSlot(store, inodes, i, t, a);
            SuperOk(sb, store') && FreeBlocks(sb, store') == FreeBlocks(sb, store)
  {
    var (store', inodes') := WithSlot(store, inodes, i, t, a);
    assert Slot(store, inodes[i], NDIRECT) == inodes[i].addrs[NDIRECT];
    forall b: nat | b < sb.size
      ensures Marked(sb, store', b) == Marked(sb, store, b)
    {
      BitmapInside(sb, store, b);
    }
  }

  lemma FillNamed(sb: Super, store: Disk, inodes: seq<Inode>, i: nat, t: nat, a: nat)
    requires MayFill(sb, store, inodes, i, t, a) && a != 0
    ensures var (store', inodes') := WithSlot(store, inodes, i, t, a);
            && i < |inodes'| && InodeOk(store', inodes'[i])
            && Named(store', inodes'[i]) == Named(store, inodes[i]) + {t}
  {
    hide WithSlot;
    var (store', inodes') := WithSlot(store, inodes, i, t, a);
    FillSlots(sb, store, inodes, i, t, a, i, 0);
    forall u: nat | u < SLOTS
      ensures Slot(store', inodes'[i], u) == if u == t then a else Slot(store, inodes[i], u)
    {
      FillSlots(sb, store, inodes, i, t, a, i, u);
    }
  }

  lemma AllocFree(sb: Super, store: Disk, inodes: seq<Inode>, i: nat, a: nat)
    requires FsOk(sb, store, inodes) && i < |inodes| && a < sb.size && !Marked(sb, store, a)
    ensures var store' := WithMark(sb, store, a, true)[a := ZeroBlock()];
            && SuperOk(sb, store') && FreeBlocks(sb, store') == FreeBlocks(sb, store) - {a}
            && |FreeBlocks(sb, store')| == |FreeBlocks(sb, store)| - 1
            && InodeOk(store', inodes[i]) && Named(store', inodes[i]) == Named(store, inodes[i])
  {
    var store' := WithMark(sb, store, a, true)[a := ZeroBlock()];
    AllocKeeps(sb, store, inodes, a);
    forall t: nat | t < SLOTS
      ensures Slot(store', inodes[i], t) == Slot(store, inodes[i], t)
    {
      SameSlots(store, store', inodes, i, t);
    }
    AllocMarks(sb, store, inodes, a);
    assert FreeBlocks(sb, store') == FreeBlocks(sb, store) - {a};
    assert a in FreeBlocks(sb, store);
  }

  lemma AllocMarks(sb: Super, store: Disk, inodes: seq<Inode>, a: nat)
    requires FsOk(sb, store, inodes) && a < sb.size && !Marked(sb, store, a)
    ensures var store' := WithMark(sb, store, a, true)[a := ZeroBlock()];
            && SuperOk(sb, store')
            && forall b: nat :: b < sb.size ==> Marked(sb, store', b) == (b == a || Marked(sb, store, b))
  {
    var store' := WithMark(sb, store, a, true)[a := ZeroBlock()];
    AllocKeeps(sb, store, inodes, a);
    BitmapInside(sb, store, a);
    forall b: nat | b < sb.size
      ensures Marked(sb, store', b) == (b == a || Marked(sb, store, b))
    {
      MarkedAfter(sb, store, a, true, b);
      BitmapInside(sb, store', b);
    }
  }

  // balloc and the entry for the new block.
  lemma AllocCounted(sb: Super, store: Disk, inodes: seq<Inode>, i: nat, t: nat, a: nat)
    requires FsOk(sb, store, inodes) && i < |inodes| && a < sb.size && !Marked(sb, store, a)
    requires var store1 := WithMark(sb, store, a, true)[a := ZeroBlock()];
             MayFill(sb, store1, inodes, i, t, a)
    ensures var (store', inodes') := WithSlot(WithMark(sb, store, a, true)[a := ZeroBlock()], inodes, i, t, a);
            InodeOk(store, inodes[i]) && i < |inodes'| && Counted(sb, store, inodes[i], store', inodes'[i], {t})
  {
    hide MayFill, WithSlot, WithMark, FreeBlocks;
    var store1 := WithMark(sb, store, a, true)[a := ZeroBlock()];
    AllocFree(sb, store, inodes, i, a);
    FillMarks(sb, store1, inodes, i, t, a);
    DataNotZero(sb, store1, inodes, i, t, a);
    FillNamed(sb, store1, inodes, i, t, a);
    SizeWith(Named(store, inodes[i]), t);
    EmptySlot(sb, store1, inodes, i, t, a);
  }

  lemma EmptySlot(sb: Super, store: Disk, inodes: seq<Inode>, i: nat, t: nat, a: nat)
    requires MayFill(sb, store, inodes, i, t, a)
    ensures InodeOk(store, inodes[i]) && t !in Named(store, inodes[i])
  {
  }

  lemma DataNotZero(sb: Super, store: Disk, inodes: seq<Inode>, i: nat, t: nat, a: nat)
    requires MayFill(sb, store, inodes, i, t, a)
    ensures a != 0
  {
  }

  // The bytes of a block are written.
  lemma OverwriteCounted(sb: Super, store: Disk, inodes: seq<Inode>, i: nat, n: nat, data: Block)
    requires FsOk(sb, store, inodes) && i < |inodes| && n < MAXFILE && Slot(store, inodes[i], FileSlot(n)) != 0
    ensures var d := Slot(store, inodes[i], FileSlot(n));
            d < |store| && InodeOk(store, inodes[i])
            && Counted(sb, store, inodes[i], store[d := data], inodes[i], {})
  {
    var d := Slot(store, inodes[i], FileSlot(n));
    var store' := store[d := data];
    OverwriteKeeps(sb, store, inodes, i, n, data);
    forall b: nat | b < sb.size
      ensures Marked(sb, store', b) == Marked(sb, store, b)
    {
      BitmapInside(sb, store, b);
    }
    assert FreeBlocks(sb, store') == FreeBlocks(sb, store);
    assert Named(store', inodes[i]) == Named(store, inodes[i]);
    assert Named(store, inodes[i]) + {} == Named(store, inodes[i]);
  }

  // The next m bytes, all in one block.
  lemma TouchedMore(off: nat, n: nat, m: nat)
    requires 0 < m && (off + n) % BSIZE + m <= BSIZE && off + n + m <= MAXFILE * BSIZE
    ensures Touched(off, n + m) == Touched(off, n) + Path((off + n) / BSIZE)
  {
    var b := (off + n) / BSIZE;
    assert (off + n + m - 1) / BSIZE == b;
    if n > 0 {
      assert b - 1 <= (off + n - 1) / BSIZE <= b;
    }
  }

  lemma TouchedNothing(sb: Super, store: Disk, ip: Inode, off: nat)
    requires SuperOk(sb, store) && InodeOk(store, ip)
    ensures Counted(sb, store, ip, store, ip, Touched(off, 0))
  {
    assert Touched(off, 0) == {};
    CountedNothing(sb, store, ip);
  }

  lemma TouchedWithin(off: nat, k: nat, n: nat)
    requires k <= n
    ensures Touched(off, k) <= Touched(off, n)
  {
  }

  class FileSystem {
    const sb: Super
    var store: Disk
    var inodes: seq<Inode>

    ghost predicate Valid()
      reads this
    {
      FsOk(sb, store, inodes)
    }

    constructor (sb: Super, store: Disk, inodes: seq<Inode>)
      requires FsOk(sb, store, inodes)
      ensures Valid() && this.sb == sb && this.store == store && this.inodes == inodes
    {
      this.sb, this.store, this.inodes := sb, store, inodes;
    }

    // Zero a block.
    method Bzero(bno: nat)
      requires bno < |store|
      modifies this`store
      ensures store == old(store)[bno := ZeroBlock()]
    {
      store := store[bno := ZeroBlock()];
    }

    // Allocate a zeroed disk block, the first free one; fails when every block is in use.
    method Balloc() returns (ok: bool, a: nat)
      requires SuperOk(sb, store)
      modifies this`store
      ensures ok ==> a < sb.size && !Marked(sb, old(store), a) && forall c: nat :: c < a ==> Marked(sb, old(store), c)
      ensures ok ==> store == WithMark(sb, old(store), a, true)[a := ZeroBlock()]
      ensures !ok ==> store == old(store) && Full(sb, store)
    {
      var b := 0;
      while b < sb.size
        invariant 0 <= b && b % BPB == 0 && store == old(store)
        invariant forall c: nat :: c < b && c < sb.size ==> Marked(sb, store, c)
      {
        BitmapInside(sb, store, b);
        var bp := b / BPB + sb.bmapstart;
        var bi := 0;
        while bi < BPB && b + bi < sb.size
          invariant 0 <= bi <= BPB && store == old(store)
          invariant forall c: nat :: c < b + bi && c < sb.size ==> Marked(sb, store, c)
          decreases BPB - bi
        {
          DivisionInBlock(b, bi);
          if !HasBit(store[bp][bi / 8], bi % 8) {
            store := store[bp := store[bp][bi / 8 := OrBit(store[bp][bi / 8], bi % 8)]];
            Bzero(b + bi);
            return true, b + bi;
          }
          bi := bi + 1;
        }
        b := b + BPB;
      }
      return false, 0;
    }

    // The disk block of the bn-th block of inode i, allocated if there is none.
    method Bmap(i: nat, bn: nat) returns (ok: bool, addr: nat)
      requires Valid() && i < |inodes|
      modifies this`store, this`inodes
      ensures ok ==> bn < MAXFILE && Valid() && KeepsFiles(old(store), old(inodes), store, inodes)
      ensures ok ==> InodeOk(store, inodes[i]) && addr == Slot(store, inodes[i], FileSlot(bn)) && 0 < addr < |store|
      ensures ok <==> bn < MAXFILE && Enough(sb, old(store), old(inodes)[i], Path(bn))
      ensures ok ==> Counted(sb, old(store), old(inodes[i]), store, inodes[i], Path(bn))
      ensures bn < MAXFILE && old(Slot(store, inodes[i], FileSlot(bn)) != 0) ==>
          ok && store == old(store) && inodes == old(inodes)
    {
      hide FsOk, InodeOk, KeepsFiles, Counted, Full, Enough;
      addr := 0;
      InodeFacts(sb, store, inodes, i, NDIRECT);
      if bn < NDIRECT {
        InodeFacts(sb, store, inodes, i, bn);
        addr := inodes[i].addrs[bn];
        if addr == 0 {
          ghost var s0, ip := store, inodes[i];
          ok, addr := AllocSlot(i, bn);
          Allocated(ok, sb, s0, ip, store, inodes[i], bn);
          return;
        }
        CountedSlot(sb, store, inodes[i], bn);
        return true, addr;
      }
      if bn - NDIRECT < NINDIRECT {
        addr := inodes[i].addrs[NDIRECT];
        if addr == 0 {
          ok, addr := AllocSlot(i, NDIRECT);
          Allocated(ok, sb, old(store), old(inodes[i]), store, inodes[i], NDIRECT);
          if !ok {
            ShortMore(sb, store, inodes[i], {NDIRECT}, Path(bn));
            return;
          }
        } else {
          CountedSlot(sb, store, inodes[i], NDIRECT);
        }
        InodeFacts(sb, store, inodes, i, NDIRECT);
        ghost var store1, inodes1 := store, inodes;
        ok, addr := BmapIndirect(i, bn - NDIRECT, addr);
        if ok {
          KeepsFilesTransitive(old(store), old(inodes), store1, inodes1, store, inodes);
          CountedThen(sb, old(store), old(inodes[i]), store1, inodes1[i], store, inodes[i], {NDIRECT}, {bn + 1});
          assert {NDIRECT} + {bn + 1} == Path(bn);
          CountedNeed(sb, old(store), old(inodes[i]), store, inodes[i], Path(bn));
        } else {
          ShortThen(sb, old(store), old(inodes[i]), store1, inodes1[i], {NDIRECT}, {bn + 1}, Path(bn));
        }
        return;
      }
      ok := false;
    }

    // The same, with the indirect block at hand.
    method BmapIndirect(i: nat, bn: nat, ind: nat) returns (ok: bool, addr: nat)
      requires Valid() && i < |inodes| && bn < NINDIRECT && ind == Slot(store, inodes[i], NDIRECT) != 0
      modifies this`store, this`inodes
      ensures ok ==> Valid() && KeepsFiles(old(store), old(inodes), store, inodes)
      ensures ok ==>
          InodeOk(store, inodes[i]) && addr == Slot(store, inodes[i], FileSlot(NDIRECT + bn)) && 0 < addr < |store|
      ensures ok <==> Enough(sb, old(store), old(inodes)[i], {NDIRECT + bn + 1})
      ensures |inodes| == |old(inodes)|
      ensures ok ==> Counted(sb, old(store), old(inodes[i]), store, inodes[i], {NDIRECT + bn + 1})
      ensures old(Slot(store, inodes[i], FileSlot(NDIRECT + bn)) != 0) ==>
          ok && store == old(store) && inodes == old(inodes)
    {
      hide FsOk, InodeOk, KeepsFiles, Counted, Full, Enough;
      InodeFacts(sb, store, inodes, i, NDIRECT);
      InodeFacts(sb, store, inodes, i, FileSlot(NDIRECT + bn));
      addr := Word(store[ind], bn);
      if addr == 0 {
        ghost var s0, ip := store, inodes[i];
        ok, addr := AllocSlot(i, NDIRECT + 1 + bn);
        Allocated(ok, sb, s0, ip, store, inodes[i], NDIRECT + 1 + bn);
        return;
      }
      CountedSlot(sb, store, inodes[i], NDIRECT + 1 + bn);
      return true, addr;
    }

    // balloc, and the entry that names the new block: in addrs, or in the indirect block.
    method AllocSlot(i: nat, t: nat) returns (ok: bool, a: nat)
      requires Valid() && i < |inodes| && t < SLOTS && Slot(store, inodes[i], t) == 0
      requires t > NDIRECT ==> inodes[i].addrs[NDIRECT] != 0
      modifies this`store, this`inodes
      ensures ok ==> Valid() && KeepsFiles(old(store), old(inodes), store, inodes)
      ensures ok ==> InodeOk(store, inodes[i]) && a == Slot(store, inodes[i], t) && 0 < a < |store|
      ensures !ok ==> store == old(store) && inodes == old(inodes) && Full(sb, store)
      ensures |inodes| == |old(inodes)|
      ensures ok ==> Counted(sb, old(store), old(inodes[i]), store, inodes[i], {t})
    {
      hide Counted, Named, FreeBlocks;
      ghost var store0 := store;
      ok, a := Balloc();
      if !ok {
        return;
      }
      AllocKeeps(sb, store0, inodes, a);
      AllocKeepsFiles(sb, store0, inodes, a);
      SameSlots(store0, store, inodes, i, t);
      ghost var store1, inodes1 := store, inodes;
      FillKeeps(sb, store1, inodes1, i, t, a);
      FillKeepsFiles(sb, store1, inodes1, i, t, a);
      AllocCounted(sb, store0, inodes1, i, t, a);
      FillSlots(sb, store1, inodes1, i, t, a, i, t);
      KeepsFilesTransitive(store0, inodes1, store1, inodes1, WithSlot(store1, inodes1, i, t, a).0,
                           WithSlot(store1, inodes1, i, t, a).1);
      if t <= NDIRECT {
        inodes := inodes[i := inodes[i].(addrs := inodes[i].addrs[t := a])];
      } else {
        var ind := inodes[i].addrs[NDIRECT];
        store := store[ind := WithWord(store[ind], t - NDIRECT - 1, a)];
      }
    }

    /** readi: exactly the requested bytes, cut off at the end of the file; -1 for an offset past the end
        or a length that wraps around. */
    method Readi(i: nat, off0: nat, n0: nat) returns (ok: bool, r: int, dst: seq<Byte>)
      requires Valid() && i < |inodes| && off0 < WORD_LIMIT && n0 < WORD_LIMIT
      modifies this`store, this`inodes
      ensures ok && store == old(store) && inodes == old(inodes)
      ensures r == -1 <==> off0 > inodes[i].size || off0 + n0 >= WORD_LIMIT
      ensures r == -1 ==> dst == []
      ensures r != -1 ==> r == |dst| == Min(n0, inodes[i].size - off0)
      ensures r != -1 ==> dst == Content(sb, store, inodes, i)[off0..off0 + |dst|]
    {
      hide FsOk, InodeOk, KeepsFiles, Slot, FileSlot, Content;
      dst := [];
      ghost var c := Content(sb, store, inodes, i);
      InodeFacts(sb, store, inodes, i, 0);
      if off0 > inodes[i].size || (off0 + n0) % WORD_LIMIT < off0 {
        return true, -1, [];
      }
      var off, n := off0, n0;
      if off + n > inodes[i].size {
        n := inodes[i].size - off;
      }
      var tot := 0;
      while tot < n
        invariant 0 <= tot <= n && off == off0 + tot && off0 + n <= |c|
        invariant Valid() && store == old(store) && inodes == old(inodes)
        invariant dst == c[off0..off]
      {
        var bp;
        BlockThere(sb, store, inodes, i, off);
        ok, bp := Bmap(i, off / BSIZE);
        var m := Min(n - tot, BSIZE - off % BSIZE);
        SliceOfBlock(sb, store, inodes, i, off, m);
        dst := dst + store[bp][off % BSIZE..off % BSIZE + m];
        assert c[off0..off + m] == c[off0..off] + c[off..off + m];
        tot, off := tot + m, off + m;
      }
      return true, n, dst;
    }

    /** writei: the old contents overlaid with src; -1 for an offset past the end, a length that wraps around
        or a file that would grow too long. It fails exactly when there are fewer free blocks than it has to fill slots
        that are empty, the indirect block's own among them. */
    method Writei(i: nat, src: seq<Byte>, off0: nat) returns (ok: bool, r: int)
      requires Valid() && i < |inodes| && off0 < WORD_LIMIT && |src| < WORD_LIMIT
      modifies this`store, this`inodes
      ensures ok ==> Valid() && |inodes| == |old(inodes)|
      ensures ok <==> r == -1 || Enough(sb, old(store), old(inodes)[i], Touched(off0, |src|))
      ensures r == -1 <==> off0 > old(inodes)[i].size || off0 + |src| > MAXFILE * BSIZE
      ensures r == -1 ==> ok && store == old(store) && inodes == old(inodes)
      ensures ok && r != -1 ==> r == |src|
      ensures ok && r != -1 ==>
          Content(sb, store, inodes, i) == Overlay(Content(sb, old(store), old(inodes), i), off0, src)
      ensures ok ==> OthersSame(sb, old(store), old(inodes), store, inodes, i)
    {
      hide FsOk, Laid, KeepsFiles, Counted, Enough, Path, Touched;
      ghost var c := Content(sb, store, inodes, i);
      var n := |src|;
      InodeFacts(sb, store, inodes, i, 0);
      if off0 > inodes[i].size || (off0 + n) % WORD_LIMIT < off0 {
        return true, -1;
      }
      if off0 + n > MAXFILE * BSIZE {
        return true, -1;
      }
      LaidStart(sb, store, inodes, i, off0, src);
      TouchedNothing(sb, store, inodes[i], off0);
      r := n;
      var off, tot := off0, 0;
      while tot < n
        invariant 0 <= tot <= n && off == off0 + tot
        invariant Valid() && |inodes| == |old(inodes)| && InodeOk(store, inodes[i]) && inodes[i].size == |c|
        invariant Laid(store, inodes[i], c, off0, src, tot)
        invariant OthersSame(sb, old(store), old(inodes), store, inodes, i)
        invariant Counted(sb, old(store), old(inodes[i]), store, inodes[i], Touched(off0, tot))
      {
        var m := Min(n - tot, BSIZE - off % BSIZE);
        ghost var s1, i1 := store, inodes;
        ok := WriteBlock(i, src, off0, tot, m, c);
        TouchedMore(off0, tot, m);
        TouchedWithin(off0, tot + m, n);
        if !ok {
          ShortThen(sb, old(store), old(inodes[i]), s1, i1[i], Touched(off0, tot), Path(off / BSIZE), Touched(off0, n));
          return;
        }
        CountedThen(sb, old(store), old(inodes[i]), s1, i1[i], store, inodes[i], Touched(off0, tot), Path(off / BSIZE));
        OthersSameTransitive(sb, old(store), old(inodes), s1, i1, store, inodes, i);
        tot, off := tot + m, off + m;
      }
      CountedNeed(sb, old(store), old(inodes[i]), store, inodes[i], Touched(off0, n));
      if n > 0 && off > inodes[i].size {
        GrownIsOverlay(sb, store, inodes, i, c, off0, src);
        OthersSameTransitive(sb, old(store), old(inodes), store, inodes, store, Resized(inodes, i, off), i);
        inodes := inodes[i := inodes[i].(size := off)];
      } else {
        LaidIsOverlay(sb, store, inodes, i, c, off0, src);
      }
      ok := true;
    }

    /** What writei has written, readi reads back: across the direct and the indirect blocks,
        and over what was there. */
    method RoundTrip(i: nat, src: seq<Byte>, off: nat) returns (ok: bool, dst: seq<Byte>)
      requires Valid() && i < |inodes| && off <= inodes[i].size && off + |src| <= MAXFILE * BSIZE
      modifies this`store, this`inodes
      ensures ok ==> Valid() && dst == src && OthersSame(sb, old(store), old(inodes), store, inodes, i)
      ensures ok <==> Enough(sb, old(store), old(inodes)[i], Touched(off, |src|))
    {
      hide FsOk, OthersSame, Content, Enough, Touched;
      InodeFacts(sb, store, inodes, i, 0);
      ghost var c := Content(sb, store, inodes, i);
      var r;
      ok, r := Writei(i, src, off);
      dst := [];
      if ok {
        OverlayReadsBack(c, off, src, []);
        InodeFacts(sb, store, inodes, i, 0);
        ok, r, dst := Readi(i, off, |src|);
      }
    }

    // One turn of writei's loop: the next m bytes of src, all within one block.
    method WriteBlock(i: nat, src: seq<Byte>, off0: nat, tot: nat, m: nat, ghost c: seq<Byte>) returns (ok: bool)
      requires Valid() && i < |inodes| && Laid(store, inodes[i], c, off0, src, tot)
      requires tot + m <= |src| && (off0 + tot) % BSIZE + m <= BSIZE && (off0 + tot) / BSIZE < MAXFILE
      modifies this`store, this`inodes
      ensures ok ==> Valid() && |inodes| == |old(inodes)| && InodeOk(store, inodes[i]) && inodes[i].size == |c|
      ensures ok ==> Laid(store, inodes[i], c, off0, src, tot + m)
      ensures ok ==> OthersSame(sb, old(store), old(inodes), store, inodes, i)
      ensures ok ==> Counted(sb, old(store), old(inodes[i]), store, inodes[i], Path((off0 + tot) / BSIZE))
      ensures ok <==> Enough(sb, old(store), old(inodes)[i], Path((off0 + tot) / BSIZE))
    {
      hide FsOk, Laid, KeepsMapped, Counted, Enough, Path;
      InodeFacts(sb, store, inodes, i, 0);
      var off := off0 + tot;
      var bp;
      ok, bp := Bmap(i, off / BSIZE);
      if !ok {
        return;
      }
      ghost var s1 := store;
      LaidKept(old(store), old(inodes)[i], s1, inodes[i], c, off0, src, tot);
      LaidStep(sb, s1, inodes, i, c, off0, src, tot, m);
      KeptThenPatched(sb, old(store), old(inodes), s1, inodes, i, off / BSIZE,
                      Patched(s1[bp], off % BSIZE, src[tot..tot + m]));
      OverwriteCounted(sb, s1, inodes, i, off / BSIZE, Patched(s1[bp], off % BSIZE, src[tot..tot + m]));
      CountedThen(sb, old(store), old(inodes[i]), s1, inodes[i],
                  s1[bp := Patched(s1[bp], off % BSIZE, src[tot..tot + m])], inodes[i], Path(off / BSIZE), {});
      assert Path(off / BSIZE) + {} == Path(off / BSIZE);
      store := store[bp := Patched(store[bp], off % BSIZE, src[tot..tot + m])];
    }

    // Free a disk block; panics when it is free already.
    method Bfree(b: nat) returns (ok: bool)
      requires SuperOk(sb, store) && b < sb.size
      modifies this`store
      ensures ok <==> Marked(sb, old(store), b)
      ensures ok ==> store == WithMark(sb, old(store), b, false)
    {
      BitmapInside(sb, store, b);
      var bp := b / BPB + sb.bmapstart;
      var bi := b % BPB;
      if !HasBit(store[bp][bi / 8], bi % 8) {
        return false;
      }
      store := store[bp := store[bp][bi / 8 := ClearBit(store[bp][bi / 8], bi % 8)]];
      return true;
    }

    /** Truncate inode i: frees exactly the blocks it owns, each once (so bfree does not panic),
        and no other file changes. */
    method Itrunc(i: nat)
      requires Valid() && i < |inodes|
      modifies this`store, this`inodes
      ensures Valid()
      ensures inodes == old(inodes)[i := Inode(ZeroAddrs(), 0)]
      ensures forall b: nat :: b < sb.size ==>
                (Marked(sb, store, b) <==> Marked(sb, old(store), b) && !OwnedBy(old(store), old(inodes)[i], b))
      ensures OthersSame(sb, old(store), old(inodes), store, inodes, i)
    {
      ghost var s0, i0 := store, inodes;
      FreeDirect(i);
      var ind := inodes[i].addrs[NDIRECT];
      if ind != 0 {
        FreeIndirect(i, ind, s0, i0);
        inodes := inodes[i := inodes[i].(addrs := inodes[i].addrs[NDIRECT := 0])];
      } else {
        FreeNone(sb, s0, i0, i, store);
      }
      inodes := inodes[i := inodes[i].(size := 0)];
      assert inodes[i].addrs == ZeroAddrs();
      assert inodes == i0[i := Inode(ZeroAddrs(), 0)];
      FreedIsOk(sb, s0, i0, i, store);
    }

    // itrunc's first loop.
    method FreeDirect(i: nat)
      requires Valid() && i < |inodes|
      modifies this`store, this`inodes
      ensures Freeing(sb, old(store), old(inodes)[i], store, NDIRECT)
      ensures inodes == WithAddrs(old(inodes), i, Cleared(old(inodes)[i].addrs, NDIRECT))
    {
      hide SlotsOk, MetadataMarked, Marked;
      ghost var s0, i0 := store, inodes;
      var k := 0;
      FreeStart(sb, s0, i0, i);
      while k < NDIRECT
        invariant 0 <= k <= NDIRECT && Freeing(sb, s0, i0[i], store, k)
        invariant inodes == WithAddrs(i0, i, Cleared(i0[i].addrs, k))
      {
        FreeStep(sb, s0, i0, i, store, k);
        if inodes[i].addrs[k] != 0 {
          var freed := Bfree(inodes[i].addrs[k]);
          assert freed;
        }
        assert inodes[i].addrs[k := 0] == Cleared(i0[i].addrs, k + 1);
        inodes := inodes[i := inodes[i].(addrs := inodes[i].addrs[k := 0])];
        k := k + 1;
      }
    }

    // itrunc's second loop: the entries of the indirect block, and that block itself.
    method FreeIndirect(i: nat, ind: nat, ghost s0: Disk, ghost i0: seq<Inode>)
      requires FsOk(sb, s0, i0) && i < |i0| && ind == i0[i].addrs[NDIRECT] != 0
      requires Freeing(sb, s0, i0[i], store, NDIRECT)
      modifies this`store
      ensures AllFreed(sb, s0, i0[i], store)
    {
      hide SlotsOk, MetadataMarked, Marked;
      IndirectIsData(sb, s0, i0, i);
      var bp := store[ind];
      var j := 0;
      while j < NINDIRECT
        invariant 0 <= j <= NINDIRECT && Freeing(sb, s0, i0[i], store, NDIRECT + j)
      {
        FreeStep(sb, s0, i0, i, store, NDIRECT + j);
        if Word(bp, j) != 0 {
          var freed := Bfree(Word(bp, j));
          assert freed;
        }
        j := j + 1;
      }
      FreeLast(sb, s0, i0, i, store);
      var freed := Bfree(ind);
      assert freed;
    }
  }

  lemma DivisionInBlock(b: nat, bi: nat)
    requires b % BPB == 0 && bi < BPB
    ensures (b + bi) / BPB == b / BPB && (b + bi) % BPB == bi
  {
  }
}