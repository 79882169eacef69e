/** The K&R allocator (umalloc.c). Addresses count header-sized units; `base` is the static header below
    the heap and 0 is the null pointer. sbrk is a parameter, a function of the signed byte count it is given: where
    the break was, or failure. The break moves by that count, up or down.
    The circular list, from base along ptr, is the list `blocks` of FreeList. */
module Umalloc {
  import opened FreeList

  const HEADER_BYTES: nat := 8       // sizeof(Header)
  const UINT_LIMIT: nat := 0x1_0000_0000
  const MIN_UNITS: nat := 4096

  datatype Header = Header(ptr: nat, size: nat)
  datatype Sbrk = Failed | At(addr: nat)

  // Units malloc asks for, with the wrap-around of unsigned arithmetic.
  function UnitsFor(nbytes: nat): (n: nat)
    ensures n >= 1
  {
    (nbytes + HEADER_BYTES - 1) % UINT_LIMIT / HEADER_BYTES + 1
  }

  // The units hold the header and nbytes exactly when the rounding does not wrap.
  lemma UnitsSuffice(nbytes: nat)
    requires nbytes < UINT_LIMIT
    ensures (UnitsFor(nbytes) - 1) * HEADER_BYTES >= nbytes <==> nbytes + HEADER_BYTES <= UINT_LIMIT
  {
  }

  // The int that morecore's nu * sizeof(Header) becomes as the argument of sbrk.
  function SbrkBytes(nu: nat): (n: int)
    ensures -0x8000_0000 <= n < 0x8000_0000
  {
    var product := nu * HEADER_BYTES % UINT_LIMIT;
    if product < 0x8000_0000 then product else product - UINT_LIMIT
  }

  // The units obtained once the break has moved from addr by that many bytes; a count that would take it below
  // address 0 leaves it where it is.
  ghost function Granted(obtained: iset<nat>, addr: nat, bytes: int): iset<nat> {
    if bytes > 0 then obtained + Range(Block(addr, bytes / HEADER_BYTES))
    else if addr * HEADER_BYTES + bytes < 0 then obtained
    else iset u: nat | u in obtained && u < addr + bytes / HEADER_BYTES
  }

  // sbrk grants the nu units that morecore puts into the header.
  predicate UnitsGranted(nu: nat) {
    nu * HEADER_BYTES < 0x8000_0000
  }

  // The header written over the new region is true exactly when the byte count does not reach the sign bit.
  lemma GrantedExactly(obtained: iset<nat>, addr: nat, nu: nat)
    requires nu > 0 && forall u: nat :: u in obtained ==> u < addr
    ensures Granted(obtained, addr, SbrkBytes(nu)) == obtained + Range(Block(addr, nu)) <==> UnitsGranted(nu)
  {
    if UnitsGranted(nu) {
      assert SbrkBytes(nu) == nu * HEADER_BYTES;
      assert nu * HEADER_BYTES / HEADER_BYTES == nu;
    } else {
      SbrkShort(nu);
      var u := addr + nu - 1;
      assert u in Range(Block(addr, nu)) && u !in Granted(obtained, addr, SbrkBytes(nu));
    }
  }

  lemma SbrkShort(nu: nat)
    requires !UnitsGranted(nu)
    ensures SbrkBytes(nu) / HEADER_BYTES < nu
  {
  }

  // malloc asks for enough units, and a region for them holds them, exactly for requests up to 2^31 - 16 bytes.
  lemma RequestsServed(nbytes: nat)
    requires nbytes < UINT_LIMIT
    ensures (UnitsFor(nbytes) - 1) * HEADER_BYTES >= nbytes && UnitsGranted(MoreUnits(UnitsFor(nbytes)))
            <==> nbytes <= 0x7FFF_FFF0
  {
    UnitsSuffice(nbytes);
  }

  // The k-th node of the circular list: base, then the free blocks in address order.
  function Node(base: nat, blocks: seq<Block>, k: nat): nat
    requires k <= |blocks|
  {
    if k == 0 then base else blocks[k - 1].addr
  }

  function NextIndex(blocks: seq<Block>, k: nat): nat
    requires k <= |blocks|
  {
    if k < |blocks| then k + 1 else 0
  }

  function PrevIndex(blocks: seq<Block>, k: nat): nat
    requires k <= |blocks|
  {
    if k == 0 then |blocks| else k - 1
  }

  // Node k carries the right link and size.
  ghost predicate NodeOk(mem: map<nat, Header>, base: nat, blocks: seq<Block>, k: nat)
    requires k <= |blocks|
  {
    && Node(base, blocks, k) in mem
    && mem[Node(base, blocks, k)].ptr == Node(base, blocks, NextIndex(blocks, k))
    && mem[Node(base, blocks, k)].size == if k == 0 then 0 else blocks[k - 1].size
  }

  // The ptr fields link the nodes into one cycle, and the size fields are the blocks' sizes.
  ghost predicate Linked(mem: map<nat, Header>, base: nat, blocks: seq<Block>) {
    forall k {:trigger NodeOk(mem, base, blocks, k)} :: 0 <= k <= |blocks| ==> NodeOk(mem, base, blocks, k)
  }

  // What the blocks of a heap must satisfy besides being coalesced: all lie above base.
  ghost predicate FreeListAt(mem: map<nat, Header>, base: nat, blocks: seq<Block>) {
    && base > 0 && Coalesced(blocks) && Linked(mem, base, blocks)
    && (forall k :: 0 <= k < |blocks| ==> base < blocks[k].addr)
  }

  ghost predicate IsNode(base: nat, blocks: seq<Block>, p: nat) {
    exists k {:trigger Node(base, blocks, k)} :: 0 <= k <= |blocks| && p == Node(base, blocks, k)
  }

  lemma NodesAscend(mem: map<nat, Header>, base: nat, blocks: seq<Block>, j: nat, k: nat)
    requires FreeListAt(mem, base, blocks) && j < k <= |blocks|
    ensures Node(base, blocks, j) < Node(base, blocks, k)
    ensures j > 0 ==> blocks[j - 1].End() < Node(base, blocks, k)
  {
  }

  // The list with b linked in after node t, having taken over the block above if they touch.
  ghost function WithAdded(mem: map<nat, Header>, base: nat, blocks: seq<Block>, b: Block, t: nat): map<nat, Header>
    requires t <= |blocks| && NodeOk(mem, base, blocks, t) && NodeOk(mem, base, blocks, NextIndex(blocks, t))
  {
    var p := Node(base, blocks, t);
    var nx := mem[p].ptr;
    var head := if b.End() == nx then Header(mem[nx].ptr, b.size + mem[nx].size) else Header(nx, b.size);
    mem[b.addr := head][p := Header(b.addr, mem[p].size)]
  }

  lemma AddAtNodes(base: nat, blocks: seq<Block>, b: Block, t: nat, k: nat)
    requires t <= |blocks| && k <= |AddAt(blocks, b, t)|
    ensures var up := t < |blocks| && b.End() == blocks[t].addr;
            var l := AddAt(blocks, b, t);
            && |l| == |blocks| + (if up then 0 else 1)
            && Node(base, l, k) == (if k <= t then Node(base, blocks, k) else if k == t + 1 then b.addr
                                    else Node(base, blocks, if up then k else k - 1))
            && (0 < k <= t ==> l[k - 1] == blocks[k - 1])
            && (k == t + 1 ==> l[k - 1].size == b.size + if up then blocks[t].size else 0)
            && (k > t + 1 ==> l[k - 1] == blocks[if up then k - 1 else k - 2])
  {
  }

  // b may be linked in after node t.
  ghost predicate Addable(mem: map<nat, Header>, base: nat, blocks: seq<Block>, b: Block, t: nat) {
    && t <= |blocks| && FreeListAt(mem, base, blocks) && Place(blocks, b, t) && b.size > 0 && base < b.addr
    && NodeOk(mem, base, blocks, t) && NodeOk(mem, base, blocks, NextIndex(blocks, t))
    && Node(base, blocks, t) < b.addr
    && (b.End() == mem[Node(base, blocks, t)].ptr <==> t < |blocks| && b.End() == blocks[t].addr)
  }

  lemma MayAdd(mem: map<nat, Header>, base: nat, blocks: seq<Block>, b: Block, t: nat)
    requires FreeListAt(mem, base, blocks) && Place(blocks, b, t) && b.size > 0 && base < b.addr
    ensures Addable(mem, base, blocks, b, t)
  {
    assert NodeOk(mem, base, blocks, t);
    assert NodeOk(mem, base, blocks, NextIndex(blocks, t));
    assert t > 0 ==> blocks[t - 1].size > 0;
  }

  lemma AddNodeBelow(mem: map<nat, Header>, base: nat, blocks: seq<Block>, b: Block, t: nat, k: nat)
    requires Addable(mem, base, blocks, b, t) && k < t
    ensures NodeOk(WithAdded(mem, base, blocks, b, t), base, AddAt(blocks, b, t), k)
  {
    AddAtNodes(base, blocks, b, t, k);
    AddAtNodes(base, blocks, b, t, k + 1);
    NodesAscend(mem, base, blocks, k, t);
    assert NodeOk(mem, base, blocks, k);
  }

  lemma AddNodeHere(mem: map<nat, Header>, base: nat, blocks: seq<Block>, b: Block, t: nat)
    requires Addable(mem, base, blocks, b, t)
    ensures NodeOk(WithAdded(mem, base, blocks, b, t), base, AddAt(blocks, b, t), t)
    ensures NodeOk(WithAdded(mem, base, blocks, b, t), base, AddAt(blocks, b, t), t + 1)
  {
    var l := AddAt(blocks, b, t);
    AddAtNodes(base, blocks, b, t, t);
    AddAtNodes(base, blocks, b, t, t + 1);
    AddAtNodes(base, blocks, b, t, NextIndex(l, t + 1));
  }

  lemma NodesAbove(mem: map<nat, Header>, base: nat, blocks: seq<Block>, b: Block, t: nat, j: nat)
    requires Addable(mem, base, blocks, b, t) && t < j <= |blocks|
    ensures Node(base, blocks, t) < Node(base, blocks, j) && b.addr < Node(base, blocks, j)
    ensures NodeOk(mem, base, blocks, j)
  {
    NodesAscend(mem, base, blocks, t, j);
    assert b.End() <= blocks[j - 1].addr;
  }

  lemma AddNodeAbove(mem: map<nat, Header>, base: nat, blocks: seq<Block>, b: Block, t: nat, k: nat)
    requires Addable(mem, base, blocks, b, t) && t + 1 < k <= |AddAt(blocks, b, t)|
    ensures NodeOk(WithAdded(mem, base, blocks, b, t), base, AddAt(blocks, b, t), k)
  {
    hide Coalesced, Place, Linked;
    var up := t < |blocks| && b.End() == blocks[t].addr;
    var j := if up then k else k - 1;
    AddAtNodes(base, blocks, b, t, k);
    AddAtNodes(base, blocks, b, t, NextIndex(AddAt(blocks, b, t), k));
    NodesAbove(mem, base, blocks, b, t, j);
    hide AddAt;
  }

  lemma AddLinked(mem: map<nat, Header>, base: nat, blocks: seq<Block>, b: Block, t: nat)
    requires Addable(mem, base, blocks, b, t)
    ensures Linked(WithAdded(mem, base, blocks, b, t), base, AddAt(blocks, b, t))
  {
    forall k | 0 <= k <= |AddAt(blocks, b, t)|
      ensures NodeOk(WithAdded(mem, base, blocks, b, t), base, AddAt(blocks, b, t), k)
    {
      if k < t {
        AddNodeBelow(mem, base, blocks, b, t, k);
      } else if k <= t + 1 {
        AddNodeHere(mem, base, blocks, b, t);
      } else {
        AddNodeAbove(mem, base, blocks, b, t, k);
      }
    }
  }

  // ----- taking a node out, and shrinking one

  ghost predicate Ascending(base: nat, l: seq<Block>) {
    && (forall k :: 0 <= k < |l| ==> base < l[k].addr)
    && (forall j, k :: 0 <= j < k < |l| ==> l[j].addr < l[k].addr)
  }

  // The list without block i; the node before it gets size n.
  function Dropped(l: seq<Block>, i: nat, n: nat): seq<Block>
    requires i < |l|
  {
    if i == 0 then l[1..] else l[..i - 1] + [Block(l[i - 1].addr, n)] + l[i + 1..]
  }

  lemma DroppedNodes(base: nat, l: seq<Block>, i: nat, n: nat, k: nat)
    requires i < |l| && k < |l|
    ensures var r := Dropped(l, i, n);
            && |r| == |l| - 1
            && Node(base, r, k) == Node(base, l, if k <= i then k else k + 1)
            && (0 < k < i ==> r[k - 1] == l[k - 1]) && (k == i > 0 ==> r[k - 1].size == n)
                 && (k > i ==> r[k - 1] == l[k])
  {
  }

  lemma DropLinked(mem: map<nat, Header>, base: nat, l: seq<Block>, i: nat, n: nat)
    requires Ascending(base, l) && Linked(mem, base, l) && i < |l| && (i == 0 ==> n == 0)
    requires NodeOk(mem, base, l, i + 1)
    ensures Linked(mem[Node(base, l, i) := Header(mem[Node(base, l, i + 1)].ptr, n)], base, Dropped(l, i, n))
  {
    var p := Node(base, l, i);
    var mem' := mem[p := Header(mem[Node(base, l, i + 1)].ptr, n)];
    var r := Dropped(l, i, n);
    forall k | 0 <= k <= |r|
      ensures NodeOk(mem', base, r, k)
    {
      DropNode(mem, base, l, i, n, k);
    }
  }

  lemma DropNode(mem: map<nat, Header>, base: nat, l: seq<Block>, i: nat, n: nat, k: nat)
    requires Ascending(base, l) && Linked(mem, base, l) && i < |l| && (i == 0 ==> n == 0) && k <= |Dropped(l, i, n)|
    requires NodeOk(mem, base, l, i + 1)
    ensures NodeOk(mem[Node(base, l, i) := Header(mem[Node(base, l, i + 1)].ptr, n)], base, Dropped(l, i, n), k)
  {
    hide Linked, Ascending;
    DroppedNodes(base, l, i, n, k);
    DroppedNodes(base, l, i, n, NextIndex(Dropped(l, i, n), k));
    OtherNode(mem, base, l, i, if k <= i then k else k + 1);
    hide Dropped;
  }

  lemma OtherNode(mem: map<nat, Header>, base: nat, l: seq<Block>, i: nat, j: nat)
    requires Ascending(base, l) && Linked(mem, base, l) && i < |l| && j <= |l|
    ensures NodeOk(mem, base, l, j) && (j != i ==> Node(base, l, j) != Node(base, l, i))
  {
    assert NodeOk(mem, base, l, j);
  }

  // Writing a key that is no node changes nothing.
  lemma OtherKeyLinked(mem: map<nat, Header>, base: nat, l: seq<Block>, q: nat, h: Header)
    requires Linked(mem, base, l) && q != base && forall k :: 0 <= k < |l| ==> l[k].addr != q
    ensures Linked(mem[q := h], base, l)
  {
    var mem' := mem[q := h];
    forall k | 0 <= k <= |l|
      ensures NodeOk(mem', base, l, k)
    {
      assert NodeOk(mem, base, l, k);
    }
  }

  lemma ShrinkLinked(mem: map<nat, Header>, base: nat, l: seq<Block>, i: nat, n: nat)
    requires Ascending(base, l) && Linked(mem, base, l) && i < |l| && NodeOk(mem, base, l, i + 1)
    ensures Linked(mem[l[i].addr := Header(mem[l[i].addr].ptr, n)], base, l[i := Block(l[i].addr, n)])
  {
    var r := l[i := Block(l[i].addr, n)];
    var mem' := mem[l[i].addr := Header(mem[l[i].addr].ptr, n)];
    forall k | 0 <= k <= |r|
      ensures NodeOk(mem', base, r, k)
    {
      assert NodeOk(mem, base, l, k);
      assert Node(base, r, k) == Node(base, l, k);
      assert Node(base, r, NextIndex(r, k)) == Node(base, l, NextIndex(l, k));
    }
  }

  // ----- where free's search stops

  ghost function PlaceOf(blocks: seq<Block>, b: Block): nat {
    CountBelow(blocks, b, |blocks|)
  }

  ghost function CountBelow(blocks: seq<Block>, b: Block, k: nat): nat
    requires k <= |blocks|
  {
    if k == 0 then 0 else CountBelow(blocks, b, k - 1) + if blocks[k - 1].addr < b.addr then 1 else 0
  }

  lemma {:induction false} PlaceExists(blocks: seq<Block>, b: Block, k: nat)
    requires Coalesced(blocks) && b.size > 0 && k <= |blocks|
    requires forall i :: 0 <= i < |blocks| ==> Apart(b, blocks[i])
    ensures var t := CountBelow(blocks, b, k);
            && t <= k && (forall i :: 0 <= i < t ==> blocks[i].End() <= b.addr)
                 && (forall i :: t <= i < k ==> b.End() <= blocks[i].addr)
  {
    if k > 0 {
      PlaceExists(blocks, b, k - 1);
      forall i | 0 <= i < k - 1
        ensures blocks[i].addr < blocks[k - 1].addr
      {
        assert blocks[i].End() < blocks[k - 1].addr;
      }
    }
  }

  // The test in free's loop holds at node k exactly when b belongs right after it.
  predicate StopsAt(p: nat, next: nat, bp: nat) {
    (bp > p && bp < next) || (p >= next && (bp > p || bp < next))
  }

  lemma StopsAtPlace(mem: map<nat, Header>, base: nat, blocks: seq<Block>, b: Block, t: nat, k: nat)
    requires FreeListAt(mem, base, blocks) && Place(blocks, b, t) && b.size > 0 && base < b.addr && k <= |blocks|
    ensures StopsAt(Node(base, blocks, k), Node(base, blocks, NextIndex(blocks, k)), b.addr) <==> k == t
  {
    assert forall i :: 0 <= i < |blocks| ==> blocks[i].size > 0;
    if k < t {
      assert blocks[k].End() <= b.addr;
      NodesAscend(mem, base, blocks, k, k + 1);
    } else if k > t {
      assert b.End() <= blocks[k - 1].addr;
    }
  }

  // ----- the list after an insertion

  // A key that is neither a node nor the new block is left alone.
  ghost predicate KeepsOthers(mem: map<nat, Header>, mem': map<nat, Header>, base: nat, blocks: seq<Block>, b: nat) {
    forall x :: x in mem && x != b && x != base && (forall k :: 0 <= k < |blocks| ==> blocks[k].addr != x) ==>
      x in mem' && mem'[x] == mem[x]
  }

  lemma NearlyAscends(base: nat, l: seq<Block>, t: nat)
    requires Nearly(l, t) && forall k :: 0 <= k < |l| ==> base < l[k].addr
    ensures Ascending(base, l)
  {
    assert forall k :: 0 <= k < |l| ==> l[k].addr < l[k].End();
  }

  // The second merge test: block t joins the node below it.
  lemma MergeLinked(added: map<nat, Header>, base: nat, l: seq<Block>, t: nat)
    requires Nearly(l, t) && Linked(added, base, l) && Ascending(base, l) && t > 0 && l[t - 1].End() == l[t].addr
    ensures NodeOk(added, base, l, t) && NodeOk(added, base, l, t + 1)
    ensures Linked(added[l[t - 1].addr := Header(added[l[t].addr].ptr, l[t - 1].size + l[t].size)], base,
                   MergeDown(l, t))
    ensures Node(base, MergeDown(l, t), t) == l[t - 1].addr
  {
    hide Ascending, Coalesced;
    assert NodeOk(added, base, l, t) && NodeOk(added, base, l, t + 1);
    DropLinked(added, base, l, t, l[t - 1].size + l[t].size);
    DroppedNodes(base, l, t, l[t - 1].size + l[t].size, t);
    assert MergeDown(l, t) == Dropped(l, t, l[t - 1].size + l[t].size);
  }

  // What free has written once it is done.
  ghost function AfterInsert(mem: map<nat, Header>, base: nat, blocks: seq<Block>, b: Block, t: nat): map<nat, Header>
    requires Addable(mem, base, blocks, b, t)
  {
    var added := WithAdded(mem, base, blocks, b, t);
    var p := Node(base, blocks, t);
    if p + mem[p].size == b.addr then added[p := Header(added[b.addr].ptr, mem[p].size + added[b.addr].size)] else added
  }

  lemma AddedFacts(mem: map<nat, Header>, base: nat, blocks: seq<Block>, b: Block, t: nat)
    requires Addable(mem, base, blocks, b, t)
    ensures var added := WithAdded(mem, base, blocks, b, t);
            var l := AddAt(blocks, b, t);
            var p := Node(base, blocks, t);
            && Linked(added, base, l) && Nearly(l, t) && Ascending(base, l)
            && Node(base, l, t) == p && l[t].addr == b.addr
            && p in mem && b.addr in added && added[b.addr].size == l[t].size
            && (t > 0 ==> l[t - 1].addr == p && l[t - 1].size == mem[p].size)
            && (p + mem[p].size == b.addr <==> t > 0 && l[t - 1].End() == l[t].addr)
  {
    var l := AddAt(blocks, b, t);
    AddLinked(mem, base, blocks, b, t);
    AddAtNearly(blocks, b, t);
    AddAtAbove(base, blocks, b, t);
    NearlyAscends(base, l, t);
    AddAtNodes(base, blocks, b, t, t);
    AddAtNodes(base, blocks, b, t, t + 1);
    assert NodeOk(WithAdded(mem, base, blocks, b, t), base, l, t + 1);
  }

  // free's two merge tests turn the list into InsertAt(blocks, b, t).
  lemma InsertLinked(mem: map<nat, Header>, base: nat, blocks: seq<Block>, b: Block, t: nat)
    requires Addable(mem, base, blocks, b, t)
    ensures Linked(AfterInsert(mem, base, blocks, b, t), base, InsertAt(blocks, b, t))
    ensures t <= |InsertAt(blocks, b, t)| && Node(base, InsertAt(blocks, b, t), t) == Node(base, blocks, t)
  {
    hide Linked, NodeOk, FreeListAt, Nearly, Ascending, Coalesced, Place;
    AddedFacts(mem, base, blocks, b, t);
    var l := AddAt(blocks, b, t);
    if t > 0 && l[t - 1].End() == l[t].addr {
      MergeLinked(WithAdded(mem, base, blocks, b, t), base, l, t);
    }
  }

  lemma InsertFreeListAt(mem: map<nat, Header>, base: nat, blocks: seq<Block>, b: Block, t: nat)
    requires Addable(mem, base, blocks, b, t)
    ensures FreeListAt(AfterInsert(mem, base, blocks, b, t), base, InsertAt(blocks, b, t))
  {
    InsertLinked(mem, base, blocks, b, t);
    InsertKeepsCoalesced(blocks, b, t);
    AddAtAbove(base, blocks, b, t);
  }

  lemma InsertKeepsOthers(mem: map<nat, Header>, base: nat, blocks: seq<Block>, b: Block, t: nat)
    requires Addable(mem, base, blocks, b, t)
    ensures KeepsOthers(mem, AfterInsert(mem, base, blocks, b, t), base, blocks, b.addr)
  {
    assert t > 0 ==> blocks[t - 1].addr == Node(base, blocks, t);
  }

  lemma AddAtAbove(base: nat, blocks: seq<Block>, b: Block, t: nat)
    requires t <= |blocks| && base < b.addr && forall k :: 0 <= k < |blocks| ==> base < blocks[k].addr
    ensures forall k :: 0 <= k < |AddAt(blocks, b, t)| ==> base < AddAt(blocks, b, t)[k].addr
    ensures forall k :: 0 <= k < |InsertAt(blocks, b, t)| ==> base < InsertAt(blocks, b, t)[k].addr
  {
  }

  // ----- blocks handed out

  // Live blocks overlap neither each other nor the free list, and their headers keep their sizes.
  ghost predicate LiveOk(mem: map<nat, Header>, base: nat, blocks: seq<Block>, live: map<nat, nat>) {
    && (forall a :: a in live ==> live[a] > 0 && base < a && a in mem && mem[a].size == live[a])
    && (forall a, c :: a in live && c in live && a != c ==> Apart(Block(a, live[a]), Block(c, live[c])))
    && (forall a, k :: a in live && 0 <= k < |blocks| ==> Apart(Block(a, live[a]), blocks[k]))
  }

  ghost predicate LiveHolds(live: map<nat, nat>, u: nat) {
    exists a :: a in live && Covers(Block(a, live[a]), u)
  }

  // The units of the free blocks and the live ones.
  ghost function Claimed(blocks: seq<Block>, live: map<nat, nat>): iset<nat> {
    iset u: nat | Holds(blocks, u) || LiveHolds(live, u)
  }

  ghost predicate Below(top: nat, blocks: seq<Block>, live: map<nat, nat>) {
    && (forall k :: 0 <= k < |blocks| ==> blocks[k].End() <= top)
    && (forall a :: a in live ==> a + live[a] <= top)
  }

  ghost function Range(b: Block): iset<nat> {
    iset u: nat | Covers(b, u)
  }

  lemma ApartFromInserted(l: seq<Block>, b: Block, t: nat, x: Block)
    requires t <= |l| && x.size > 0 && Apart(x, b) && forall k :: 0 <= k < |l| ==> Apart(x, l[k])
    ensures forall k :: 0 <= k < |InsertAt(l, b, t)| ==> Apart(x, InsertAt(l, b, t)[k])
  {
    var r := AddAt(l, b, t);
    assert forall k :: 0 <= k < |r| ==> Apart(x, r[k]);
  }

  lemma InsertBelow(l: seq<Block>, b: Block, t: nat, top: nat)
    requires t <= |l| && b.End() <= top && forall k :: 0 <= k < |l| ==> l[k].End() <= top
    ensures forall k :: 0 <= k < |InsertAt(l, b, t)| ==> InsertAt(l, b, t)[k].End() <= top
  {
  }

  // The block put in, or what it merged into, is the predecessor node or the one after it.
  lemma InsertedFits(l: seq<Block>, b: Block, t: nat)
    requires t <= |l|
    ensures var r := InsertAt(l, b, t);
            (0 < t <= |r| && r[t - 1].size >= b.size) || (t < |r| && r[t].size >= b.size)
  {
  }

  // Freeing a live block: the units change hands, nothing else does.
  lemma FreeKeepsLive(mem: map<nat, Header>, mem': map<nat, Header>, base: nat, blocks: seq<Block>,
                      live: map<nat, nat>, bp: nat, t: nat)
    requires LiveOk(mem, base, blocks, live) && Coalesced(blocks)
    requires bp in live && Place(blocks, Block(bp, live[bp]), t)
    requires KeepsOthers(mem, mem', base, blocks, bp)
    ensures LiveOk(mem', base, InsertAt(blocks, Block(bp, live[bp]), t), live - {bp})
  {
    var b := Block(bp, live[bp]);
    forall a | a in live && a != bp
      ensures a in mem' && mem'[a] == mem[a]
      ensures forall k :: 0 <= k < |InsertAt(blocks, b, t)| ==> Apart(Block(a, live[a]), InsertAt(blocks, b, t)[k])
    {
      NotFreeAddress(blocks, Block(a, live[a]));
      ApartFromInserted(blocks, b, t, Block(a, live[a]));
    }
  }

  lemma FreeKeepsClaimed(blocks: seq<Block>, live: map<nat, nat>, bp: nat, t: nat)
    requires bp in live && t <= |blocks|
    requires forall a, c :: a in live && c in live && a != c ==> Apart(Block(a, live[a]), Block(c, live[c]))
    ensures Claimed(InsertAt(blocks, Block(bp, live[bp]), t), live - {bp}) == Claimed(blocks, live)
  {
    var b := Block(bp, live[bp]);
    forall u: nat
      ensures Holds(blocks, u) || LiveHolds(live, u) <==> Holds(InsertAt(blocks, b, t), u) || LiveHolds(live - {bp}, u)
    {
      InsertHolds(blocks, b, t, u);
      if LiveHolds(live, u) && !Covers(b, u) {
        var a :| a in live && Covers(Block(a, live[a]), u);
        assert a in live - {bp};
      }
      assert Covers(b, u) ==> LiveHolds(live, u);
    }
  }

  lemma NotFreeAddress(blocks: seq<Block>, x: Block)
    requires x.size > 0 && Coalesced(blocks) && (forall k :: 0 <= k < |blocks| ==> Apart(x, blocks[k]))
    ensures forall k :: 0 <= k < |blocks| ==> blocks[k].addr != x.addr
  {
  }

  // ----- taking a block

  lemma TakeWholeLinked(mem: map<nat, Header>, base: nat, blocks: seq<Block>, i: nat)
    requires FreeListAt(mem, base, blocks) && i < |blocks|
    requires NodeOk(mem, base, blocks, i) && NodeOk(mem, base, blocks, i + 1)
    ensures FreeListAt(mem[Node(base, blocks, i) := Header(mem[blocks[i].addr].ptr, mem[Node(base, blocks, i)].size)],
                       base, TakeTail(blocks, i, blocks[i].size))
    ensures Node(base, TakeTail(blocks, i, blocks[i].size), i) == Node(base, blocks, i)
  {
    CoalescedAscends(base, blocks);
    assert blocks[i].size > 0;
    TakeKeepsCoalesced(blocks, i, blocks[i].size);
    var m := if i == 0 then 0 else blocks[i - 1].size;
    hide Coalesced;
    DropLinked(mem, base, blocks, i, m);
    assert TakeTail(blocks, i, blocks[i].size) == Dropped(blocks, i, m);
    hide Linked;
  }

  lemma TakePartLinked(mem: map<nat, Header>, base: nat, blocks: seq<Block>, i: nat, n: nat, h: Header)
    requires FreeListAt(mem, base, blocks) && i < |blocks| && 0 < n < blocks[i].size
    requires NodeOk(mem, base, blocks, i + 1)
    ensures FreeListAt(mem[blocks[i].addr := Header(mem[blocks[i].addr].ptr, blocks[i].size - n)][Taken(blocks, i,
        n).addr := h],
                       base, TakeTail(blocks, i, n))
    ensures Node(base, TakeTail(blocks, i, n), i) == Node(base, blocks, i)
  {
    CoalescedAscends(base, blocks);
    TakeKeepsCoalesced(blocks, i, n);
    ShrinkLinked(mem, base, blocks, i, blocks[i].size - n);
    var q := Taken(blocks, i, n).addr;
    InsideIsNoNode(blocks, i, q);
    OtherKeyLinked(mem[blocks[i].addr := Header(mem[blocks[i].addr].ptr, blocks[i].size - n)], base,
                   TakeTail(blocks, i, n), q, h);
  }

  lemma CoalescedAscends(base: nat, blocks: seq<Block>)
    requires Coalesced(blocks) && forall k :: 0 <= k < |blocks| ==> base < blocks[k].addr
    ensures Ascending(base, blocks)
  {
    assert forall k :: 0 <= k < |blocks| ==> blocks[k].addr < blocks[k].End();
  }

  lemma InsideIsNoNode(blocks: seq<Block>, i: nat, q: nat)
    requires Coalesced(blocks) && i < |blocks| && blocks[i].addr < q < blocks[i].End()
    ensures forall k :: 0 <= k < |blocks| ==> blocks[k].addr != q
  {
    assert forall k :: 0 <= k < |blocks| ==> blocks[k].addr < blocks[k].End();
  }

  lemma TakeBelow(blocks: seq<Block>, i: nat, n: nat, top: nat)
    requires i < |blocks| && n <= blocks[i].size && forall k :: 0 <= k < |blocks| ==> blocks[k].End() <= top
    ensures Taken(blocks, i, n).End() <= top
    ensures forall k :: 0 <= k < |TakeTail(blocks, i, n)| ==> TakeTail(blocks, i, n)[k].End() <= top
  {
  }

  // Handing out a block: it was free, so it overlaps no live block, and what stays free does not overlap it.
  lemma TakeKeepsLive(mem: map<nat, Header>, mem': map<nat, Header>, base: nat, blocks: seq<Block>,
                      live: map<nat, nat>, i: nat, n: nat)
    requires LiveOk(mem, base, blocks, live) && Coalesced(blocks)
    requires i < |blocks| && base < blocks[i].addr && 0 < n <= blocks[i].size
    requires var q := Taken(blocks, i, n).addr;
             KeepsOthers(mem, mem', base, blocks, q) && q in mem' && mem'[q].size == n
    ensures var q := Taken(blocks, i, n).addr;
            q !in live && LiveOk(mem', base, TakeTail(blocks, i, n), live[q := n])
  {
    var x := Taken(blocks, i, n);
    forall a | a in live
      ensures a in mem' && mem'[a] == mem[a] && Apart(Block(a, live[a]), x)
      ensures forall k :: 0 <= k < |TakeTail(blocks, i, n)| ==> Apart(Block(a, live[a]), TakeTail(blocks, i, n)[k])
    {
      NotFreeAddress(blocks, Block(a, live[a]));
      ApartFromRest(blocks, i, n, Block(a, live[a]));
    }
    TakenApart(blocks, i, n);
    hide Coalesced, KeepsOthers, TakeTail;
  }

  lemma ApartFromRest(blocks: seq<Block>, i: nat, n: nat, x: Block)
    requires i < |blocks| && 0 < n <= blocks[i].size && forall k :: 0 <= k < |blocks| ==> Apart(x, blocks[k])
    ensures x.size > 0 ==> Apart(x, Taken(blocks, i, n))
    ensures x.size > 0 ==> forall k :: 0 <= k < |TakeTail(blocks, i, n)| ==> Apart(x, TakeTail(blocks, i, n)[k])
  {
    assert Apart(x, blocks[i]);
  }

  lemma TakenApart(blocks: seq<Block>, i: nat, n: nat)
    requires Coalesced(blocks) && i < |blocks| && 0 < n <= blocks[i].size
    ensures forall k :: 0 <= k < |TakeTail(blocks, i, n)| ==> Apart(Taken(blocks, i, n), TakeTail(blocks, i, n)[k])
  {
  }

  lemma TakeKeepsClaimed(blocks: seq<Block>, live: map<nat, nat>, i: nat, n: nat)
    requires Coalesced(blocks) && i < |blocks| && 0 < n <= blocks[i].size
    requires Taken(blocks, i, n).addr !in live
    ensures Claimed(TakeTail(blocks, i, n), live[Taken(blocks, i, n).addr := n]) == Claimed(blocks, live)
  {
    var x := Taken(blocks, i, n);
    var live' := live[x.addr := n];
    forall u: nat
      ensures Holds(blocks, u) || LiveHolds(live, u) <==> Holds(TakeTail(blocks, i, n), u) || LiveHolds(live', u)
    {
      TakeHolds(blocks, i, n, u);
      if LiveHolds(live, u) {
        var a :| a in live && Covers(Block(a, live[a]), u);
        assert a in live' && Covers(Block(a, live'[a]), u);
      }
      if Covers(x, u) {
        assert x.addr in live' && Covers(Block(x.addr, live'[x.addr]), u);
        assert Covers(blocks[i], u);
      }
      if LiveHolds(live', u) && !Covers(x, u) {
        var a :| a in live' && Covers(Block(a, live'[a]), u);
        assert a in live && Covers(Block(a, live[a]), u);
      }
    }
  }

  // A new region is claimed in full.
  lemma GrowClaims(blocks: seq<Block>, live: map<nat, nat>, b: Block, t: nat)
    requires t <= |blocks|
    ensures Claimed(InsertAt(blocks, b, t), live) == Claimed(blocks, live) + Range(b)
  {
    forall u: nat
      ensures Holds(InsertAt(blocks, b, t), u) || LiveHolds(live, u) <==>
              Holds(blocks, u) || LiveHolds(live, u) || Covers(b, u)
    {
      InsertHolds(blocks, b, t, u);
    }
  }

  lemma ClaimedBelow(top: nat, blocks: seq<Block>, live: map<nat, nat>)
    requires Below(top, blocks, live)
    ensures forall u: nat :: u in Claimed(blocks, live) ==> u < top
  {
  }

  function MoreUnits(nu: nat): nat {
    if nu < MIN_UNITS then MIN_UNITS else nu
  }

  // What sbrk answers to morecore's request.
  function Answer(sbrk: int -> Sbrk, nu: nat): Sbrk {
    sbrk(SbrkBytes(MoreUnits(nu)))
  }

  lemma GrowKeepsLive(mem: map<nat, Header>, mem': map<nat, Header>, base: nat, top: nat, blocks: seq<Block>,
                      live: map<nat, nat>, b: Block, t: nat)
    requires LiveOk(mem, base, blocks, live) && Below(top, blocks, live) && Coalesced(blocks) && b.addr >= top
    requires t <= |blocks|
    requires KeepsOthers(mem[b.addr := Header(0, b.size)], mem', base, blocks, b.addr)
    ensures LiveOk(mem', base, InsertAt(blocks, b, t), live)
  {
    forall a | a in live
      ensures a in mem' && mem'[a] == mem[a]
      ensures forall k :: 0 <= k < |InsertAt(blocks, b, t)| ==> Apart(Block(a, live[a]), InsertAt(blocks, b, t)[k])
    {
      NotFreeAddress(blocks, Block(a, live[a]));
      ApartFromInserted(blocks, b, t, Block(a, live[a]));
    }
  }

  // malloc's scan at node i, going round to node f: every node already passed is too small.
  ghost predicate PassedTooSmall(blocks: seq<Block>, i: nat, f: nat, n: nat)
    requires i <= |blocks| && f <= |blocks|
  {
    forall h {:trigger NodeSize(blocks, h)} ::
        0 <= h <= |blocks| && Dist(|blocks| + 1, i, h) > Dist(|blocks| + 1, i, f) ==>
      NodeSize(blocks, h) < n
  }

  // A node that is large enough is still ahead of it.
  ghost predicate FitAhead(blocks: seq<Block>, i: nat, f: nat, n: nat)
    requires i <= |blocks| && f <= |blocks|
  {
    exists g {:trigger NodeSize(blocks, g)} :: 0 <= g <= |blocks| && NodeSize(blocks, g) >= n
      && Dist(|blocks| + 1, i, g) <= Dist(|blocks| + 1, i, f)
  }

  lemma ScanStep(blocks: seq<Block>, i: nat, f: nat, n: nat)
    requires i <= |blocks| && f <= |blocks| && NodeSize(blocks, i) < n && i != f
    ensures Dist(|blocks| + 1, NextIndex(blocks, i), f) < Dist(|blocks| + 1, i, f)
    ensures PassedTooSmall(blocks, i, f, n) ==> PassedTooSmall(blocks, NextIndex(blocks, i), f, n)
    ensures FitAhead(blocks, i, f, n) ==> FitAhead(blocks, NextIndex(blocks, i), f, n)
  {
  }

  lemma ScanStart(blocks: seq<Block>, f: nat, n: nat)
    requires f <= |blocks|
    ensures PassedTooSmall(blocks, NextIndex(blocks, f), f, n)
    ensures NodeSize(blocks, f) >= n || (f < |blocks| && NodeSize(blocks, f + 1) >= n) ==>
        FitAhead(blocks, NextIndex(blocks, f), f, n)
  {
  }

  lemma ScanEnd(blocks: seq<Block>, f: nat, n: nat)
    requires f <= |blocks| && NodeSize(blocks, f) < n
    ensures PassedTooSmall(blocks, f, f, n) ==> !SomeFits(blocks, n)
    ensures !FitAhead(blocks, f, f, n)
  {
    forall k | 0 <= k < |blocks| && PassedTooSmall(blocks, f, f, n)
      ensures blocks[k].size < n
    {
      assert NodeSize(blocks, k + 1) == blocks[k].size;
    }
  }

  lemma NodesDistinct(mem: map<nat, Header>, base: nat, blocks: seq<Block>, j: nat, k: nat)
    requires FreeListAt(mem, base, blocks) && j <= |blocks| && k <= |blocks|
    requires Node(base, blocks, j) == Node(base, blocks, k)
    ensures j == k
  {
    if j < k {
      NodesAscend(mem, base, blocks, j, k);
    } else if k < j {
      NodesAscend(mem, base, blocks, k, j);
    }
  }

  // Steps along the circular list of n nodes from node i to node g.
  function Dist(n: nat, i: nat, g: nat): nat
    requires i < n && g < n
  {
    if i <= g then g - i else n - i + g
  }

  function NodeSize(blocks: seq<Block>, k: nat): nat
    requires k <= |blocks|
  {
    if k == 0 then 0 else blocks[k - 1].size
  }

  // p, or the node after it, is large enough.
  ghost predicate FitsNear(base: nat, blocks: seq<Block>, p: nat, n: nat) {
    exists f {:trigger Node(base, blocks, f)} :: 0 <= f <= |blocks| && p == Node(base, blocks, f)
      && (NodeSize(blocks, f) >= n || (f < |blocks| && NodeSize(blocks, f + 1) >= n))
  }

  // after is the list before with n units taken from the end of some block, at address q.
  ghost predicate TakenFrom(before: seq<Block>, n: nat, q: int, after: seq<Block>) {
    exists i ::
        0 <= i < |before| && n <= before[i].size && after == TakeTail(before, i, n) && q == Taken(before, i, n).addr
  }

  ghost predicate SomeFits(blocks: seq<Block>, n: nat) {
    exists k :: 0 <= k < |blocks| && blocks[k].size >= n
  }

  // after is the list before with b put in where it belongs.
  ghost predicate Inserted(before: seq<Block>, b: Block, after: seq<Block>) {
    exists t {:trigger Place(before, b, t)} :: Place(before, b, t) && after == InsertAt(before, b, t)
  }

  // malloc has had to call morecore, and it succeeded.
  ghost predicate Asked(before: seq<Block>, obtained: iset<nat>, n: nat, sbrk: Sbrk, after: seq<Block>,
                        obtained': iset<nat>) {
    && sbrk.At? && !SomeFits(before, n)
    && var more := Block(sbrk.addr, MoreUnits(n));
       Inserted(before, more, after) && obtained' == Granted(obtained, sbrk.addr, SbrkBytes(MoreUnits(n)))
  }

  // The request was served from the list grown by one region from sbrk.
  ghost predicate ServedAfter(before: seq<Block>, obtained: iset<nat>, n: nat, sbrk: Sbrk, q: int,
                              after: seq<Block>, obtained': iset<nat>)
  {
    exists grown :: Asked(before, obtained, n, sbrk, grown, obtained') && TakenFrom(grown, n, q, after)
  }

  // A successful malloc: r - 1 is new among the live blocks, cut from the list as it was if anything on it
  // was large enough, and otherwise from the list grown once.
  ghost predicate Served(before: seq<Block>, obtained: iset<nat>, live: map<nat, nat>, n: nat, sbrk: Sbrk, r: nat,
                         after: seq<Block>, obtained': iset<nat>, live': map<nat, nat>)
  {
    && r > 0 && r - 1 !in live && live' == live[r - 1 := n]
    && (SomeFits(before, n) ==> obtained' == obtained && TakenFrom(before, n, r - 1, after))
    && (!SomeFits(before, n) ==> ServedAfter(before, obtained, n, sbrk, r - 1, after, obtained'))
  }

  class Heap {
    const base: nat
    var mem: map<nat, Header>
    var freep: nat
    ghost var blocks: seq<Block>     // the free list, in address order
    ghost var live: map<nat, nat>    // blocks handed out: header address to size in units
    ghost var obtained: iset<nat>    // units obtained from sbrk
    ghost var top: nat               // end of the last region obtained

    ghost predicate Valid()
      reads this
    {
      && base > 0 && base < top
      && (freep == 0 ==> blocks == [] && live == map[])
      && (freep != 0 ==> FreeListAt(mem, base, blocks) && IsNode(base, blocks, freep))
      && LiveOk(mem, base, blocks, live)
      && Below(top, blocks, live)
    }

    // Every unit of a free or a live block was obtained from sbrk, and every unit obtained is in one.
    ghost predicate Backed()
      reads this
    {
      obtained == Claimed(blocks, live)
    }

    constructor (base: nat)
      requires base > 0
      ensures Valid() && Backed() && this.base == base && live == map[] && blocks == [] && obtained == iset{}
    {
      this.base, mem, freep := base, map[], 0;
      blocks, live, obtained, top := [], map[], iset{}, base + 1;
    }

    // free's search: the node after which bp belongs. It ends for every block apart from the free ones.
    method Search(bp: nat, ghost b: Block, ghost t: nat) returns (p: nat)
      requires FreeListAt(mem, base, blocks) && IsNode(base, blocks, freep)
      requires b.addr == bp && b.size > 0 && base < bp && Place(blocks, b, t)
      ensures p == Node(base, blocks, t)
    {
      p := freep;
      ghost var k :| 0 <= k <= |blocks| && p == Node(base, blocks, k);
      StopsAtPlace(mem, base, blocks, b, t, k);
      assert NodeOk(mem, base, blocks, k);
      while !(bp > p && bp < mem[p].ptr)
        invariant 0 <= k <= |blocks| && p == Node(base, blocks, k) && NodeOk(mem, base, blocks, k)
        decreases if k <= t then t - k else |blocks| + 1 - k + t
      {
        StopsAtPlace(mem, base, blocks, b, t, k);
        if p >= mem[p].ptr && (bp > p || bp < mem[p].ptr) {
          break;
        }
        p := mem[p].ptr;
        k := NextIndex(blocks, k);
        assert NodeOk(mem, base, blocks, k);
      }
      StopsAtPlace(mem, base, blocks, b, t, k);
    }

    // free, for a block apart from everything on the free list.
    method Insert(bp: nat, ghost b: Block) returns (ghost t: nat)
      requires FreeListAt(mem, base, blocks) && IsNode(base, blocks, freep)
      requires b.addr == bp && b.size > 0 && base < bp && bp in mem && mem[bp].size == b.size
      requires forall k :: 0 <= k < |blocks| ==> Apart(b, blocks[k])
      modifies this`mem, this`freep, this`blocks
      ensures Place(old(blocks), b, t) && blocks == InsertAt(old(blocks), b, t)
      ensures FreeListAt(mem, base, blocks) && t <= |blocks| && freep == Node(base, blocks, t)
      ensures KeepsOthers(old(mem), mem, base, old(blocks), bp)
    {
      t := PlaceOf(blocks, b);
      PlaceExists(blocks, b, |blocks|);
      MayAdd(mem, base, blocks, b, t);
      InsertFreeListAt(mem, base, blocks, b, t);
      InsertLinked(mem, base, blocks, b, t);
      InsertKeepsOthers(mem, base, blocks, b, t);
      var p := Search(bp, b, t);
      LinkIn(bp, p, b, t);
      freep := p;
      blocks := InsertAt(blocks, b, t);
    }

    /** free: the block's units join the free list, in place and merged with its neighbours. */
    method Free(ap: nat)
      requires Valid() && ap > 0 && ap - 1 in live
      modifies this
      ensures Valid()
      ensures live == old(live) - {ap - 1} && obtained == old(obtained) && top == old(top)
      ensures Backed() <==> old(Backed())
      ensures Inserted(old(blocks), Block(ap - 1, old(live)[ap - 1]), blocks)
    {
      var bp := ap - 1;
      ghost var b := Block(bp, live[bp]);
      ghost var t := Insert(bp, b);
      FreeKeepsLive(old(mem), mem, base, old(blocks), live, bp, t);
      FreeKeepsClaimed(old(blocks), live, bp, t);
      InsertBelow(old(blocks), b, t, top);
      live := live - {bp};
    }

    /** morecore. What it puts on the free list was all obtained exactly when the byte count stays positive. */
    method Morecore(nu0: nat, sbrk: int -> Sbrk) returns (p: nat)
      requires Valid() && freep != 0 && nu0 >= 1
      requires Answer(sbrk, nu0).At? ==> Answer(sbrk, nu0).addr >= top
      modifies this
      ensures Valid() && freep != 0 && live == old(live)
      ensures Answer(sbrk, nu0).Failed? ==>
        p == 0 && blocks == old(blocks) && obtained == old(obtained) && freep == old(freep) && top == old(top)
      ensures Answer(sbrk, nu0).At? ==>
        var addr := Answer(sbrk, nu0).addr;
        && p == freep && Inserted(old(blocks), Block(addr, MoreUnits(nu0)), blocks)
        && obtained == Granted(old(obtained), addr, SbrkBytes(MoreUnits(nu0)))
        && FitsNear(base, blocks, freep, nu0)
      ensures old(Backed()) ==> (Backed() <==> Answer(sbrk, nu0).Failed? || UnitsGranted(MoreUnits(nu0)))
    {
      hide Claimed, Granted, SbrkBytes, UnitsGranted, LiveOk, FreeListAt, Below, Inserted, IsNode, Range;
      var nu := nu0;
      if nu < MIN_UNITS {
        nu := MIN_UNITS;
      }
      var answer := sbrk(SbrkBytes(nu));
      if answer.Failed? {
        return 0;
      }
      var hp := answer.addr;
      ClaimedBelow(top, blocks, live);
      if obtained == Claimed(blocks, live) {
        GrantedExactly(obtained, hp, nu);
      }
      mem := mem[hp := Header(0, nu)];
      FreeNew(hp, nu, old(mem));
      obtained := Granted(obtained, hp, SbrkBytes(nu));
      p := freep;
    }

    // free of the units just obtained.
    method FreeNew(hp: nat, nu: nat, ghost before: map<nat, Header>)
      requires base > 0 && base < top <= hp && freep != 0 && nu > 0 && mem == before[hp := Header(0, nu)]
      requires FreeListAt(before, base, blocks) && IsNode(base, blocks, freep)
      requires LiveOk(before, base, blocks, live) && Below(top, blocks, live)
      modifies this
      ensures Valid() && freep != 0 && live == old(live)
      ensures Inserted(old(blocks), Block(hp, nu), blocks) && obtained == old(obtained)
      ensures Claimed(blocks, live) == old(Claimed(blocks, live)) + Range(Block(hp, nu))
      ensures FitsNear(base, blocks, freep, nu)
    {
      hide Claimed, InsertAt, MergeDown, AddAt;
      ghost var b := Block(hp, nu);
      assert forall k :: 0 <= k < |blocks| ==> blocks[k].addr < blocks[k].End();
      OtherKeyLinked(before, base, blocks, hp, Header(0, nu));
      hide Coalesced;
      ghost var t := Insert(hp, b);
      GrowKeepsLive(before, mem, base, top, old(blocks), live, b, t);
      GrowClaims(old(blocks), live, b, t);
      InsertBelow(old(blocks), b, t, b.End());
      InsertedFits(old(blocks), b, t);
      top := b.End();
    }

    // The branch of malloc's loop that hands out a block: all of it, or its tail end.
    method Carve(p: nat, prevp: nat, nunits: nat, ghost i: nat) returns (r: nat)
      requires Valid() && freep != 0 && i < |blocks| && 0 < nunits <= blocks[i].size
      requires prevp == Node(base, blocks, i) && p == Node(base, blocks, i + 1)
      modifies this
      ensures Valid() && freep != 0
      ensures r > 0 && r - 1 == Taken(old(blocks), i, nunits).addr && blocks == TakeTail(old(blocks), i, nunits)
      ensures r - 1 !in old(live) && live == old(live)[r - 1 := nunits] && obtained == old(obtained) && top == old(top)
      ensures Backed() <==> old(Backed())
    {
      var q := Cut(p, prevp, nunits, i);
      freep := prevp;
      HandOut(i, nunits, old(mem), q);
      r := q + 1;
    }

    method Cut(p0: nat, prevp: nat, nunits: nat, ghost i: nat) returns (p: nat)
      requires FreeListAt(mem, base, blocks) && i < |blocks| && 0 < nunits <= blocks[i].size
      requires prevp == Node(base, blocks, i) && p0 == Node(base, blocks, i + 1)
      modifies this`mem
      ensures p == Taken(blocks, i, nunits).addr && p in mem && mem[p].size == nunits
      ensures FreeListAt(mem, base, TakeTail(blocks, i, nunits)) && Node(base, TakeTail(blocks, i, nunits), i) == prevp
      ensures KeepsOthers(old(mem), mem, base, blocks, p)
    {
      assert NodeOk(mem, base, blocks, i) && NodeOk(mem, base, blocks, i + 1);
      p := p0;
      if mem[p].size == nunits {
        TakeWholeLinked(mem, base, blocks, i);
        assert i > 0 ==> blocks[i - 1].addr == prevp < p;
        mem := mem[prevp := Header(mem[p].ptr, mem[prevp].size)];
      } else {
        TakePartLinked(mem, base, blocks, i, nunits, Header(0, nunits));
        mem := mem[p := Header(mem[p].ptr, mem[p].size - nunits)];
        p := p + mem[p].size;
        mem := mem[p := Header(0, nunits)];
      }
    }

    ghost method HandOut(i: nat, nunits: nat, before: map<nat, Header>, p: nat)
      requires base > 0 && base < top && i < |blocks| && 0 < nunits <= blocks[i].size && base < blocks[i].addr
      requires LiveOk(before, base, blocks, live) && Coalesced(blocks) && Below(top, blocks, live)
      requires freep != 0 && FreeListAt(mem, base, TakeTail(blocks, i, nunits))
      requires freep == Node(base, TakeTail(blocks, i, nunits), i)
      requires p == Taken(blocks, i, nunits).addr && p in mem && mem[p].size == nunits
      requires KeepsOthers(before, mem, base, blocks, p)
      modifies this`blocks, this`live
      ensures Valid() && blocks == TakeTail(old(blocks), i, nunits)
      ensures p !in old(live) && live == old(live)[p := nunits] && (Backed() <==> old(Backed()))
    {
      TakeKeepsLive(before, mem, base, blocks, live, i, nunits);
      TakeKeepsClaimed(blocks, live, i, nunits);
      TakeBelow(blocks, i, nunits, top);
      live := live[p := nunits];
      blocks := TakeTail(blocks, i, nunits);
    }

    /** malloc. Takes the end of a free block that is large enough; asks sbrk for more only when none is,
        and then once: the units it puts on the list always serve the request, and were all obtained exactly when
        the byte count stays positive. */
    method Malloc(nbytes: nat, sbrk: int -> Sbrk) returns (r: nat)
      requires Valid()
      requires var answer := Answer(sbrk, UnitsFor(nbytes)); answer.At? ==> answer.addr >= top
      modifies this
      ensures Valid()
      ensures r == 0 <==> !SomeFits(old(blocks), UnitsFor(nbytes)) && Answer(sbrk, UnitsFor(nbytes)).Failed?
      ensures r == 0 ==> blocks == old(blocks) && live == old(live) && obtained == old(obtained)
      ensures r != 0 ==> Served(old(blocks), old(obtained), old(live), UnitsFor(nbytes), Answer(sbrk, UnitsFor(nbytes)),
                                r, blocks, obtained, live)
      ensures old(Backed()) ==>
        (Backed() <==> r == 0 || SomeFits(old(blocks), UnitsFor(nbytes)) || UnitsGranted(MoreUnits(UnitsFor(nbytes))))
    {
      var nunits := UnitsFor(nbytes);
      if freep == 0 {
        InitBase();
      }
      r := Scan(nunits, sbrk);
    }

    method InitBase()
      requires Valid() && freep == 0
      modifies this`mem, this`freep
      ensures Valid() && freep != 0
    {
      mem := mem[base := Header(base, 0)];
      freep := base;
      assert NodeOk(mem, base, [], 0);
      assert freep == Node(base, blocks, 0);
    }

    // morecore for a list on which nothing fits: the scan goes on from freep, with a fit ahead.
    method MoreFor(nunits: nat, sbrk: int -> Sbrk) returns (p: nat, ghost f: nat)
      requires Valid() && freep != 0 && nunits > 0 && !SomeFits(blocks, nunits)
      requires Answer(sbrk, nunits).At? ==> Answer(sbrk, nunits).addr >= top
      modifies this
      ensures Valid() && freep != 0 && live == old(live)
      ensures p == 0 <==> Answer(sbrk, nunits).Failed?
      ensures p == 0 ==> blocks == old(blocks) && obtained == old(obtained)
      ensures p != 0 ==> f <= |blocks| && p == freep == Node(base, blocks, f)
      ensures p != 0 ==> Asked(old(blocks), old(obtained), nunits, Answer(sbrk, nunits), blocks, obtained)
      ensures p != 0 ==> FitAhead(blocks, NextIndex(blocks, f), f, nunits)
      ensures old(Backed()) ==> (Backed() <==> p == 0 || UnitsGranted(MoreUnits(nunits)))
    {
      p := Morecore(nunits, sbrk);
      f := 0;
      if p != 0 {
        f :| 0 <= f <= |blocks| && freep == Node(base, blocks, f)
          && (NodeSize(blocks, f) >= nunits || (f < |blocks| && NodeSize(blocks, f + 1) >= nunits));
        ScanStart(blocks, f, nunits);
      }
    }

    method Scan(nunits: nat, sbrk: int -> Sbrk) returns (r: nat)
      requires Valid() && freep != 0 && nunits > 0
      requires Answer(sbrk, nunits).At? ==> Answer(sbrk, nunits).addr >= top
      modifies this
      ensures Valid()
      ensures r == 0 <==> !SomeFits(old(blocks), nunits) && Answer(sbrk, nunits).Failed?
      ensures r == 0 ==> blocks == old(blocks) && live == old(live) && obtained == old(obtained)
      ensures r != 0 ==> Served(old(blocks), old(obtained), old(live), nunits, Answer(sbrk, nunits), r,
                                blocks, obtained, live)
      ensures old(Backed()) ==>
        (Backed() <==> r == 0 || SomeFits(old(blocks), nunits) || UnitsGranted(MoreUnits(nunits)))
    {
      hide LiveOk, Claimed, Below, Coalesced, Served, Asked, PassedTooSmall, FitAhead;
      var prevp := freep;
      ghost var f :| 0 <= f <= |blocks| && freep == Node(base, blocks, f);
      assert NodeOk(mem, base, blocks, f);
      ScanStart(blocks, f, nunits);
      var p := mem[prevp].ptr;
      ghost var i := NextIndex(blocks, f);     // where p is
      ghost var asked := false;
      while true
        invariant Valid() && freep != 0 && live == old(live)
        invariant 0 <= f <= |blocks| && freep == Node(base, blocks, f) && 0 <= i <= |blocks|
        invariant p == Node(base, blocks, i)
        invariant prevp == Node(base, blocks, PrevIndex(blocks, i))
        invariant !asked ==> top == old(top) && blocks == old(blocks) && obtained == old(obtained)
        invariant !asked ==> PassedTooSmall(blocks, i, f, nunits)
        invariant asked ==> !SomeFits(old(blocks), nunits) && FitAhead(blocks, i, f, nunits)
        invariant asked ==> Asked(old(blocks), old(obtained), nunits, Answer(sbrk, nunits), blocks, obtained)
        invariant old(Backed()) ==> (Backed() <==> !asked || UnitsGranted(MoreUnits(nunits)))
        decreases if asked then 0 else 1, Dist(|blocks| + 1, i, f)
      {
        assert NodeOk(mem, base, blocks, i);
        if mem[p].size >= nunits {
          r := Serve(p, prevp, nunits, i - 1, asked, old(blocks), old(obtained), Answer(sbrk, nunits));
          return;
        }
        if p == freep {
          NodesDistinct(mem, base, blocks, i, f);
          ScanEnd(blocks, f, nunits);
          p, f := MoreFor(nunits, sbrk);
          if p == 0 {
            return 0;
          }
          asked, i := true, f;
        } else {
          ScanStep(blocks, i, f, nunits);
        }
        assert NodeOk(mem, base, blocks, i);
        assert PrevIndex(blocks, NextIndex(blocks, i)) == i;
        prevp := p;
        p := mem[p].ptr;
        i := NextIndex(blocks, i);
      }
    }

    method Serve(p: nat, prevp: nat, nunits: nat, ghost i: nat,
                 ghost asked: bool, ghost before: seq<Block>, ghost obtained0: iset<nat>, ghost sbrk: Sbrk)
      returns (r: nat)
      requires Valid() && freep != 0 && i < |blocks| && 0 < nunits <= blocks[i].size
      requires prevp == Node(base, blocks, i) && p == Node(base, blocks, i + 1)
      requires !asked ==> blocks == before && obtained == obtained0
      requires asked ==> Asked(before, obtained0, nunits, sbrk, blocks, obtained)
      modifies this
      ensures Valid()
      ensures Served(before, obtained0, old(live), nunits, sbrk, r, blocks, obtained, live)
      ensures r != 0 && (SomeFits(before, nunits) || sbrk.At?) && (!asked ==> SomeFits(before, nunits))
      ensures Backed() <==> old(Backed())
    {
      ghost var grown := blocks;
      assert SomeFits(grown, nunits);
      r := Carve(p, prevp, nunits, i);
      assert TakenFrom(grown, nunits, r - 1, blocks);
    }

    // free's two merge tests.
    method LinkIn(bp: nat, p: nat, ghost b: Block, ghost t: nat)
      requires Addable(mem, base, blocks, b, t) && p == Node(base, blocks, t)
      requires b.addr == bp && bp in mem && mem[bp].size == b.size
      modifies this`mem
      ensures mem == AfterInsert(old(mem), base, blocks, b, t)
    {
      var nx := mem[p].ptr;
      if bp + mem[bp].size == nx {
        mem := mem[bp := Header(mem[nx].ptr, mem[bp].size + mem[nx].size)];
      } else {
        mem := mem[bp := Header(nx, mem[bp].size)];
      }
      if p + mem[p].size == bp {
        mem := mem[p := Header(mem[bp].ptr, mem[p].size + mem[bp].size)];
      } else {
        mem := mem[p := Header(bp, mem[p].size)];
      }
    }
  }
}
