/** Masks on natural numbers, bit by bit. */
module Bits {
  import opened Arithmetic

  /** Bitwise `&`. */
  function And(x: nat, y: nat): nat {
    if x == 0 || y == 0 then 0 else 2 * And(x / 2, y / 2) + (x % 2) * (y % 2)
  }

  /** Bitwise `!` of a word of `w` bits. */
  function Not(w: nat, x: nat): nat
    requires x < Pow2(w)
  {
    Pow2(w) - 1 - x
  }

  lemma {:induction false} Pow2Monotone(a: nat, b: nat)
    requires a <= b
    ensures Pow2(a) <= Pow2(b)
  {
    if a < b { Pow2Monotone(a, b - 1); }
  }

  lemma {:induction false} AndOnes(w: nat, x: nat)
    requires x < Pow2(w)
    ensures And(x, Pow2(w) - 1) == x
  {
    if w > 0 && x > 0 {
      AndOnes(w - 1, x / 2);
      assert (Pow2(w) - 1) / 2 == Pow2(w - 1) - 1 && (Pow2(w) - 1) % 2 == 1;
    }
  }

  /** Doubling the divisor keeps one more low bit. */
  lemma ModDoubles(x: nat, p: nat)
    requires p > 0
    ensures x % (2 * p) == 2 * ((x / 2) % p) + x % 2
  {
    var h, b := x / 2, x % 2;
    var q, r := h / p, h % p;
    var q', r' := x / (2 * p), x % (2 * p);
    assert h == p * q + r && x == 2 * h + b && x == (2 * p) * q' + r';
    assert (2 * p) * (q' - q) == 2 * r + b - r' by {
      assert (2 * p) * q == 2 * (p * q);
      assert (2 * p) * (q' - q) == (2 * p) * q' - (2 * p) * q;
    }
    SmallMultiple(2 * p, q' - q);
  }

  /** Clearing the low `k` bits rounds down to a multiple of `2^k`. */
  lemma {:induction false} MaskRoundsDown(w: nat, k: nat, x: nat)
    requires k <= w && x < Pow2(w)
    ensures Pow2(k) <= Pow2(w) && And(x, Not(w, Pow2(k) - 1)) == x - x % Pow2(k)
  {
    Pow2Monotone(k, w);
    if k == 0 {
      AndOnes(w, x);
    } else {
      MaskRoundsDown(w - 1, k - 1, x / 2);
      ModDoubles(x, Pow2(k - 1));
      assert Not(w, Pow2(k) - 1) == 2 * Not(w - 1, Pow2(k - 1) - 1);
      AndEven(x, Not(w - 1, Pow2(k - 1) - 1));
    }
  }

  lemma {:induction false} AndEven(x: nat, y: nat)
    ensures And(x, 2 * y) == 2 * And(x / 2, y)
  {
    if x != 0 && y != 0 {
      assert (2 * y) / 2 == y && (2 * y) % 2 == 0;
    }
  }

  /** The multiple of `a` that `(x + a - 1)` rounds down to is the least one not below `x`. */
  lemma RoundUpLeast(x: nat, a: nat)
    requires a > 0
    ensures var r := (x + a - 1) - (x + a - 1) % a;
            x <= r < x + a && r % a == 0 && forall y: nat | x <= y && y % a == 0 :: r <= y
  {
    var s := x + a - 1;
    var r := s - s % a;
    assert s == a * (s / a) + s % a;
    MultipleModZero(a, s / a);
    forall y: nat | x <= y && y % a == 0 ensures r <= y {
      assert y == a * (y / a);
      if y < r {
        assert a * (y / a) < a * (s / a);
        NextMultiple(a, y / a, s / a);
      }
    }
  }

  lemma MultipleModZero(a: nat, q: nat)
    requires a > 0
    ensures (a * q) % a == 0
  {
    var m := a * q;
    assert m == a * (m / a) + m % a;
    assert a * (m / a - q) == -(m % a) by { assert a * (m / a - q) == a * (m / a) - a * q; }
    SmallMultiple(a, m / a - q);
  }

  lemma NextMultiple(a: nat, p: nat, q: nat)
    requires a > 0 && a * p < a * q
    ensures a * p + a <= a * q
  {
    assert a * (q - p) == a * q - a * p;
    PositiveFactor(a, q - p);
  }

  lemma PositiveFactor(a: int, d: int)
    requires a > 0 && a * d > 0
    ensures a <= a * d
  {
    assert d >= 1;
    assert a * (d - 1) >= 0;
  }
}

/** The two bump allocators of a plugin, in one linear memory of 32-bit addresses. */
module WasmMemory {
  import opened Arithmetic
  import opened Bits

  const WORD := 0x1_0000_0000
  const PAGE := 65536
  const GLOBAL_START := 65536
  const HOST_START := 131072

  lemma WordIsPow2()
    ensures Pow2(32) == WORD
  {
    assert Pow2(8) == 256;
    assert Pow2(16) == 65536 by { assert Pow2(12) == 4096; }
    assert Pow2(24) == 16777216 by { assert Pow2(20) == 1048576; }
    assert Pow2(28) == 268435456;
  }

  /** Unsigned 32-bit arithmetic wraps round. */
  function Wrap(x: int): (r: nat)
    ensures r < WORD
    ensures 0 <= x < WORD ==> r == x
  {
    x % WORD
  }

  /** It loses only multiples of the word size. */
  lemma WrapLoses(x: int)
    ensures exists k: int :: x == Wrap(x) + WORD * k
  {
    assert x == Wrap(x) + WORD * (x / WORD);
  }

  /** `(x + a - 1) & !(a - 1)` on 32-bit words. */
  function MaskUp(x: nat, a: nat): nat
    requires 0 < a <= Pow2(32)
  {
    And(Wrap(x + a - 1), Not(32, a - 1))
  }

  /** For a power of two, and without overflow, that is the least aligned address not below `x`. */
  lemma MaskUpAligns(x: nat, k: nat)
    requires k <= 31 && x + Pow2(k) - 1 < WORD
    ensures Pow2(k) <= Pow2(32)
    ensures var r, a := MaskUp(x, Pow2(k)), Pow2(k);
            x <= r < x + a && r % a == 0 && forall y: nat | x <= y && y % a == 0 :: r <= y
  {
    hide Pow2, And, Not;
    WordIsPow2();
    Pow2Monotone(k, 32);
    MaskRoundsDown(32, k, x + Pow2(k) - 1);
    RoundUpLeast(x, Pow2(k));
  }

  datatype Block = Block(start: nat, size: nat)

  predicate Apart(a: Block, b: Block) {
    a.start + a.size <= b.start || b.start + b.size <= a.start
  }

  /** The blocks lie one after the other between two addresses, inside the memory there is. */
  ghost predicate Laid(blocks: seq<Block>, low: nat, high: nat, pages: nat) {
    && (forall b <- blocks :: low <= b.start && b.start + b.size <= high && b.start + b.size <= pages * PAGE)
    && (forall i, j | 0 <= i < j < |blocks| :: blocks[i].start + blocks[i].size <= blocks[j].start)
  }

  lemma LaidMore(blocks: seq<Block>, low: nat, high: nat, pages: nat, b: Block, high': nat, pages': nat)
    requires Laid(blocks, low, high, pages) && low <= high <= b.start && b.start + b.size <= high' && pages <= pages'
    requires b.start + b.size <= pages' * PAGE
    ensures Laid(blocks + [b], low, high', pages')
  {
    forall x | x in blocks ensures x.start + x.size <= pages' * PAGE {
      assert pages * PAGE <= pages' * PAGE;
    }
  }

  lemma LaidInMore(blocks: seq<Block>, low: nat, high: nat, pages: nat, pages': nat)
    requires Laid(blocks, low, high, pages) && pages <= pages'
    ensures Laid(blocks, low, high, pages')
  {
    assert pages * PAGE <= pages' * PAGE;
  }

  function PagesFor(bytes: nat): nat {
    Wrap(bytes + 65535) / 65536
  }

  /** The pages asked for are enough for every byte, and not one too many. */
  lemma PagesCover(bytes: nat, pages: nat)
    requires bytes + 65535 < WORD
    ensures PagesFor(bytes) <= pages <==> bytes <= pages * PAGE
  {
  }

  /** The least address from `x` on that is a multiple of `a`. */
  ghost predicate LeastAligned(x: nat, a: nat, r: nat)
    requires a > 0
  {
    x <= r && r % a == 0 && forall y: nat | x <= y && y % a == 0 :: r <= y
  }

  /** The memory grows only when bytes are missing and the host allows it, and then just as far as needed. */
  ghost predicate GrownFor(before: nat, after: nat, bytes: nat, grant: bool) {
    if bytes <= before * PAGE || !grant then after == before
    else bytes <= after * PAGE && (after > 0 ==> (after - 1) * PAGE < bytes)
  }

  lemma GrowsRight(bytes: nat, before: nat, after: nat, grant: bool)
    requires bytes + 65535 < WORD
    requires after == if before < PagesFor(bytes) && grant then PagesFor(bytes) else before
    ensures GrownFor(before, after, bytes, grant)
  {
    PagesCover(bytes, before);
    PagesCover(bytes, after);
    if after > 0 {
      PagesCover(bytes, after - 1);
    }
  }

  lemma LeastIsOne(x: nat, a: nat, r: nat, p: nat)
    requires a > 0 && LeastAligned(x, a, r) && LeastAligned(x, a, p)
    ensures r == p
  {
  }

  /** Where the global allocator puts a block when no address overflows. */
  lemma Placed(ptr: nat, size: nat, k: nat)
    requires k <= 31 && NoOverflow(ptr, size, k)
    ensures 0 < Pow2(k) <= Pow2(32)
    ensures var aligned := MaskUp(ptr, Pow2(k));
            && ptr <= aligned < ptr + Pow2(k) && aligned % Pow2(k) == 0 && Wrap(aligned + size) == aligned + size
            && LeastAligned(ptr, Pow2(k), aligned)
            && aligned + size + 65535 < WORD
  {
    hide MaskUp, Pow2, And, Not;
    MaskUpAligns(ptr, k);
  }

  lemma PlacedExactly(ptr: nat, size: nat, k: nat, before: nat, after: nat, grant: bool)
    requires k <= 31 && NoOverflow(ptr, size, k) && Pow2(k) <= Pow2(32)
    requires var needed := PagesFor(Wrap(MaskUp(ptr, Pow2(k)) + size));
             after == if before < needed && grant then needed else before
    ensures var aligned := MaskUp(ptr, Pow2(k));
            && (PagesFor(Wrap(aligned + size)) <= before <==> aligned + size <= before * PAGE)
            && forall p: nat | LeastAligned(ptr, Pow2(k), p) ::
                 p == aligned && GrownFor(before, after, p + size, grant)
  {
    hide MaskUp, Pow2, PagesFor;
    var aligned := MaskUp(ptr, Pow2(k));
    Placed(ptr, size, k);
    PagesCover(aligned + size, before);
    GrowsRight(aligned + size, before, after, grant);
    hide GrownFor, NoOverflow, Wrap;
    forall p: nat | LeastAligned(ptr, Pow2(k), p) ensures p == aligned {
      LeastIsOne(ptr, Pow2(k), aligned, p);
    }
  }

  /** Where a block of the host heap ends, rounded up to eight. */
  ghost predicate HostEnd(ptr: nat, size: nat, e: nat) {
    LeastAligned(ptr + size, 8, e)
  }

  lemma HostPlacedExactly(ptr: nat, size: nat, before: nat, after: nat, grant: bool)
    requires ptr % 8 == 0 && ptr + size + 7 + 65535 < WORD && 8 <= Pow2(32)
    requires var needed := PagesFor(Wrap(ptr + MaskUp(size, 8)));
             after == if before < needed && grant then needed else before
    ensures var end := Wrap(ptr + MaskUp(size, 8));
            && (PagesFor(end) <= before <==> end <= before * PAGE)
            && forall e: nat | HostEnd(ptr, size, e) :: e == end && GrownFor(before, after, e, grant)
  {
    hide MaskUp, Pow2, PagesFor, Wrap;
    var end := Wrap(ptr + MaskUp(size, 8));
    HostPlaced(ptr, size);
    PagesCover(end, before);
    GrowsRight(end, before, after, grant);
    hide GrownFor;
    forall e: nat | HostEnd(ptr, size, e) ensures e == end {
      NextEight(ptr + size, end, e);
    }
  }

  lemma NextEight(x: nat, end: nat, e: nat)
    requires end % 8 == 0 && x <= end < x + 8 && LeastAligned(x, 8, e)
    ensures e == end
  {
  }

  /** Where the host heap ends after a block when no address overflows. */
  lemma HostPlaced(ptr: nat, size: nat)
    requires ptr % 8 == 0 && ptr + size + 7 + 65535 < WORD
    ensures 8 <= Pow2(32)
    ensures var end := Wrap(ptr + MaskUp(size, 8));
            end % 8 == 0 && ptr + size <= end < ptr + size + 8 && end + 65535 < WORD
  {
    hide MaskUp, Pow2;
    RoundUpToEight(size);
    MultiplesOfEight(ptr, MaskUp(size, 8));
  }

  class GuestMemory {
    var allocPtr: nat
    var heapPtr: nat
    var pages: nat
    var bytes: map<nat, bv8>
    ghost var globals: seq<Block>
    ghost var hosts: seq<Block>
    /** What was written for the host, block by block. */
    ghost var written: seq<(nat, seq<bv8>)>

    ghost predicate Valid()
      reads this
    {
      && GLOBAL_START <= allocPtr && Laid(globals, GLOBAL_START, allocPtr, pages)
      && (heapPtr == 0 ==> hosts == [])
      && (heapPtr != 0 ==> HOST_START <= heapPtr)
      && heapPtr % 8 == 0
      && Laid(hosts, HOST_START, HeapStart(heapPtr), pages)
      && (forall w <- written :: w.0 + |w.1| <= heapPtr && Reads(bytes, w.0, w.1))
    }

    constructor (pages: nat)
      ensures Valid() && allocPtr == GLOBAL_START && heapPtr == 0 && this.pages == pages
      ensures globals == [] && hosts == [] && written == []
    {
      allocPtr, heapPtr, this.pages, bytes := 65536, 0, pages, map[];
      globals, hosts, written := [], [], [];
    }

    /** `memory_grow` when there are too few pages; the host may refuse. */
    method EnsurePages(needed: nat, grant: bool) returns (ok: bool)
      modifies this`pages
      ensures ok <==> needed <= old(pages) || grant
      ensures pages == if old(pages) < needed && grant then needed else old(pages)
    {
      if needed > pages {
        if !grant {
          return false;
        }
        pages := pages + (needed - pages);
      }
      return true;
    }

    /** The global allocator. Null is address zero. */
    method Alloc(size: nat, k: nat, grant: bool) returns (ptr: nat)
      requires Valid() && k <= 31 && size < WORD
      modifies this`allocPtr, this`pages, this`globals
      ensures size == 0 ==> ptr == Pow2(k) && Valid() && unchanged(this)
      ensures size > 0 && NoOverflow(old(allocPtr), size, k) ==>
                && Valid() && pages >= old(pages)
                && (ptr == 0 ==> allocPtr == old(allocPtr) && globals == old(globals))
                && (ptr != 0 ==> globals == old(globals) + [Block(ptr, size)] && ptr % Pow2(k) == 0
                                 && old(allocPtr) <= ptr < old(allocPtr) + Pow2(k) && allocPtr == ptr + size)
                && (grant ==> ptr != 0)
      ensures size > 0 && NoOverflow(old(allocPtr), size, k) ==>
                forall p: nat | LeastAligned(old(allocPtr), Pow2(k), p) ::
                  && (ptr == 0 <==> !grant && p + size > old(pages) * PAGE)
                  && (ptr != 0 ==> ptr == p) && GrownFor(old(pages), pages, p + size, grant)
    {
      hide Laid, Reads, MaskUp, PagesFor, Pow2, LeastAligned, GrownFor;
      var align := Pow2(k);
      if size == 0 {
        return align;
      }
      WordIsPow2();
      Pow2Monotone(k, 32);
      var aligned := MaskUp(allocPtr, align);
      var newPtr := Wrap(aligned + size);
      var ok := EnsurePages(PagesFor(newPtr), grant);
      LaidInMore(globals, GLOBAL_START, allocPtr, old(pages), pages);
      LaidInMore(hosts, HOST_START, HeapStart(heapPtr), old(pages), pages);
      if NoOverflow(old(allocPtr), size, k) {
        PlacedExactly(old(allocPtr), size, k, old(pages), pages, grant);
      }
      if !ok {
        return 0;
      }
      ghost var before := allocPtr;
      allocPtr := newPtr;
      if NoOverflow(before, size, k) {
        Placed(before, size, k);
        PagesCover(newPtr, pages);
        LaidMore(globals, GLOBAL_START, before, pages, Block(aligned, size), newPtr, pages);
        globals := globals + [Block(aligned, size)];
      }
      return aligned;
    }

    /** The host heap's pointer, set up on first use. */
    method InitHeapPtr() returns (ptr: nat)
      requires Valid()
      modifies this`heapPtr
      ensures Valid() && ptr == heapPtr == HeapStart(old(heapPtr))
      ensures if old(heapPtr) == 0 then heapPtr == 131072 else heapPtr == old(heapPtr)
    {
      if heapPtr == 0 {
        heapPtr := 131072;
      }
      return heapPtr;
    }

    /** The host-visible allocator: room for `size` bytes, rounded up to a multiple of eight. */
    method RustRedAlloc(size: nat, grant: bool) returns (ptr: nat)
      requires Valid() && size < WORD
      modifies this`heapPtr, this`pages, this`hosts
      ensures HeapStart(old(heapPtr)) + size + 7 + 65535 < WORD ==>
                && Valid() && pages >= old(pages)
                && (ptr == 0 ==> heapPtr == HeapStart(old(heapPtr)) && hosts == old(hosts))
                && (ptr != 0 ==>
                    hosts == old(hosts) + [Block(ptr, size)] && ptr == HeapStart(old(heapPtr)) && ptr % 8 == 0
                                 && ptr + size <= heapPtr < ptr + size + 8)
                && (grant ==> ptr != 0)
      ensures HeapStart(old(heapPtr)) + size + 7 + 65535 < WORD ==>
                forall e: nat | HostEnd(HeapStart(old(heapPtr)), size, e) ::
                  && (ptr == 0 <==> !grant && e > old(pages) * PAGE)
                  && (ptr != 0 ==> heapPtr == e) && GrownFor(old(pages), pages, e, grant)
    {
      hide Laid, Reads, MaskUp, PagesFor, Wrap, Pow2, HostEnd, GrownFor;
      ptr := InitHeapPtr();
      RoundUpToEight(size);
      var aligned := MaskUp(size, 8);
      var newHeap := Wrap(ptr + aligned);
      ghost var fits := ptr + size + 7 + 65535 < WORD;
      if fits {
        HostPlaced(ptr, size);
      }
      var ok := EnsurePages(PagesFor(newHeap), grant);
      LaidInMore(globals, GLOBAL_START, allocPtr, old(pages), pages);
      LaidInMore(hosts, HOST_START, ptr, old(pages), pages);
      if fits {
        HostPlacedExactly(ptr, size, old(pages), pages, grant);
      }
      if !ok {
        return 0;
      }
      heapPtr := newHeap;
      if fits {
        PagesCover(newHeap, pages);
        LaidMore(hosts, HOST_START, ptr, pages, Block(ptr, size), newHeap, pages);
        hosts := hosts + [Block(ptr, size)];
      }
    }

    /** Copies data into a new block. Everything written earlier stays readable. */
    method WriteToHost(data: seq<bv8>, grant: bool) returns (ptr: nat)
      requires Valid() && |data| < WORD
      modifies this`heapPtr, this`pages, this`hosts, this`bytes, this`written
      ensures HeapStart(old(heapPtr)) + |data| + 7 + 65535 < WORD ==>
                && Valid()
                && (ptr == 0 ==> written == old(written) && bytes == old(bytes))
                && (ptr != 0 ==> written == old(written) + [(ptr, data)] && hosts == old(hosts) + [Block(ptr, |data|)])
                && (grant ==> ptr != 0)
      ensures forall a | a in bytes && !(ptr <= a < ptr + |data|) :: a in old(bytes) && bytes[a] == old(bytes)[a]
      ensures forall a <- old(bytes) :: a in bytes
    {
      ptr := RustRedAlloc(|data|, grant);
      if ptr == 0 {
        return;
      }
      hide Laid, Reads;
      var mem: map<nat, bv8> := bytes;
      ReadsNothing(mem, ptr);
      for i := 0 to |data|
        invariant forall a | a in bytes && a < ptr :: a in mem && mem[a] == bytes[a]
        invariant forall a | a in mem && !(ptr <= a < ptr + i) :: a in bytes && mem[a] == bytes[a]
        invariant forall a <- bytes :: a in mem
        invariant Reads(mem, ptr, data[..i])
        modifies {}
      {
        ReadsOneMore(mem, ptr, data[..i], data[i]);
        assert data[..i + 1] == data[..i] + [data[i]];
        mem := mem[ptr + i := data[i]];
      }
      assert data[..|data|] == data;
      ghost var before := bytes;
      bytes := mem;
      if HeapStart(old(heapPtr)) + |data| + 7 + 65535 < WORD {
        forall w | w in written ensures w.0 + |w.1| <= ptr && Reads(bytes, w.0, w.1) {
          assert w in old(written);
          ReadsBelow(before, bytes, w.0, w.1, ptr);
        }
        written := written + [(ptr, data)];
      }
    }

    /** Reads bytes back. */
    method ReadFromHost(start: nat, len: nat) returns (data: seq<bv8>)
      requires forall a | start <= a < start + len :: a in bytes
      ensures |data| == len && Reads(bytes, start, data)
    {
      data := [];
      for i := 0 to len
        invariant |data| == i && Reads(bytes, start, data)
      {
        ReadsOneMore(bytes, start, data, bytes[start + i]);
        assert bytes[start + i := bytes[start + i]] == bytes;
        data := data + [bytes[start + i]];
      }
    }

    /** Blocks of one heap never overlap; blocks of the two heaps cannot while the global heap stays
        below the start of the other. */
    lemma BlocksApart()
      requires Valid()
      ensures forall i, j | 0 <= i < j < |globals| :: Apart(globals[i], globals[j])
      ensures forall i, j | 0 <= i < j < |hosts| :: Apart(hosts[i], hosts[j])
      ensures allocPtr <= HOST_START ==> forall g, h | g in globals && h in hosts :: Apart(g, h)
    {
    }

    /** Addresses between the start of a heap and its pointer. */
    ghost predicate GlobalUses(a: nat)
      reads this
    {
      GLOBAL_START <= a < allocPtr
    }

    ghost predicate HostUses(a: nat)
      reads this
    {
      HOST_START <= a < heapPtr
    }

    /** In every reached state, the heaps have used a common address exactly when both have used the
        first one of the host heap, and only then can blocks of the two overlap. */
    lemma HeapsMeetIff()
      requires Valid()
      ensures (exists a :: GlobalUses(a) && HostUses(a)) <==> GlobalUses(HOST_START) && HostUses(HOST_START)
      ensures forall g, h | g in globals && h in hosts && !Apart(g, h) && h.size > 0 ::
                GlobalUses(HOST_START) && HostUses(HOST_START)
    {
    }
  }

  /** Reading a block back gives exactly what was written to it. */
  lemma ReadBack(bytes: map<nat, bv8>, start: nat, data: seq<bv8>, got: seq<bv8>)
    requires Reads(bytes, start, data) && Reads(bytes, start, got) && |got| == |data|
    ensures got == data
  {
    forall i | 0 <= i < |data| ensures got[i] == data[i] {
      assert bytes[start + i] == data[start + i - start];
    }
  }

  function HeapStart(heapPtr: nat): nat {
    if heapPtr == 0 then HOST_START else heapPtr
  }

  lemma MultiplesOfEight(a: nat, b: nat)
    requires a % 8 == 0 && b % 8 == 0
    ensures (a + b) % 8 == 0
  {
  }

  lemma RoundUpToEight(size: nat)
    requires size < WORD
    ensures 8 <= Pow2(32)
    ensures size + 7 < WORD ==> var r := MaskUp(size, 8); size <= r < size + 8 && r % 8 == 0
  {
    WordIsPow2();
    assert Pow2(3) == 8;
    if size + 7 < WORD {
      MaskUpAligns(size, 3);
    }
  }

  lemma ReadsNothing(bytes: map<nat, bv8>, start: nat)
    ensures Reads(bytes, start, [])
  {
  }

  lemma ReadsOneMore(bytes: map<nat, bv8>, start: nat, data: seq<bv8>, b: bv8)
    requires Reads(bytes, start, data)
    ensures Reads(bytes[start + |data| := b], start, data + [b])
  {
  }

  lemma ReadsBelow(bytes: map<nat, bv8>, bytes': map<nat, bv8>, start: nat, data: seq<bv8>, limit: nat)
    requires Reads(bytes, start, data) && start + |data| <= limit
    requires forall a | a in bytes && a < limit :: a in bytes' && bytes'[a] == bytes[a]
    ensures Reads(bytes', start, data)
  {
  }

  /** Nothing keeps the global heap out: a first block of 65537 bytes covers the host's first byte. */
  method HeapsCanMeet() returns (p: nat, q: nat)
    ensures p <= q < p + 65537
  {
    var m := new GuestMemory(1);
    assert Pow2(0) == 1;
    p := m.Alloc(65537, 0, true);
    q := m.RustRedAlloc(8, true);
  }

  /** No address computed on the way exceeds 32 bits. */
  ghost predicate NoOverflow(ptr: nat, size: nat, k: nat) {
    ptr + Pow2(k) - 1 + size + 65535 < WORD
  }

  predicate Reads(bytes: map<nat, bv8>, start: nat, data: seq<bv8>) {
    forall a | start <= a < start + |data| :: a in bytes && bytes[a] == data[a - start]
  }
}
