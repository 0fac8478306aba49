/** The hardware's own walk, as the RISC-V Privileged Architecture defines it, beside the maps
    the kernel's tables stand for and the kernel's walk. */
module Sv39Walk {
  import opened Basics
  import opened PageTable

  datatype Access = ToLoad | ToStore | ToFetch

  datatype Translation = PageFault | Page(frame: nat)

  predicate EndsWalk(pte: u64) { Readable(pte) || Executable(pte) }

  /** U, A or D, which are reserved in an entry that does not end the walk. */
  predicate LeafBits(pte: u64) { UserPage(pte) || Accessed(pte) || Dirty(pte) }

  /** Invalid, writable but not readable, or with a reserved bit set: any from 54 up, and those
      that only leaves have. */
  predicate Faults(pte: u64) {
    || !IsValid(pte) || (Writable(pte) && !Readable(pte)) || pte / 0x40_0000_0000_0000 != 0
    || (!EndsWalk(pte) && LeafBits(pte))
  }

  predicate UserPage(pte: u64) { pte / 16 % 2 == 1 }

  predicate Accessed(pte: u64) { pte / 64 % 2 == 1 }

  predicate Dirty(pte: u64) { pte / 128 % 2 == 1 }

  /** The leaf grants the access in supervisor mode, with SUM and MXR clear. */
  predicate Permits(pte: u64, access: Access) {
    && !UserPage(pte)
    && match access
       case ToLoad => Readable(pte)
       case ToStore => Writable(pte)
       case ToFetch => Executable(pte)
  }

  /** A leaf met `span` pages above page granularity, for the page at `offset` in it. A clear A
      bit, or a clear D bit on a store, faults: the hardware does not set them itself. */
  function Leaf(pte: u64, span: nat, offset: nat, access: Access): Translation
    requires span > 0
  {
    if !Permits(pte, access) || FrameOf(pte) % span != 0 || !Accessed(pte) || (access == ToStore && !Dirty(pte))
    then PageFault
    else Page(FrameOf(pte) + offset)
  }

  function Sv39(mem: Memory, root: nat, x: Index, access: Access): Translation {
    var e2 := WordAt(mem, root, x.i);
    if Faults(e2) then PageFault
    else if EndsWalk(e2) then Leaf(e2, 0x4_0000, 512 * x.j + x.k, access)
    else
      var e1 := WordAt(mem, FrameOf(e2), x.j);
      if Faults(e1) then PageFault
      else if EndsWalk(e1) then Leaf(e1, 512, x.k, access)
      else
        var e0 := WordAt(mem, FrameOf(e1), x.k);
        if Faults(e0) || !EndsWalk(e0) then PageFault else Leaf(e0, 1, 0, access)
  }

  /** The place of the last entry the hardware reads for `x`. */
  function LastRead(mem: Memory, root: nat, x: Index): (nat, nat) {
    var e2 := WordAt(mem, root, x.i);
    if Faults(e2) || EndsWalk(e2) then (root, x.i) else
    var e1 := WordAt(mem, FrameOf(e2), x.j);
    if Faults(e1) || EndsWalk(e1) then (FrameOf(e2), x.j) else (FrameOf(e1), x.k)
  }

  // ----- tables the kernel builds -----

  lemma HighFields(frame: nat, low: nat, p: nat)
    requires low < 0x400 && p == frame * 0x400 + low
    ensures p / 16 % 2 == low / 16 % 2 && p / 64 % 2 == low / 64 % 2 && p / 128 % 2 == low / 128 % 2
  {
    Peel(frame * 0x20, low / 16);
    Peel(frame * 0x8, low / 64);
    Peel(frame * 0x4, low / 128);
  }

  lemma PointerGoesOn(frame: nat)
    requires frame < FRAMES
    ensures var p := Pointer(frame); !Faults(p) && !EndsWalk(p)
  {
    PointerDecodes(frame);
    LowFields(frame, 1, Pointer(frame));
    HighFields(frame, 1, Pointer(frame));
  }

  /** The words themselves, for frame 0x8_0000. */
  lemma KernelWords()
    ensures LeafPte(0x8_0000, true, true) == 0x2000_00C7 && LeafPte(0x8_0000, true, false) == 0x2000_00C3
    ensures Pointer(0x8_0000) == 0x2000_0001
  {
  }

  lemma LeafEnds(frame: nat, r: bool, w: bool)
    requires frame < NUMBERS
    ensures var p := LeafPte(frame, r, w);
      && (EndsWalk(p) <==> r) && (Faults(p) <==> !r || frame >= FRAMES)
      && (Leaf(p, 1, 0, ToLoad) == if r then Page(frame) else PageFault)
      && (Leaf(p, 1, 0, ToStore) == if w then Page(frame) else PageFault)
      && Leaf(p, 1, 0, ToFetch) == PageFault
  {
    LeafDecodes(frame, r, w);
    HighFields(frame, LeafPte(frame, r, w) - frame * 0x400, LeafPte(frame, r, w));
  }

  /** For every root and page: a load goes through if and only if the map grants reading and the
      frame is below 2^56 bytes, a store if and only if the map grants writing as well, and a
      fetch never; and then to the frame the map records. A write-only mapping is recorded but
      faults, since W without R is a reserved encoding. */
  lemma HardwareFollowsViews(mem: Memory, tags: Tags, views: map<nat, map<nat, Mapping>>, root: nat, page: nat,
                             access: Access)
    requires Forest(mem, tags) && Refines(mem, tags, views) && IsRoot(tags, root) && page < PAGES
    ensures var v := views[root];
      Sv39(mem, root, Split(page), access) ==
        if page in v && v[page].r && v[page].frame < FRAMES && (access == ToLoad || (access == ToStore && v[page].w))
        then Page(v[page].frame) else PageFault
  {
    var x := Split(page);
    assert Represents(mem, root, views[root]);
    PathTags(mem, tags, root, x);
    var e2 := WordAt(mem, root, x.i);
    if IsValid(e2) {
      assert TableOk(mem, tags, root) && EntryOk(tags, e2, Tag(root, Mid(x.i)));
      PointerGoesOn(FrameOf(e2));
      var e1 := WordAt(mem, FrameOf(e2), x.j);
      if IsValid(e1) {
        assert TableOk(mem, tags, FrameOf(e2)) && EntryOk(tags, e1, Tag(root, Low(x.i, x.j)));
        PointerGoesOn(FrameOf(e1));
        var e0 := WordAt(mem, FrameOf(e1), x.k);
        if IsValid(e0) {
          assert TableOk(mem, tags, FrameOf(e1)) && LeafOk(e0);
          LeafEnds(FrameOf(e0), Readable(e0), Writable(e0));
        }
      }
    }
  }

  // ----- tables shared with a process -----

  /** Below a good top-level entry, with a valid middle one, the kernel's walk ends at the entry
      the hardware reads last if and only if the middle entry is a good pointer to a table. (Or
      a leaf that maps its own table, at its own index.) */
  lemma WalkAgreesIff(mem: Memory, root: nat, x: Index)
    requires var e2 := WordAt(mem, root, x.i); !Faults(e2) && !EndsWalk(e2) && IsValid(WordAt(mem, FrameOf(e2), x.j))
    ensures var e2 := WordAt(mem, root, x.i); var e1 := WordAt(mem, FrameOf(e2), x.j);
      WalkOn(mem, root, x) == Some(LastRead(mem, root, x)) <==>
        (!Faults(e1) && !EndsWalk(e1)) || (FrameOf(e1) == FrameOf(e2) && x.k == x.j)
  {
    NoAccessBits(WordAt(mem, root, x.i));
  }

  lemma EightTimes(c: nat, r: nat)
    requires r < 8
    ensures (8 * c + r) % 8 == r
  {
  }

  lemma ThreeBits(b: nat)
    ensures b % 8 == 0 <==> b % 2 == 0 && b / 2 % 2 == 0 && b / 2 / 2 % 2 == 0
  {
    var c := b / 2 / 2 / 2;
    var r := b % 2 + 2 * (b / 2 % 2) + 4 * (b / 2 / 2 % 2);
    assert b == 8 * c + r;
    EightTimes(c, r);
  }

  lemma NoAccessBits(pte: u64)
    requires !Faults(pte) && !EndsWalk(pte)
    ensures IsValid(pte) && !IsLeaf(pte)
  {
    HalvesOfHalves(pte);
    ThreeBits(pte / 2);
  }

  /** Under a 2 MiB leaf the walk ends in the first frame the leaf maps for data. */
  lemma SuperpageTakenForTable(mem: Memory, root: nat, x: Index, e1: u64, access: Access)
    requires var e2 := WordAt(mem, root, x.i); !Faults(e2) && !EndsWalk(e2) && WordAt(mem, FrameOf(e2), x.j) == e1
    requires !Faults(e1) && EndsWalk(e1) && Leaf(e1, 512, x.k, access) != PageFault
    ensures WalkOn(mem, root, x) == Some((FrameOf(e1), x.k))
    ensures Sv39(mem, root, x, access) == Page(FrameOf(e1) + x.k)
  {
    NoAccessBits(WordAt(mem, root, x.i));
  }

  /** The memory after an unmap through the kernel's walk. */
  function Unmapped(mem: Memory, root: nat, x: Index): Memory {
    var found := WalkOn(mem, root, x);
    if found == None || found.value.0 !in mem || found.value.1 >= |mem[found.value.0]| then mem
    else Store(mem, found.value.0, found.value.1, 0)
  }

  /** Unmapping a page that the hardware translates takes effect if and only if the two upper
      entries are pointers. A 1 GiB leaf is left alone. A 2 MiB leaf is taken for a table: the
      page stays mapped, and a word of the memory the leaf maps is overwritten. (The last entry
      is not itself one of the upper ones.) */
  lemma UnmapTakesEffectIff(mem: Memory, root: nat, x: Index, access: Access)
    requires x.k < 512 && Sv39(mem, root, x, access) != PageFault
    requires var e2 := WordAt(mem, root, x.i); var e1 := WordAt(mem, FrameOf(e2), x.j);
      EndsWalk(e2) ||
      (&& FrameOf(e1) in mem && |mem[FrameOf(e1)]| == 512
       && (FrameOf(e1), x.k) != (root, x.i) && (FrameOf(e1), x.k) != (FrameOf(e2), x.j))
    ensures var e2 := WordAt(mem, root, x.i); var e1 := WordAt(mem, FrameOf(e2), x.j);
      && (Sv39(Unmapped(mem, root, x), root, x, access) == PageFault <==> !EndsWalk(e2) && !EndsWalk(e1))
      && (EndsWalk(e2) ==> Unmapped(mem, root, x) == mem)
      && (!EndsWalk(e2) && EndsWalk(e1) ==>
            && Unmapped(mem, root, x) == Store(mem, FrameOf(e1), x.k, 0)
            && Sv39(Unmapped(mem, root, x), root, x, access) == Sv39(mem, root, x, access))
  {
    var e2 := WordAt(mem, root, x.i);
    if EndsWalk(e2) {
      AccessBits(e2);
    } else {
      NoAccessBits(e2);
    }
  }

  lemma AccessBits(pte: u64)
    requires EndsWalk(pte)
    ensures IsLeaf(pte)
  {
    HalvesOfHalves(pte);
    ThreeBits(pte / 2);
  }

  /** The walk and the unmap as the code does them, on any memory. */
  method WalkShared(mem: Memory, root: nat, va: nat) returns (r: Option<(nat, nat)>)
    ensures r == WalkOn(mem, root, Split(va / 4096))
  {
    var vpn2 := va / 0x4000_0000 % 512;
    var vpn1 := va / 0x20_0000 % 512;
    var vpn0 := va / 0x1000 % 512;
    IndexOfAddress(va);
    var e2 := WordAt(mem, root, vpn2);
    if !IsValid(e2) {
      return None;
    }
    if IsLeaf(e2) {
      return None;
    }
    var e1 := WordAt(mem, FrameOf(e2), vpn1);
    if !IsValid(e1) {
      return None;
    }
    return Some((FrameOf(e1), vpn0));
  }

  method UnmapShared(mem: Memory, root: nat, va: nat) returns (mem': Memory)
    ensures mem' == Unmapped(mem, root, Split(va / 4096))
  {
    mem' := mem;
    var found := WalkShared(mem, root, va);
    if found.Some? && found.value.0 in mem && found.value.1 < |mem[found.value.0]| {
      mem' := Store(mem, found.value.0, found.value.1, 0);
    }
  }
}
