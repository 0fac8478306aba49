/** Sv39 page-table words and trees in physical memory, and the simple map they stand for:
    from page number to (frame, r, w). Physical memory is a map from frame number (physical
    address divided by 4096) to 512 words. */
module PageTable {
  import opened Basics

  type Memory = map<nat, seq<u64>>

  const FRAMES: nat := 0x1000_0000_0000   // frames below 2^56 bytes, all the hardware can address
  const NUMBERS: nat := 0x10_0000_0000_0000   // frame numbers of 64-bit addresses, all an entry can hold
  const PAGES: nat := 0x800_0000          // page numbers are address bits 12 to 38

  // ----- page-table entries: V=bit 0, R=1, W=2, X=3, A=6, D=7, frame number from bit 10 -----

  predicate IsValid(pte: u64) { pte % 2 == 1 }
  predicate Readable(pte: u64) { pte / 2 % 2 == 1 }
  predicate Writable(pte: u64) { pte / 4 % 2 == 1 }
  predicate Executable(pte: u64) { pte / 8 % 2 == 1 }
  predicate IsLeaf(pte: u64) { pte / 2 % 8 != 0 }

  /** `((pte >> 10) << 12) >> 12` in 64 bits. */
  function FrameOf(pte: u64): nat { pte / 0x400 % NUMBERS }

  function Pointer(frame: nat): u64
    requires frame < FRAMES
  {
    frame * 0x400 + 1
  }

  function LeafPte(frame: nat, r: bool, w: bool): u64
    requires frame < NUMBERS
  {
    frame * 0x400 + 1 + (if r then 2 else 0) + (if w then 4 else 0) + 0x40 + 0x80
  }

  lemma Peel(a: nat, b: nat)
    ensures (2 * a + b) % 2 == b % 2 && (2 * a + b) / 2 == a + b / 2
  {
  }

  lemma FrameAbove(frame: nat, low: nat)
    requires frame < NUMBERS && low < 0x400
    ensures FrameOf(frame * 0x400 + low) == frame
  {
    assert (frame * 0x400 + low) / 0x400 == frame;
  }

  lemma HalvesOfHalves(p: nat)
    ensures p / 4 == p / 2 / 2 && p / 8 == p / 2 / 2 / 2
  {
  }

  /** The fields below bit 10 do not depend on the frame number above. */
  lemma LowFields(frame: nat, low: nat, p: nat)
    requires low < 0x400 && p == frame * 0x400 + low
    ensures p % 2 == low % 2 && p / 2 % 2 == low / 2 % 2 && p / 4 % 2 == low / 4 % 2 && p / 8 % 2 == low / 8 % 2
  {
    HalvesOfHalves(p);
    HalvesOfHalves(low);
    Peel(frame * 0x200, low);
    Peel(frame * 0x100, low / 2);
    Peel(frame * 0x80, low / 2 / 2);
    Peel(frame * 0x40, low / 2 / 2 / 2);
  }

  lemma PointerDecodes(frame: nat)
    requires frame < FRAMES
    ensures IsValid(Pointer(frame)) && !IsLeaf(Pointer(frame)) && FrameOf(Pointer(frame)) == frame
  {
    FrameAbove(frame, 1);
    Peel(frame * 0x200, 1);
    assert frame * 0x200 == 8 * (frame * 0x40);
  }

  lemma LeafDecodes(frame: nat, r: bool, w: bool)
    requires frame < NUMBERS
    ensures var p := LeafPte(frame, r, w);
      && IsValid(p) && FrameOf(p) == frame && (Readable(p) <==> r) && (Writable(p) <==> w) && !Executable(p)
  {
    var low := if r then if w then 0xC7 else 0xC3 else if w then 0xC5 else 0xC1;
    FrameAbove(frame, low);
    LowFields(frame, low, LeafPte(frame, r, w));
  }

  // ----- the abstract map -----

  /** What a table records for one page. */
  datatype Mapping = Mapping(frame: nat, r: bool, w: bool)

  function WordAt(mem: Memory, frame: nat, i: nat): u64 {
    if frame in mem && i < |mem[frame]| then mem[frame][i] else 0
  }

  /** The three 9-bit indices of a page number. */
  datatype Index = Index(i: nat, j: nat, k: nat)

  function Split(page: nat): Index {
    Index(page / 0x4_0000 % 512, page / 512 % 512, page % 512)
  }

  lemma SplitRecovers(page: nat)
    requires page < PAGES
    ensures var x := Split(page); page == 0x4_0000 * x.i + 512 * x.j + x.k
  {
  }

  lemma DivideOut(q: nat, p: nat)
    ensures (0x4_0000 * (512 * q) + p) / 0x4_0000 == 512 * q + p / 0x4_0000
    ensures (512 * (0x4_0000 * q) + p) / 512 == 0x4_0000 * q + p / 512
  {
  }

  /** Address bits from 39 up do not take part. */
  lemma SplitIgnoresHighBits(page: nat)
    ensures Split(page) == Split(page % PAGES)
  {
    var q, p := page / PAGES, page % PAGES;
    assert page == 0x4_0000 * (512 * q) + p;
    DivideOut(q, p);
    ModOut(512, q, p / 0x4_0000);
    ModOut(512, 512 * q, p / 512);
    ModOut(512, 0x4_0000 * q, p);
  }

  lemma SplitInjective(a: nat, b: nat)
    requires a < PAGES && b < PAGES
    ensures Split(a) == Split(b) <==> a == b
  {
    SplitRecovers(a);
    SplitRecovers(b);
  }

  lemma IndexOfAddress(va: nat)
    ensures Split(va / 4096) == Index(va / 0x4000_0000 % 512, va / 0x20_0000 % 512, va / 0x1000 % 512)
  {
    assert va / 4096 / 0x4_0000 == va / 0x4000_0000 && va / 4096 / 512 == va / 0x20_0000;
  }

  /** The mapping recorded under `root` for the page with index `x`. */
  function Lookup(mem: Memory, root: nat, x: Index): Option<Mapping> {
    var e2 := WordAt(mem, root, x.i);
    if !IsValid(e2) then None else
    var e1 := WordAt(mem, FrameOf(e2), x.j);
    if !IsValid(e1) then None else
    var e0 := WordAt(mem, FrameOf(e1), x.k);
    if !IsValid(e0) then None else Some(Mapping(FrameOf(e0), Readable(e0), Writable(e0)))
  }

  /** `v` is the simple partial map the table stands for: page number to mapping. */
  ghost predicate Represents(mem: Memory, root: nat, v: map<nat, Mapping>) {
    && (forall n :: n in v ==> n < PAGES)
    && (forall n: nat {:trigger Split(n)} :: n < PAGES ==>
          Lookup(mem, root, Split(n)) == if n in v then Some(v[n]) else None)
  }

  /** A table stands for one map only. */
  lemma RepresentsUnique(mem: Memory, root: nat, v: map<nat, Mapping>, v': map<nat, Mapping>)
    requires Represents(mem, root, v) && Represents(mem, root, v')
    ensures v == v'
  {
    forall n | n in v || n in v'
      ensures n in v && n in v' && v[n] == v'[n]
    {
      var x := Split(n);
    }
  }

  // ----- well-formed forests of tables -----

  datatype Place = Root | Mid(i: nat) | Low(i: nat, j: nat)

  /** Which table of which root a frame holds. */
  datatype Tag = Tag(root: nat, place: Place)

  type Tags = map<nat, Tag>

  /** A valid entry of an upper table points to the table tagged for that very slot. */
  ghost predicate EntryOk(tags: Tags, pte: u64, child: Tag) {
    IsValid(pte) ==>
      && !IsLeaf(pte) && FrameOf(pte) in tags && tags[FrameOf(pte)] == child
      && FrameOf(pte) < FRAMES && pte == Pointer(FrameOf(pte))
  }

  /** A valid entry of a low table is a leaf as the kernel writes it. */
  ghost predicate LeafOk(pte: u64) {
    IsValid(pte) ==> pte == LeafPte(FrameOf(pte), Readable(pte), Writable(pte))
  }

  ghost predicate TableOk(mem: Memory, tags: Tags, f: nat)
    requires f in tags
  {
    && f in mem && |mem[f]| == 512
    && match tags[f].place
       case Root => tags[f].root == f &&
         forall i: nat :: i < 512 ==> EntryOk(tags, mem[f][i], Tag(f, Mid(i)))
       case Mid(i) =>
         forall j: nat :: j < 512 ==> EntryOk(tags, mem[f][j], Tag(tags[f].root, Low(i, j)))
       case Low(_, _) => forall k: nat :: k < 512 ==> LeafOk(mem[f][k])
  }

  /** Every tagged frame is a table whose valid entries lead to the right tables. Since a frame
      has one tag, the tables under all the roots form disjoint trees of distinct pages. */
  ghost predicate Forest(mem: Memory, tags: Tags) {
    forall f {:trigger TableOk(mem, tags, f)} :: f in tags ==> TableOk(mem, tags, f)
  }

  /** A whole frame that holds no table. */
  ghost predicate Spare(mem: Memory, tags: Tags, f: nat) {
    f < FRAMES && f in mem && |mem[f]| == 512 && f !in tags
  }

  /** The page allocator's stock: distinct frames below 2^56 bytes, holding no table. */
  ghost predicate Stock(mem: Memory, tags: Tags, free: seq<nat>) {
    && (forall a, b :: 0 <= a < b < |free| ==> free[a] != free[b])
    && (forall f {:trigger Spare(mem, tags, f)} :: f in free ==> Spare(mem, tags, f))
  }

  ghost predicate IsRoot(tags: Tags, root: nat) {
    root in tags && tags[root] == Tag(root, Root)
  }

  /** The low table for slot (i, j) under `root` exists. */
  ghost predicate Linked(mem: Memory, root: nat, i: nat, j: nat, low: nat) {
    var e2 := WordAt(mem, root, i);
    var e1 := WordAt(mem, FrameOf(e2), j);
    IsValid(e2) && IsValid(e1) && FrameOf(e1) == low
  }

  /** The walk without allocation, on any memory: the low table and the index in it. Only the
      top level is looked at for leaves. */
  function WalkOn(mem: Memory, root: nat, x: Index): Option<(nat, nat)> {
    var e2 := WordAt(mem, root, x.i);
    if !IsValid(e2) || IsLeaf(e2) then None else
    var e1 := WordAt(mem, FrameOf(e2), x.j);
    if !IsValid(e1) then None else Some((FrameOf(e1), x.k))
  }

  /** How many tables the walk to `x` has to allocate. */
  function Missing(mem: Memory, root: nat, x: Index): nat {
    var e2 := WordAt(mem, root, x.i);
    if !IsValid(e2) then 2 else if !IsValid(WordAt(mem, FrameOf(e2), x.j)) then 1 else 0
  }

  /** The places of the tables on the way to `x`. */
  function Way(x: Index): set<Place> {
    {Mid(x.i), Low(x.i, x.j)}
  }

  /** There is a table for the place, and it hangs under `root`. */
  ghost predicate Hangs(mem: Memory, root: nat, p: Place) {
    match p
    case Root => false
    case Mid(i) => i < 512 && IsValid(WordAt(mem, root, i))
    case Low(i, j) => i < 512 && j < 512 && Missing(mem, root, Index(i, j, 0)) == 0
  }

  ghost predicate Records(mem: Memory, root: nat, b: set<Place>) {
    forall p {:trigger Hangs(mem, root, p)} :: p in b <==> Hangs(mem, root, p)
  }

  lemma RecordExists(mem: Memory, root: nat)
    ensures exists b :: Records(mem, root, b)
  {
    var mids := set i: nat | i < 512 && Hangs(mem, root, Mid(i)) :: Mid(i);
    var lows := set i: nat, j: nat | i < 512 && j < 512 && Hangs(mem, root, Low(i, j)) :: Low(i, j);
    assert Records(mem, root, mids + lows);
  }

  /** The places under `root` whose tables exist. */
  ghost function Built(mem: Memory, root: nat): set<Place> {
    RecordExists(mem, root);
    var b :| Records(mem, root, b); b
  }

  lemma InBuilt(mem: Memory, root: nat, p: Place)
    ensures p in Built(mem, root) <==> Hangs(mem, root, p)
  {
  }

  lemma BuiltIs(mem: Memory, root: nat, x: Index)
    requires x.i < 512 && x.j < 512
    ensures Mid(x.i) in Built(mem, root) <==> IsValid(WordAt(mem, root, x.i))
    ensures Low(x.i, x.j) in Built(mem, root) <==> Missing(mem, root, x) == 0
    ensures Way(x) <= Built(mem, root) <==> Missing(mem, root, x) == 0
    ensures |Way(x) - Built(mem, root)| == Missing(mem, root, x)
  {
    var m := Missing(mem, root, x);
    assert Hangs(mem, root, Mid(x.i)) <==> m < 2;
    assert Hangs(mem, root, Low(x.i, x.j)) <==> m == 0;
    var lacking := Way(x) - Built(mem, root);
    assert lacking == if m == 2 then Way(x) else if m == 1 then {Low(x.i, x.j)} else {};
  }

  function ZeroPage(): seq<u64> { Repeat(0, 512) }

  /** Every root stands for its map in `views`. */
  ghost predicate Refines(mem: Memory, tags: Tags, views: map<nat, map<nat, Mapping>>) {
    && (forall q :: IsRoot(tags, q) ==> q in views)
    && (forall q {:trigger Represents(mem, q, views[q])} :: IsRoot(tags, q) ==> Represents(mem, q, views[q]))
  }

  /** Every root of `tags` records the same mappings in both memories. */
  ghost predicate SameMappings(m0: Memory, m1: Memory, tags: Tags) {
    forall root, x: Index :: IsRoot(tags, root) && x.i < 512 && x.j < 512 && x.k < 512
      ==> Lookup(m1, root, x) == Lookup(m0, root, x)
  }

  /** The tags met on the way down. */
  lemma PathTags(mem: Memory, tags: Tags, root: nat, x: Index)
    requires Forest(mem, tags) && IsRoot(tags, root) && x.i < 512 && x.j < 512
    ensures var e2 := WordAt(mem, root, x.i);
      IsValid(e2) ==>
        && FrameOf(e2) in tags && tags[FrameOf(e2)] == Tag(root, Mid(x.i))
        && var e1 := WordAt(mem, FrameOf(e2), x.j);
           IsValid(e1) ==> FrameOf(e1) in tags && tags[FrameOf(e1)] == Tag(root, Low(x.i, x.j))
  {
    assert TableOk(mem, tags, root);
    var e2 := WordAt(mem, root, x.i);
    assert EntryOk(tags, e2, Tag(root, Mid(x.i)));
    if IsValid(e2) {
      assert TableOk(mem, tags, FrameOf(e2));
      assert EntryOk(tags, WordAt(mem, FrameOf(e2), x.j), Tag(root, Low(x.i, x.j)));
    }
  }

  /** The walk ends at the low table tagged for the page. */
  lemma WalkEnds(mem: Memory, tags: Tags, root: nat, x: Index)
    requires Forest(mem, tags) && IsRoot(tags, root) && x.i < 512 && x.j < 512 && WalkOn(mem, root, x).Some?
    ensures var (low, k) := WalkOn(mem, root, x).value;
      k == x.k && Linked(mem, root, x.i, x.j, low) && low in tags && tags[low] == Tag(root, Low(x.i, x.j))
  {
    PathTags(mem, tags, root, x);
  }

  /** ... and fails exactly when a table is lacking. */
  lemma WalkFinds(mem: Memory, tags: Tags, root: nat, x: Index)
    requires Forest(mem, tags) && IsRoot(tags, root) && x.i < 512 && x.j < 512
    ensures WalkOn(mem, root, x).Some? <==> Way(x) <= Built(mem, root)
  {
    BuiltIs(mem, root, x);
    assert TableOk(mem, tags, root) && EntryOk(tags, WordAt(mem, root, x.i), Tag(root, Mid(x.i)));
  }

  /** The place of the child in slot `n` of a table. */
  function ChildTag(t: Tag, n: nat): Tag
    requires !t.place.Low?
  {
    Tag(t.root, if t.place.Root? then Mid(n) else Low(t.place.i, n))
  }

  /** An upper table of `root`: the root itself, or one the root points to. */
  ghost predicate OnWay(mem: Memory, tags: Tags, root: nat, f: nat) {
    && f in tags && tags[f].root == root
    && match tags[f].place
       case Root => f == root
       case Mid(i) => i < 512 && IsValid(WordAt(mem, root, i)) && FrameOf(WordAt(mem, root, i)) == f
       case Low(_, _) => false
  }

  function Store(mem: Memory, frame: nat, n: nat, pte: u64): Memory
    requires frame in mem && n < |mem[frame]|
  {
    var page: seq<u64> := mem[frame][n := pte];
    mem[frame := page]
  }

  /** Zero the frame `child` and point slot `n` of `parent` at it. */
  function Hang(mem: Memory, parent: nat, n: nat, child: nat): Memory
    requires parent in mem && n < |mem[parent]| && n < 512 && child < FRAMES
  {
    Store(mem[child := ZeroPage()], parent, n, Pointer(child))
  }

  /** Hanging a fresh zeroed table into an invalid slot keeps the forest. */
  lemma LinkKeepsForest(mem: Memory, tags: Tags, parent: nat, n: nat, child: nat)
    requires Forest(mem, tags) && parent in tags && !tags[parent].place.Low? && n < 512
    requires parent in mem && n < |mem[parent]| && child < FRAMES && child !in tags && child in mem
    ensures var mem' := Hang(mem, parent, n, child);
      Forest(mem', tags[child := ChildTag(tags[parent], n)])
  {
    PointerDecodes(child);
    assert TableOk(mem, tags, parent);
    var tags' := tags[child := ChildTag(tags[parent], n)];
    var mem' := Hang(mem, parent, n, child);
    forall f | f in tags'
      ensures TableOk(mem', tags', f)
    {
      if f != child {
        assert TableOk(mem, tags, f);
      }
    }
  }

  /** ... and changes no mapping. */
  lemma LinkKeepsMappings(mem: Memory, tags: Tags, parent: nat, n: nat, child: nat)
    requires Forest(mem, tags) && parent in tags && !tags[parent].place.Low? && n < 512
    requires parent in mem && n < |mem[parent]| && child < FRAMES && child !in tags && child in mem
    requires !IsValid(WordAt(mem, parent, n))
    ensures SameMappings(mem, Hang(mem, parent, n, child), tags)
  {
    PointerDecodes(child);
    assert TableOk(mem, tags, parent);
    var mem' := Hang(mem, parent, n, child);
    forall root, x: Index | IsRoot(tags, root) && x.i < 512 && x.j < 512 && x.k < 512
      ensures Lookup(mem', root, x) == Lookup(mem, root, x)
    {
      PathTags(mem, tags, root, x);
      assert TableOk(mem, tags, root);
      assert WordAt(mem', child, x.j) == 0 && WordAt(mem', child, x.k) == 0;
    }
  }

  /** ... and builds its place, no other. */
  lemma LinkBuilds(mem: Memory, tags: Tags, parent: nat, n: nat, child: nat, root: nat)
    requires Forest(mem, tags) && IsRoot(tags, root) && OnWay(mem, tags, root, parent) && n < 512
    requires parent in mem && n < |mem[parent]| && child < FRAMES && child !in tags && child in mem
    requires !IsValid(WordAt(mem, parent, n))
    ensures ChildTag(tags[parent], n).place !in Built(mem, root)
    ensures Built(Hang(mem, parent, n, child), root) == Built(mem, root) + {ChildTag(tags[parent], n).place}
  {
    PointerDecodes(child);
    var mem', place := Hang(mem, parent, n, child), ChildTag(tags[parent], n).place;
    assert TableOk(mem, tags, root) && TableOk(mem, tags, parent);
    forall p
      ensures p in Built(mem', root) <==> p in Built(mem, root) || p == place
    {
      InBuilt(mem, root, p);
      InBuilt(mem', root, p);
      if p.Mid? && p.i < 512 {
        PathTags(mem, tags, root, Index(p.i, 0, 0));
      } else if p.Low? && p.i < 512 && p.j < 512 {
        PathTags(mem, tags, root, Index(p.i, p.j, 0));
        assert WordAt(mem', child, p.j) == 0;
      }
    }
    InBuilt(mem, root, place);
  }

  lemma ChildBuilt(mem: Memory, tags: Tags, root: nat, f: nat, n: nat)
    requires Forest(mem, tags) && IsRoot(tags, root) && OnWay(mem, tags, root, f) && n < 512
    ensures ChildTag(tags[f], n).place in Built(mem, root) <==> IsValid(WordAt(mem, f, n))
  {
    BuiltIs(mem, root, if tags[f].place.Root? then Index(n, 0, 0) else Index(tags[f].place.i, n, 0));
  }

  /** Writing an entry of a low table keeps the forest. */
  lemma WriteKeepsForest(mem: Memory, tags: Tags, low: nat, k: nat, pte: u64)
    requires Forest(mem, tags) && low in tags && tags[low].place.Low? && k < 512
    requires TableOk(mem, tags, low) && LeafOk(pte)
    ensures Forest(Store(mem, low, k, pte), tags)
  {
    forall f | f in tags
      ensures TableOk(Store(mem, low, k, pte), tags, f)
    {
      assert TableOk(mem, tags, f);
    }
  }

  /** ... and leaves every path as it is. */
  lemma WriteKeepsPaths(mem: Memory, tags: Tags, low: nat, k: nat, pte: u64, root: nat)
    requires Forest(mem, tags) && IsRoot(tags, root) && low in tags && tags[low].place.Low? && k < 512
    requires low in mem && |mem[low]| == 512
    ensures Built(Store(mem, low, k, pte), root) == Built(mem, root)
  {
    forall p
      ensures p in Built(Store(mem, low, k, pte), root) <==> p in Built(mem, root)
    {
      InBuilt(mem, root, p);
      InBuilt(Store(mem, low, k, pte), root, p);
      if p.Mid? && p.i < 512 {
        PathTags(mem, tags, root, Index(p.i, 0, 0));
      } else if p.Low? && p.i < 512 && p.j < 512 {
        PathTags(mem, tags, root, Index(p.i, p.j, 0));
      }
    }
  }

  /** ... and changes the mapping of exactly one page of one root. */
  lemma WriteChangesOne(mem: Memory, tags: Tags, root: nat, x: Index, low: nat, pte: u64, root': nat, x': Index)
    requires Forest(mem, tags) && IsRoot(tags, root) && x.i < 512 && x.j < 512 && x.k < 512
    requires Linked(mem, root, x.i, x.j, low) && low in mem && |mem[low]| == 512
    requires IsRoot(tags, root') && x'.i < 512 && x'.j < 512 && x'.k < 512
    ensures Lookup(Store(mem, low, x.k, pte), root', x') ==
            if root' == root && x' == x then
              if IsValid(pte) then Some(Mapping(FrameOf(pte), Readable(pte), Writable(pte))) else None
            else Lookup(mem, root', x')
  {
    PathTags(mem, tags, root, x);
    PathTags(mem, tags, root', x');
  }

  lemma SameMappingsRefines(m0: Memory, m1: Memory, tags: Tags, views: map<nat, map<nat, Mapping>>)
    requires SameMappings(m0, m1, tags) && Refines(m0, tags, views)
    ensures Refines(m1, tags, views)
  {
    forall q | IsRoot(tags, q)
      ensures Represents(m1, q, views[q])
    {
      assert Represents(m0, q, views[q]);
    }
  }

  /** The map after a low-table write. */
  function Written(v: map<nat, Mapping>, page: nat, pte: u64): map<nat, Mapping> {
    if IsValid(pte) then v[page := Mapping(FrameOf(pte), Readable(pte), Writable(pte))] else v - {page}
  }

  lemma WriteRefines(mem: Memory, tags: Tags, views: map<nat, map<nat, Mapping>>, root: nat, page: nat, low: nat, pte: u64)
    requires Forest(mem, tags) && Refines(mem, tags, views) && IsRoot(tags, root) && page < PAGES
    requires var x := Split(page); Linked(mem, root, x.i, x.j, low) && low in mem && |mem[low]| == 512
    ensures Refines(Store(mem, low, Split(page).k, pte), tags, views[root := Written(views[root], page, pte)])
  {
    var mem' := Store(mem, low, Split(page).k, pte);
    var views' := views[root := Written(views[root], page, pte)];
    forall q | IsRoot(tags, q)
      ensures Represents(mem', q, views'[q])
    {
      assert Represents(mem, q, views[q]);
      forall n: nat | n < PAGES
        ensures Lookup(mem', q, Split(n)) == if n in views'[q] then Some(views'[q][n]) else None
      {
        SplitInjective(n, page);
        WriteChangesOne(mem, tags, root, Split(page), low, pte, q, Split(n));
      }
    }
  }
}
