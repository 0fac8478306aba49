/** The IOMMU's page-table operations: the allocating walk, mapping and unmapping of single
    pages and of ranges, and the dedicated table of an enclave. */
module Iommu {
  import opened Basics
  import opened PageTable

  /** Tables already tagged stay as they are. */
  ghost predicate Extends(t0: Tags, t1: Tags) {
    forall f :: f in t0 ==> f in t1 && t1[f] == t0[f]
  }

  // ----- addresses, pages and flags -----

  /** The page number of an address: bits 12 to 38. */
  function PageOf(va: nat): nat { va / 4096 % PAGES }

  function FirstPage(va: nat): nat { va / 4096 }

  function EndPage(va: nat, len: nat): nat { (va + len + 0xFFF) / 4096 }

  /** `a & !0xFFF` */
  function PageFloor(a: nat): nat { a - a % 4096 }

  // access flags: bit 0 = read, bit 1 = write
  predicate CanRead(flags: nat) { flags % 2 == 1 }
  predicate CanWrite(flags: nat) { flags / 2 % 2 == 1 }
  predicate Grants(flags: nat) { CanRead(flags) || CanWrite(flags) }

  /** Of the flags only the two lowest bits count. */
  lemma FlagsAre(flags: nat)
    ensures CanRead(flags) <==> flags % 4 == 1 || flags % 4 == 3
    ensures CanWrite(flags) <==> flags % 4 == 2 || flags % 4 == 3
    ensures Grants(flags) <==> flags % 4 != 0
  {
  }

  predicate Between(lo: nat, n: nat, hi: nat) { lo <= n < hi }

  function Range(lo: nat, hi: nat): set<nat> {
    set n: nat | n < hi && Between(lo, n, hi)
  }

  /** The page numbers of a range: from 2^39 on addresses come round to the lowest pages. */
  function PagesOf(lo: nat, hi: nat): set<nat> {
    set n | n in Range(lo, hi) :: n % PAGES
  }

  lemma RangeGrows(lo: nat, n: nat)
    requires lo <= n
    ensures Range(lo, lo) == {} && Range(lo, n) <= Range(lo, n + 1) && Range(lo, n + 1) == Range(lo, n) + {n}
    ensures Range(n, n + 1) == {n}
  {
  }

  lemma PagesGrow(lo: nat, n: nat)
    requires lo <= n
    ensures PagesOf(lo, lo) == {} && PagesOf(lo, n + 1) == PagesOf(lo, n) + {n % PAGES}
  {
    RangeGrows(lo, n);
    assert forall m :: m in Range(lo, n + 1) <==> m in Range(lo, n) || m == n;
  }

  lemma RemovePages(v: map<nat, Mapping>, lo: nat, n: nat)
    requires lo <= n
    ensures v - PagesOf(lo, lo) == v && v - PagesOf(lo, n) - {n % PAGES} == v - PagesOf(lo, n + 1)
  {
    PagesGrow(lo, n);
  }

  lemma PagesBelow(lo: nat, hi: nat)
    requires hi <= PAGES
    ensures PagesOf(lo, hi) == Range(lo, hi)
  {
    assert forall n :: n in Range(lo, hi) ==> n % PAGES == n;
  }

  lemma RangeBounds(va: nat, len: nat)
    ensures PageFloor(va) == 4096 * FirstPage(va) && PageFloor(va + len + 0xFFF) == 4096 * EndPage(va, len)
    ensures FirstPage(va) <= EndPage(va, len)
    ensures va + len <= 0x80_0000_0000 <==> EndPage(va, len) <= PAGES
  {
  }

  lemma PageArithmetic(n: nat, pa: nat, d: nat)
    ensures PageOf(4096 * n) == n % PAGES && (n < PAGES ==> PageOf(4096 * n) == n)
    ensures FirstPage(4096 * n) == n && EndPage(4096 * n, 0x1000) == n + 1
    ensures (pa + 4096 * d) / 4096 == pa / 4096 + d
  {
  }

  // ----- linear regions -----

  type Views = map<nat, map<nat, Mapping>>

  function Put(v: map<nat, Mapping>, page: nat, m: Mapping): map<nat, Mapping> {
    v[page := m]
  }

  /** A linear region: page `n` from `lo` on goes to frame `base + (n - lo)`. */
  datatype Region = Region(lo: nat, base: nat, r: bool, w: bool)

  /** The map `v` with the pages `done` among lo..hi mapped in turn as the region says. From 2^39
      on addresses come round to the lowest pages and replace what is there. */
  function Overlay(v: map<nat, Mapping>, g: Region, hi: nat, done: set<nat>): map<nat, Mapping>
    requires g.lo <= hi
    decreases hi
  {
    if hi == g.lo then v else
    var u := Overlay(v, g, hi - 1, done);
    if hi - 1 in done then Put(u, (hi - 1) % PAGES, Mapping(g.base + (hi - 1 - g.lo), g.r, g.w)) else u
  }

  lemma {:induction false} OverlayLocal(v: map<nat, Mapping>, g: Region, hi: nat, done: set<nat>, n: nat)
    requires g.lo <= hi <= n
    ensures Overlay(v, g, hi, done + {n}) == Overlay(v, g, hi, done)
    decreases hi
  {
    if hi > g.lo {
      OverlayLocal(v, g, hi - 1, done, n);
    }
  }

  /** Below 2^39 each page is put once: the overlay maps exactly `done`, linearly. */
  lemma {:induction false} OverlayIsLinear(v: map<nat, Mapping>, g: Region, hi: nat, done: set<nat>, n: nat)
    requires g.lo <= hi <= PAGES && n < PAGES
    ensures var u := Overlay(v, g, hi, done);
      if Between(g.lo, n, hi) && n in done then n in u && u[n] == Mapping(g.base + (n - g.lo), g.r, g.w)
      else (n in u <==> n in v) && (n in u ==> u[n] == v[n])
    decreases hi
  {
    if hi > g.lo {
      OverlayIsLinear(v, g, hi - 1, done, n);
    }
  }

  /** Each page to the frame of its own number, readable and writable. */
  function Identity(done: set<nat>): map<nat, Mapping> {
    map n | n in done :: Mapping(n, true, true)
  }

  lemma {:induction false} OverlayIsIdentity(lo: nat, hi: nat, done: set<nat>)
    requires lo <= hi <= PAGES && done <= Range(lo, hi)
    ensures Overlay(map[], Region(lo, lo, true, true), hi, done) == Identity(done)
  {
    var u := Overlay(map[], Region(lo, lo, true, true), hi, done);
    OverlayKeys(map[], Region(lo, lo, true, true), hi, done);
    forall n: nat | n < PAGES
      ensures n in u <==> n in done
      ensures n in u ==> u[n] == Mapping(n, true, true)
    {
      OverlayIsLinear(map[], Region(lo, lo, true, true), hi, done, n);
      assert n in done ==> Between(lo, n, hi);
    }
  }

  lemma {:induction false} OverlayKeys(v: map<nat, Mapping>, g: Region, hi: nat, done: set<nat>)
    requires g.lo <= hi && forall n :: n in v ==> n < PAGES
    ensures forall n :: n in Overlay(v, g, hi, done) ==> n < PAGES
    decreases hi
  {
    if hi > g.lo {
      OverlayKeys(v, g, hi - 1, done);
    }
  }

  /** From `v0` to `v` the pages `done` of `root`, among lo..hi, were mapped as the region says;
      nothing else changed under any root. */
  ghost predicate Mapped(v0: Views, v: Views, root: nat, g: Region, hi: nat, done: set<nat>) {
    && g.lo <= hi && done <= Range(g.lo, hi) && root in v0
    && v == v0[root := Overlay(v0[root], g, hi, done)]
  }

  lemma MappedStart(v: Views, root: nat, g: Region)
    requires root in v
    ensures Mapped(v, v, root, g, g.lo, {})
  {
  }

  /** One more page attempted, and mapped if `ok`. */
  lemma MappedStep(v0: Views, v1: Views, v2: Views, root: nat, g: Region, done: set<nat>, n: nat, frame: nat, ok: bool)
    requires g.lo <= n && frame == g.base + (n - g.lo)
    requires Mapped(v0, v1, root, g, n, done)
    requires v2 == if ok then v1[root := Put(v1[root], n % PAGES, Mapping(frame, g.r, g.w))] else v1
    ensures Mapped(v0, v2, root, g, n + 1, if ok then done + {n} else done)
  {
    RangeGrows(g.lo, n);
    OverlayLocal(v0[root], g, n, done, n);
    assert n !in Range(g.lo, n);
  }

  /** A one-page region either changed nothing or put its page. */
  lemma MappedOne(v1: Views, v2: Views, root: nat, g: Region, one: set<nat>)
    requires Mapped(v1, v2, root, g, g.lo + 1, one)
    ensures one == {} || one == {g.lo}
    ensures v2 == if one == {} then v1 else v1[root := Put(v1[root], g.lo % PAGES, Mapping(g.base, g.r, g.w))]
  {
    RangeGrows(g.lo, g.lo);
    assert one == {} || one == {g.lo};
    assert Overlay(v1[root], g, g.lo, one) == v1[root];
  }

  // ----- which tables a range needs, and which pages of it were mapped -----

  /** The places of all the tables on the way to the pages lo..hi. */
  ghost function Ways(lo: nat, hi: nat): set<Place> {
    if hi <= lo then {} else Ways(lo, hi - 1) + Way(Split(hi - 1))
  }

  /** How many tables the pages lo..hi lack under `root`. */
  ghost function Needed(mem: Memory, root: nat, lo: nat, hi: nat): nat {
    |Ways(lo, hi) - Built(mem, root)|
  }

  lemma {:induction false} WayIn(lo: nat, n: nat, hi: nat)
    requires Between(lo, n, hi)
    ensures Way(Split(n)) <= Ways(lo, hi)
  {
    if n < hi - 1 {
      WayIn(lo, n, hi - 1);
    }
  }

  lemma {:induction false} WaysWithin(lo: nat, hi: nat, b: set<Place>)
    requires forall n: nat :: Between(lo, n, hi) ==> Way(Split(n)) <= b
    ensures Ways(lo, hi) <= b
  {
    if lo < hi {
      assert forall n: nat :: Between(lo, n, hi - 1) ==> Between(lo, n, hi);
      WaysWithin(lo, hi - 1, b);
      assert Between(lo, hi - 1, hi);
    }
  }

  lemma WayOf(n: nat, i: nat, j: nat)
    requires n < PAGES && j < 512
    ensures Mid(i) in Way(Split(n)) <==> i == n / 0x4_0000
    ensures Low(i, j) in Way(Split(n)) <==> 512 * i + j == n / 512
  {
    SplitRecovers(n);
    var x := Split(n);
    assert n / 0x4_0000 == x.i && n / 512 == 512 * x.i + x.j;
  }

  lemma {:induction false} WaysIn(lo: nat, hi: nat, i: nat, j: nat)
    requires hi <= PAGES && j < 512
    ensures Mid(i) in Ways(lo, hi) <==> lo < hi && lo / 0x4_0000 <= i <= (hi - 1) / 0x4_0000
    ensures Low(i, j) in Ways(lo, hi) <==> lo < hi && lo / 512 <= 512 * i + j <= (hi - 1) / 512
  {
    if lo < hi {
      WaysIn(lo, hi - 1, i, j);
      WayOf(hi - 1, i, j);
    }
  }

  /** Below 2^39, one low table for each 2 MiB the range touches and one middle table for each
      1 GiB. */
  lemma {:induction false} WaysCount(lo: nat, hi: nat)
    requires lo < hi <= PAGES
    ensures |Ways(lo, hi)| == ((hi - 1) / 512 - lo / 512 + 1) + ((hi - 1) / 0x4_0000 - lo / 0x4_0000 + 1)
  {
    OneMoreWay(Ways(lo, hi - 1), Split(hi - 1));
    NewWays(lo, hi - 1);
    if lo < hi - 1 {
      WaysCount(lo, hi - 1);
    }
  }

  lemma OneMoreWay(a: set<Place>, x: Index)
    ensures |a + Way(x)| == |a| + (if Mid(x.i) in a then 0 else 1) + (if Low(x.i, x.j) in a then 0 else 1)
  {
    var b := a + {Mid(x.i)};
    assert Mid(x.i) in a ==> b == a;
    assert Low(x.i, x.j) in b ==> b + {Low(x.i, x.j)} == b;
    assert a + Way(x) == b + {Low(x.i, x.j)};
  }

  lemma NewWays(lo: nat, n: nat)
    requires lo <= n < PAGES
    ensures var x := Split(n);
      && (Mid(x.i) in Ways(lo, n) <==> lo < n && n / 0x4_0000 == (n - 1) / 0x4_0000)
      && (Low(x.i, x.j) in Ways(lo, n) <==> lo < n && n / 512 == (n - 1) / 512)
    ensures lo < n ==> (n - 1) / 512 <= n / 512 <= (n - 1) / 512 + 1
    ensures lo < n ==> (n - 1) / 0x4_0000 <= n / 0x4_0000 <= (n - 1) / 0x4_0000 + 1
  {
    var x := Split(n);
    WaysIn(lo, n, x.i, x.j);
    SplitRecovers(n);
    assert n / 0x4_0000 == x.i && n / 512 == 512 * x.i + x.j;
  }

  lemma {:induction false} WaysBounded(lo: nat, hi: nat)
    requires lo <= hi
    ensures |Ways(lo, hi)| <= 2 * (hi - lo)
  {
    if lo < hi {
      WaysBounded(lo, hi - 1);
      OneMoreWay(Ways(lo, hi - 1), Split(hi - 1));
    }
  }

  /** Tables were only added, each from the next free page. */
  ghost predicate Grown(b0: set<Place>, b1: set<Place>, free0: seq<nat>, free1: seq<nat>) {
    b0 <= b1 && |b1 - b0| <= |free0| && free1 == free0[|b1 - b0|..]
  }

  lemma GrownTwice(b0: set<Place>, b1: set<Place>, b2: set<Place>, free0: seq<nat>, free1: seq<nat>, free2: seq<nat>)
    requires Grown(b0, b1, free0, free1) && Grown(b1, b2, free1, free2)
    ensures Grown(b0, b2, free0, free2)
  {
    assert b2 - b0 == (b2 - b1) + (b1 - b0);
  }

  lemma WayGrown(b0: set<Place>, b1: set<Place>, b2: set<Place>, x: Index,
                 free0: seq<nat>, free1: seq<nat>, free2: seq<nat>)
    requires Grown(b0, b1, free0, free1) && b1 <= b0 + {Mid(x.i)}
    requires Grown(b1, b2, free1, free2) && b2 <= b1 + {Low(x.i, x.j)}
    ensures Grown(b0, b2, free0, free2) && b2 <= b0 + Way(x)
  {
    GrownTwice(b0, b1, b2, free0, free1, free2);
  }

  lemma GrownNot(b: set<Place>, free: seq<nat>)
    ensures Grown(b, b, free, free)
  {
    assert b - b == {};
  }

  lemma GrownByOne(b0: set<Place>, p: Place, free0: seq<nat>, free1: seq<nat>)
    requires p !in b0 && free0 != [] && free1 == free0[1..]
    ensures Grown(b0, b0 + {p}, free0, free1)
  {
    assert b0 + {p} - b0 == {p};
  }

  /** From tables `b0` to `b1`, of the pages lo..hi exactly those with all their tables are in
      `done`; no table was built that the pages do not need; and all were, unless the allocator
      ran out. */
  ghost predicate Served(b0: set<Place>, b1: set<Place>, lo: nat, hi: nat, done: set<nat>,
                         free0: seq<nat>, free1: seq<nat>) {
    && Grown(b0, b1, free0, free1) && b1 <= b0 + Ways(lo, hi)
    && done <= Range(lo, hi)
    && (forall n: nat {:trigger Split(n)} :: Between(lo, n, hi) ==> (n in done <==> Way(Split(n)) <= b1))
    && (Ways(lo, hi) <= b1 || free1 == [])
  }

  /** The attempt at one page. */
  ghost predicate Attempt(b0: set<Place>, b1: set<Place>, x: Index, ok: bool, free0: seq<nat>, free1: seq<nat>) {
    && Grown(b0, b1, free0, free1) && b1 <= b0 + Way(x)
    && (ok <==> Way(x) <= b1)
    && (!ok ==> free1 == [])
  }

  lemma AttemptSucceeds(b0: set<Place>, b1: set<Place>, x: Index, ok: bool, free0: seq<nat>, free1: seq<nat>)
    requires Attempt(b0, b1, x, ok, free0, free1)
    ensures ok <==> |Way(x) - b0| <= |free0|
    ensures ok ==> free1 == free0[|Way(x) - b0|..]
  {
    if ok {
      assert b1 - b0 == Way(x) - b0;
    } else {
      var p :| p in Way(x) && p !in b1;
      assert p in Way(x) - b0 && p !in b1 - b0;
      ProperSubset(b1 - b0, Way(x) - b0);
    }
  }

  lemma ServedStart(b: set<Place>, lo: nat, free: seq<nat>)
    ensures Served(b, b, lo, lo, {}, free, free)
  {
    GrownNot(b, free);
  }

  lemma ServedStep(b0: set<Place>, b1: set<Place>, b2: set<Place>, lo: nat, n: nat, done: set<nat>, ok: bool,
                   free0: seq<nat>, free1: seq<nat>, free2: seq<nat>)
    requires lo <= n && Served(b0, b1, lo, n, done, free0, free1) && Attempt(b1, b2, Split(n), ok, free1, free2)
    ensures Served(b0, b2, lo, n + 1, if ok then done + {n} else done, free0, free2)
  {
    RangeGrows(lo, n);
    GrownTwice(b0, b1, b2, free0, free1, free2);
    assert n !in Range(lo, n);
    assert free1 == [] ==> b2 - b1 == {};
    forall m: nat | Between(lo, m, n)
      ensures Way(Split(m)) <= b1 <==> Way(Split(m)) <= b2
    {
      WayIn(lo, m, n);
    }
  }

  lemma ServedOne(b0: set<Place>, b1: set<Place>, n: nat, one: set<nat>, free0: seq<nat>, free1: seq<nat>)
    requires Served(b0, b1, n, n + 1, one, free0, free1)
    ensures Attempt(b0, b1, Split(n), one != {}, free0, free1)
  {
    RangeGrows(n, n);
    assert Ways(n, n) == {} && Ways(n, n + 1) == Way(Split(n));
    assert Between(n, n, n + 1);
    assert one != {} <==> n in one;
  }

  /** Every page is mapped exactly when the stock covers the tables that were lacking; what is
      left of the stock follows. */
  lemma ServedAll(b0: set<Place>, b1: set<Place>, lo: nat, hi: nat, done: set<nat>, free0: seq<nat>, free1: seq<nat>)
    requires Served(b0, b1, lo, hi, done, free0, free1)
    ensures done == Range(lo, hi) <==> |Ways(lo, hi) - b0| <= |free0|
    ensures free1 == if |Ways(lo, hi) - b0| <= |free0| then free0[|Ways(lo, hi) - b0|..] else []
  {
    var lacking := Ways(lo, hi) - b0;
    if Ways(lo, hi) <= b1 {
      assert b1 - b0 == lacking;
      forall n: nat | n in Range(lo, hi)
        ensures n in done
      {
        WayIn(lo, n, hi);
      }
    } else {
      var p :| p in Ways(lo, hi) && p !in b1;
      assert p in lacking && p !in b1 - b0;
      ProperSubset(b1 - b0, lacking);
      if done == Range(lo, hi) {
        forall n: nat | Between(lo, n, hi)
          ensures Way(Split(n)) <= b1
        {
          assert n in Range(lo, hi);
        }
        WaysWithin(lo, hi, b1);
      }
    }
  }

  lemma ProperSubset(a: set<Place>, b: set<Place>)
    requires a < b
    ensures |a| < |b|
  {
    assert b == a + (b - a);
  }

  /** A region extended by a region of one page. */
  lemma OneMore(v0: Views, v1: Views, v2: Views, root: nat, g: Region, done: set<nat>, n: nat, frame: nat,
                one: set<nat>, b0: set<Place>, b1: set<Place>, b2: set<Place>,
                free0: seq<nat>, free1: seq<nat>, free2: seq<nat>)
    requires g.lo <= n && frame == g.base + (n - g.lo)
    requires Mapped(v0, v1, root, g, n, done) && Served(b0, b1, g.lo, n, done, free0, free1)
    requires Mapped(v1, v2, root, Region(n, frame, g.r, g.w), n + 1, one)
    requires Served(b1, b2, n, n + 1, one, free1, free2)
    ensures Mapped(v0, v2, root, g, n + 1, if one != {} then done + {n} else done)
    ensures Served(b0, b2, g.lo, n + 1, if one != {} then done + {n} else done, free0, free2)
  {
    MappedOne(v1, v2, root, Region(n, frame, g.r, g.w), one);
    ServedOne(b1, b2, n, one, free1, free2);
    MappedStep(v0, v1, v2, root, g, done, n, frame, one != {});
    ServedStep(b0, b1, b2, g.lo, n, done, one != {}, free0, free1, free2);
  }

  lemma IdentityUnderNewRoot(v0: Views, v: Views, root: nat, lo: nat, hi: nat, done: set<nat>)
    requires hi <= PAGES && Mapped(v0[root := map[]], v, root, Region(lo, lo, true, true), hi, done)
    ensures v == v0[root := Identity(done)]
  {
    OverlayIsIdentity(lo, hi, done);
  }

  /** An `IommuPageTable`: a root and a count of mapping attempts. */
  class Handle {
    const root: nat
    var mappedPages: nat

    constructor (root: nat)
      ensures this.root == root && mappedPages == 0
    {
      this.root := root;
      mappedPages := 0;
    }
  }

  /** Physical memory with the page allocator's stock. */
  class Machine {
    var mem: Memory
    var free: seq<nat>
    ghost var tags: Tags
    ghost var views: Views   // what each root stands for

    ghost predicate Valid()
      reads this
    {
      Forest(mem, tags) && Stock(mem, tags, free) && Refines(mem, tags, views)
    }

    /** At boot there is a stock of free frames and no table. */
    constructor (mem: Memory, free: seq<nat>)
      requires Stock(mem, map[], free)
      ensures Valid() && this.mem == mem && this.free == free && tags == map[] && views == map[]
    {
      this.mem := mem;
      this.free := free;
      tags := map[];
      views := map[];
    }

    method AllocPage() returns (f: Option<nat>)
      requires Valid()
      modifies this`free
      ensures Valid()
      ensures old(free) == [] ==> f == None && free == []
      ensures old(free) != [] ==> f == Some(old(free)[0]) && free == old(free)[1..]
                                  && Spare(mem, tags, f.value) && f.value !in free
    {
      if |free| == 0 {
        return None;
      }
      StockTail(mem, tags, free);
      f := Some(free[0]);
      free := free[1..];
    }

    /** Follow slot `n` of an upper table, allocating and hanging a zeroed table if it is
        invalid and `alloc` is set. */
    method Descend(parent: nat, n: nat, alloc: bool, ghost root: nat) returns (child: Option<nat>)
      requires Valid() && IsRoot(tags, root) && OnWay(mem, tags, root, parent) && n < 512
      modifies this
      ensures Valid() && Extends(old(tags), tags) && views == old(views)
      ensures Grown(Built(old(mem), root), Built(mem, root), old(free), free)
      ensures Built(mem, root) <= Built(old(mem), root) + {ChildTag(old(tags)[parent], n).place}
      ensures child.Some? <==> ChildTag(old(tags)[parent], n).place in Built(mem, root)
      ensures child.Some? <==> IsValid(WordAt(mem, parent, n))
      ensures child.Some? ==>
        && FrameOf(WordAt(mem, parent, n)) == child.value
        && child.value in tags && tags[child.value] == ChildTag(tags[parent], n)
      ensures old(IsValid(WordAt(mem, parent, n))) ==> child.Some? && mem == old(mem) && free == old(free)
      ensures !old(IsValid(WordAt(mem, parent, n))) ==>
        if alloc && old(free) != [] then
          && child.Some? && free == old(free)[1..]
          && (parent != root ==> forall i: nat :: WordAt(mem, root, i) == WordAt(old(mem), root, i))
        else child == None && mem == old(mem) && free == old(free)
    {
      assert TableOk(mem, tags, parent);
      ChildBuilt(mem, tags, root, parent, n);
      GrownNot(Built(mem, root), free);
      if !IsValid(mem[parent][n]) {
        if !alloc {
          return None;
        }
        var page := AllocPage();
        if page == None {
          return None;
        }
        LinkKeepsForest(mem, tags, parent, n, page.value);
        LinkKeepsMappings(mem, tags, parent, n, page.value);
        LinkBuilds(mem, tags, parent, n, page.value, root);
        GrownByOne(Built(mem, root), ChildTag(tags[parent], n).place, old(free), free);
        PointerDecodes(page.value);
        ghost var tags' := tags[page.value := ChildTag(tags[parent], n)];
        HangRefines(mem, tags, tags', views, parent, n, page.value);
        StockKept(mem, tags, Hang(mem, parent, n, page.value), tags', free, page.value);
        tags := tags';
        mem := Hang(mem, parent, n, page.value);
        return page;
      }
      assert EntryOk(tags, mem[parent][n], ChildTag(tags[parent], n));
      return Some(FrameOf(mem[parent][n]));
    }

    /** The walk: the low table for `va` and the index in it. It changes no mapping, and leaves
        the memory on which the walk without allocation gives the same. */
    method WalkPt(root: nat, va: nat, alloc: bool) returns (r: Option<(nat, nat)>)
      requires Valid() && IsRoot(tags, root)
      modifies this
      ensures Valid() && Extends(old(tags), tags) && views == old(views)
      ensures Grown(Built(old(mem), root), Built(mem, root), old(free), free)
      ensures Built(mem, root) <= Built(old(mem), root) + Way(Split(va / 4096))
      ensures r == WalkOn(mem, root, Split(va / 4096)) && (r.Some? <==> Way(Split(va / 4096)) <= Built(mem, root))
      ensures r == None && alloc ==> free == []
      ensures !alloc ==> mem == old(mem) && free == old(free)
    {
      var vpn2 := va / 0x4000_0000 % 512;
      var vpn1 := va / 0x20_0000 % 512;
      var vpn0 := va / 0x1000 % 512;
      ghost var x := Split(va / 4096);
      IndexOfAddress(va);
      assert TableOk(mem, tags, root) && EntryOk(tags, mem[root][vpn2], Tag(root, Mid(vpn2)));
      if IsValid(WordAt(mem, root, vpn2)) && IsLeaf(WordAt(mem, root, vpn2)) {
        return None;
      }
      var l1 := Descend(root, vpn2, alloc, root);
      if l1 == None {
        WalkFinds(mem, tags, root, x);
        return None;
      }
      ghost var mem1, free1 := mem, free;
      assert TableOk(mem, tags, root);
      var l0 := Descend(l1.value, vpn1, alloc, root);
      WayGrown(Built(old(mem), root), Built(mem1, root), Built(mem, root), x, old(free), free1, free);
      assert WordAt(mem, root, vpn2) == WordAt(mem1, root, vpn2);
      assert TableOk(mem, tags, root) && EntryOk(tags, mem[root][vpn2], Tag(root, Mid(vpn2)));
      WalkFinds(mem, tags, root, x);
      if l0 == None {
        return None;
      }
      return Some((l0.value, vpn0));
    }

    /** Write one entry of the low table the walk found. */
    method WriteEntry(root: nat, ghost page: nat, low: nat, idx: nat, pte: u64)
      requires Valid() && IsRoot(tags, root) && low in tags && page < PAGES
      requires var x := Split(page);
        idx == x.k && Linked(mem, root, x.i, x.j, low) && tags[low] == Tag(root, Low(x.i, x.j))
      requires LeafOk(pte)
      modifies this`mem, this`views
      ensures Valid() && views == old(views)[root := Written(old(views)[root], page, pte)]
      ensures Built(mem, root) == Built(old(mem), root)
    {
      assert TableOk(mem, tags, low);
      WriteKeepsPaths(mem, tags, low, idx, pte, root);
      WriteKeepsForest(mem, tags, low, idx, pte);
      WriteRefines(mem, tags, views, root, page, low, pte);
      StockKeeps(mem, tags, free, low);
      StockKept(mem, tags, Store(mem, low, idx, pte), tags, free, low);
      mem := Store(mem, low, idx, pte);
      views := views[root := Written(views[root], page, pte)];
    }

    /** Map one page: its mapping, and no other of any root, becomes (pa / 4096, r, w). It
        succeeds exactly when the allocator can supply the missing tables; a failed attempt
        changes no mapping. */
    method MapPte(root: nat, va: nat, pa: nat, r: bool, w: bool) returns (ghost ok: bool)
      requires Valid() && IsRoot(tags, root) && pa < 0x1_0000_0000_0000_0000
      modifies this
      ensures Valid() && Extends(old(tags), tags)
      ensures Attempt(Built(old(mem), root), Built(mem, root), Split(va / 4096), ok, old(free), free)
      ensures views == if ok then old(views)[root := Put(old(views)[root], PageOf(va), Mapping(pa / 4096, r, w))]
                       else old(views)
      ensures ok <==> old(Missing(mem, root, Split(PageOf(va)))) <= |old(free)|
      ensures ok ==> free == old(free)[old(Missing(mem, root, Split(PageOf(va))))..]
    {
      SplitIgnoresHighBits(va / 4096);
      var found := WalkPt(root, va, true);
      ok := found.Some?;
      BuiltIs(old(mem), root, Split(va / 4096));
      AttemptSucceeds(Built(old(mem), root), Built(mem, root), Split(va / 4096), ok, old(free), free);
      if found.Some? {
        WalkEnds(mem, tags, root, Split(va / 4096));
        LeafDecodes(pa / 4096, r, w);
        WriteEntry(root, PageOf(va), found.value.0, found.value.1, LeafPte(pa / 4096, r, w));
      }
    }

    /** Unmap one page: exactly its mapping is gone. */
    method UnmapPte(root: nat, va: nat)
      requires Valid() && IsRoot(tags, root)
      modifies this
      ensures Valid() && Extends(old(tags), tags) && free == old(free)
      ensures views == old(views)[root := old(views)[root] - {PageOf(va)}]
    {
      SplitIgnoresHighBits(va / 4096);
      var found := WalkPt(root, va, false);
      if found.Some? {
        WalkEnds(mem, tags, root, Split(va / 4096));
        WriteEntry(root, PageOf(va), found.value.0, found.value.1, 0);
      } else {
        BuiltIs(mem, root, Split(va / 4096));
        assert Represents(mem, root, views[root]);
        assert PageOf(va) !in views[root];
        assert views[root] - {PageOf(va)} == views[root];
      }
    }

    /** A fresh dedicated table: nothing is mapped under it. */
    method NewDedicated() returns (pt: Option<Handle>)
      requires Valid()
      modifies this
      ensures Valid() && Extends(old(tags), tags)
      ensures pt.Some? <==> old(free) != []
      ensures pt.Some? ==> fresh(pt.value) && IsRoot(tags, pt.value.root) && pt.value.root !in old(tags)
                           && pt.value.mappedPages == 0 && free == old(free)[1..] && Built(mem, pt.value.root) == {}
      ensures views == if pt.Some? then old(views)[pt.value.root := map[]] else old(views)
    {
      var page := AllocPage();
      if page == None {
        return None;
      }
      NewRootKeepsForest(mem, tags, page.value);
      NewRootRefines(mem, tags, views, page.value);
      StockKept(mem, tags, mem[page.value := ZeroPage()], tags[page.value := Tag(page.value, Root)], free, page.value);
      tags := tags[page.value := Tag(page.value, Root)];
      mem := mem[page.value := ZeroPage()];
      NothingBuilt(mem, page.value);
      views := views[page.value := map[]];
      var h := new Handle(page.value);
      return Some(h);
    }

    /** One turn of the loop below: attempt page `n` of the region `g`. */
    method SharePage(pt: Handle, pageVa: nat, pagePa: nat, ghost pa: nat, ghost v0: Views, ghost b0: set<Place>,
                     ghost free0: seq<nat>, ghost g: Region, ghost n: nat, ghost done: set<nat>, r: bool, w: bool)
      returns (ghost done': set<nat>)
      requires Valid() && IsRoot(tags, pt.root) && g.lo <= n && g.r == r && g.w == w
      requires pageVa == 4096 * n && pagePa == pa + 4096 * (n - g.lo)
      requires g.base == pa / 4096 && g.base + (n - g.lo) < NUMBERS
      requires Mapped(v0, views, pt.root, g, n, done) && Served(b0, Built(mem, pt.root), g.lo, n, done, free0, free)
      modifies this, pt`mappedPages
      ensures Valid() && Extends(old(tags), tags) && pt.mappedPages == old(pt.mappedPages) + 1
      ensures Mapped(v0, views, pt.root, g, n + 1, done')
      ensures Served(b0, Built(mem, pt.root), g.lo, n + 1, done', free0, free)
    {
      PageArithmetic(n, pa, n - g.lo);
      ghost var ok := MapPte(pt.root, pageVa, pagePa, r, w);
      MappedStep(v0, old(views), views, pt.root, g, done, n, pagePa / 4096, ok);
      ServedStep(b0, Built(old(mem), pt.root), Built(mem, pt.root), g.lo, n, done, ok, free0, old(free), free);
      pt.mappedPages := pt.mappedPages + 1;
      done' := if ok then done + {n} else done;
    }

    /** The loop over the pages lo..hi of a region. */
    method ShareLoop(pt: Handle, start: nat, end: nat, pa: nat, r: bool, w: bool, ghost lo: nat, ghost hi: nat)
      returns (ghost done: set<nat>)
      requires Valid() && IsRoot(tags, pt.root)
      requires start == 4096 * lo && end == 4096 * hi && lo <= hi && pa / 4096 + (hi - lo) <= NUMBERS
      modifies this, pt`mappedPages
      ensures Valid() && Extends(old(tags), tags)
      ensures Mapped(old(views), views, pt.root, Region(lo, pa / 4096, r, w), hi, done)
      ensures Served(Built(old(mem), pt.root), Built(mem, pt.root), lo, hi, done, old(free), free)
      ensures pt.mappedPages == old(pt.mappedPages) + (hi - lo)
    {
      ghost var v0, b0, free0 := views, Built(mem, pt.root), free;
      done := {};
      var offset := 0;
      var pageVa := start;
      ghost var g := Region(lo, pa / 4096, r, w);
      ghost var n := lo;
      MappedStart(views, pt.root, g);
      ServedStart(Built(mem, pt.root), lo, free);
      while pageVa < end
        invariant lo <= n <= hi && pageVa == 4096 * n && offset == 4096 * (n - lo)
        invariant Valid() && Extends(old(tags), tags)
        invariant Mapped(v0, views, pt.root, g, n, done)
        invariant Served(b0, Built(mem, pt.root), lo, n, done, free0, free)
        invariant pt.mappedPages == old(pt.mappedPages) + (n - lo)
      {
        done := SharePage(pt, pageVa, pa + offset, pa, v0, b0, free0, g, n, done, r, w);
        pageVa := pageVa + 0x1000;
        offset := offset + 0x1000;
        n := n + 1;
      }
      assert n == hi;
    }

    /** Map a region page by page. Exactly the pages whose tables exist in the end are mapped:
        all, if and only if the free pages cover the tables the region lacked. The count of
        mapped pages goes up all the same. */
    method ShareRegion(pt: Handle, va: nat, pa: nat, len: nat, perms: nat) returns (ghost done: set<nat>)
      requires Valid() && IsRoot(tags, pt.root)
      requires pa / 4096 + (EndPage(va, len) - FirstPage(va)) <= NUMBERS
      modifies this, pt`mappedPages
      ensures Valid() && Extends(old(tags), tags)
      ensures !Grants(perms) ==> views == old(views) && mem == old(mem) && free == old(free)
      ensures Grants(perms) ==>
        && Mapped(old(views), views, pt.root, Region(FirstPage(va), pa / 4096, CanRead(perms), CanWrite(perms)),
                  EndPage(va, len), done)
        && Served(Built(old(mem), pt.root), Built(mem, pt.root), FirstPage(va), EndPage(va, len), done, old(free), free)
        && var needed := Needed(old(mem), pt.root, FirstPage(va), EndPage(va, len));
           && (done == Range(FirstPage(va), EndPage(va, len)) <==> needed <= |old(free)|)
           && free == if needed <= |old(free)| then old(free)[needed..] else []
      ensures pt.mappedPages == old(pt.mappedPages)
              + if !Grants(perms) then 0 else EndPage(va, len) - FirstPage(va)
    {
      var r := CanRead(perms);
      var w := CanWrite(perms);
      done := {};
      if !(r || w) {
        return;
      }
      var start := PageFloor(va);
      var end := PageFloor(va + len + 0xFFF);
      RangeBounds(va, len);
      done := ShareLoop(pt, start, end, pa, r, w, FirstPage(va), EndPage(va, len));
      ServedAll(Built(old(mem), pt.root), Built(mem, pt.root), FirstPage(va), EndPage(va, len), done, old(free), free);
    }

    /** Unmap a range: exactly its pages are gone. */
    method UnmapRange(root: nat, iova: nat, size: nat)
      requires Valid() && IsRoot(tags, root)
      modifies this
      ensures Valid() && Extends(old(tags), tags) && free == old(free)
      ensures views == old(views)[root := old(views)[root] - PagesOf(FirstPage(iova), EndPage(iova, size))]
    {
      var start := PageFloor(iova);
      var end := PageFloor(iova + size + 0xFFF);
      RangeBounds(iova, size);
      var current := start;
      ghost var lo, hi, v := FirstPage(iova), EndPage(iova, size), views[root];
      ghost var n := lo;
      RemovePages(v, lo, lo);
      while current < end
        invariant lo <= n <= hi && current == 4096 * n
        invariant Valid() && Extends(old(tags), tags) && free == old(free)
        invariant views == old(views)[root := v - PagesOf(lo, n)]
      {
        PageArithmetic(n, 0, 0);
        RemovePages(v, lo, n);
        UnmapPte(root, current);
        current := current + 0x1000;
        n := n + 1;
      }
    }

    /** One turn of the loop below: a region of one page. */
    method ShareOne(pt: Handle, current: nat, pageHpa: nat, flags: nat, ghost hpa: nat, ghost v0: Views,
                    ghost b0: set<Place>, ghost free0: seq<nat>, ghost g: Region, ghost n: nat, ghost done: set<nat>)
      returns (ghost done': set<nat>)
      requires Valid() && IsRoot(tags, pt.root) && g.lo <= n
      requires g.r == CanRead(flags) && g.w == CanWrite(flags)
      requires current == 4096 * n && pageHpa == hpa + 4096 * (n - g.lo)
      requires g.base == hpa / 4096 && g.base + (n - g.lo) < NUMBERS
      requires Grants(flags) ==>
        Mapped(v0, views, pt.root, g, n, done) && Served(b0, Built(mem, pt.root), g.lo, n, done, free0, free)
      modifies this, pt`mappedPages
      ensures Valid() && Extends(old(tags), tags)
      ensures !Grants(flags) ==> views == old(views) && mem == old(mem) && free == old(free)
      ensures Grants(flags) ==>
        Mapped(v0, views, pt.root, g, n + 1, done') && Served(b0, Built(mem, pt.root), g.lo, n + 1, done', free0, free)
    {
      PageArithmetic(n, hpa, n - g.lo);
      done' := done;
      ghost var one := ShareRegion(pt, current, pageHpa, 0x1000, flags);
      if Grants(flags) {
        OneMore(v0, old(views), views, pt.root, g, done, n, pageHpa / 4096, one,
                b0, Built(old(mem), pt.root), Built(mem, pt.root), free0, old(free), free);
        done' := if one != {} then done + {n} else done;
      }
    }

    /** The loop over the pages lo..hi of a range, a region of one page each. */
    method MapLoop(pt: Handle, start: nat, end: nat, hpa: nat, flags: nat, ghost lo: nat, ghost hi: nat)
      returns (ghost done: set<nat>)
      requires Valid() && IsRoot(tags, pt.root)
      requires start == 4096 * lo && end == 4096 * hi && lo <= hi && hpa / 4096 + (hi - lo) <= NUMBERS
      modifies this, pt`mappedPages
      ensures Valid() && Extends(old(tags), tags)
      ensures !Grants(flags) ==> views == old(views) && mem == old(mem) && free == old(free)
      ensures Grants(flags) ==>
        && Mapped(old(views), views, pt.root, Region(lo, hpa / 4096, CanRead(flags), CanWrite(flags)), hi, done)
        && Served(Built(old(mem), pt.root), Built(mem, pt.root), lo, hi, done, old(free), free)
    {
      ghost var v0, b0, free0 := views, Built(mem, pt.root), free;
      var current := start;
      ghost var g := Region(lo, hpa / 4096, CanRead(flags), CanWrite(flags));
      ghost var n := lo;
      done := {};
      MappedStart(views, pt.root, g);
      ServedStart(Built(mem, pt.root), lo, free);
      while current < end
        invariant lo <= n <= hi && current == 4096 * n
        invariant Valid() && Extends(old(tags), tags)
        invariant !Grants(flags) ==> views == old(views) && mem == old(mem) && free == old(free)
        invariant Grants(flags) ==>
          && Mapped(v0, views, pt.root, g, n, done)
          && Served(b0, Built(mem, pt.root), lo, n, done, free0, free)
      {
        var offset := current - start;
        done := ShareOne(pt, current, hpa + offset, flags, hpa, v0, b0, free0, g, n, done);
        current := current + 0x1000;
        n := n + 1;
      }
      assert n == hi;
    }

    /** Map a range under `root`, one single-page region at a time. The result is true even when
        tables could not be allocated; every page is mapped if and only if the free pages cover
        the tables the range lacked. */
    method MapRange(root: nat, iova: nat, hpa: nat, size: nat, flags: nat) returns (result: bool, ghost done: set<nat>)
      requires Valid() && IsRoot(tags, root)
      requires hpa / 4096 + (EndPage(iova, size) - FirstPage(iova)) <= NUMBERS
      modifies this
      ensures Valid() && Extends(old(tags), tags) && result
      ensures !Grants(flags) ==> views == old(views) && mem == old(mem) && free == old(free)
      ensures Grants(flags) ==>
        && Mapped(old(views), views, root, Region(FirstPage(iova), hpa / 4096, CanRead(flags), CanWrite(flags)),
                  EndPage(iova, size), done)
        && Served(Built(old(mem), root), Built(mem, root), FirstPage(iova), EndPage(iova, size), done, old(free), free)
        && var needed := Needed(old(mem), root, FirstPage(iova), EndPage(iova, size));
           && (done == Range(FirstPage(iova), EndPage(iova, size)) <==> needed <= |old(free)|)
           && free == if needed <= |old(free)| then old(free)[needed..] else []
    {
      var pt := new Handle(root);
      var start := PageFloor(iova);
      var end := PageFloor(iova + size + 0xFFF);
      RangeBounds(iova, size);
      done := MapLoop(pt, start, end, hpa, flags, FirstPage(iova), EndPage(iova, size));
      if Grants(flags) {
        ServedAll(Built(old(mem), root), Built(mem, root), FirstPage(iova), EndPage(iova, size), done, old(free), free);
      }
      result := true;
    }

    /** The table built for an enclave: a dedicated root under which exactly the enclave's
        pages are mapped, each to itself, readable and writable: those whose tables exist in the
        end, and so all, if and only if there was a free page for the root and for each table on
        the way to them. No other root is touched. */
    method EnclaveTable(start: nat, size: nat) returns (pt: Option<Handle>, ghost done: set<nat>)
      requires Valid() && EndPage(start, size) <= NUMBERS
      modifies this
      ensures Valid() && Extends(old(tags), tags)
      ensures pt.Some? <==> old(free) != []
      ensures pt == None ==> views == old(views)
      ensures pt.Some? ==>
        && IsRoot(tags, pt.value.root) && pt.value.root !in old(tags)
        && Mapped(old(views)[pt.value.root := map[]], views, pt.value.root,
                  Region(FirstPage(start), FirstPage(start), true, true), EndPage(start, size), done)
        && (start + size <= 0x80_0000_0000 ==> views == old(views)[pt.value.root := Identity(done)])
        && Served({}, Built(mem, pt.value.root), FirstPage(start), EndPage(start, size), done, old(free)[1..], free)
      ensures pt.Some? ==>
        && var needed := |Ways(FirstPage(start), EndPage(start, size))| + 1;
           && (done == Range(FirstPage(start), EndPage(start, size)) <==> needed <= |old(free)|)
           && free == if needed <= |old(free)| then old(free)[needed..] else []
    {
      done := {};
      RangeBounds(start, size);
      pt := NewDedicated();
      if pt == None {
        return;
      }
      assert Needed(mem, pt.value.root, FirstPage(start), EndPage(start, size))
             == |Ways(FirstPage(start), EndPage(start, size))| by {
        assert Ways(FirstPage(start), EndPage(start, size)) - {} == Ways(FirstPage(start), EndPage(start, size));
      }
      done := ShareRegion(pt.value, start, start, size, 3);
      if start + size <= 0x80_0000_0000 {
        IdentityUnderNewRoot(old(views), views, pt.value.root, FirstPage(start), EndPage(start, size), done);
      }
    }
  }

  /** A machine with one free page, which goes to a dedicated root: mapping the page at 0x1000
      reports true and maps nothing. */
  method MapWithoutStock() returns (m: Machine, root: nat, result: bool)
    ensures m.Valid() && IsRoot(m.tags, root) && result && m.views == map[root := map[]]
  {
    m := new Machine(map[7 := ZeroPage()], [7]);
    var pt := m.NewDedicated();
    root := pt.value.root;
    PageArithmetic(1, 0, 0);
    RangeGrows(1, 1);
    assert |Ways(1, 2)| == 2 by {
      WaysCount(1, 2);
    }
    assert Needed(m.mem, root, 1, 2) == 2 by {
      assert Ways(1, 2) - {} == Ways(1, 2);
    }
    ghost var done;
    result, done := m.MapRange(root, 0x1000, 0x8000_0000, 0x1000, 3);
    assert done == {};
  }

  lemma StockTail(mem: Memory, tags: Tags, free: seq<nat>)
    requires Stock(mem, tags, free) && free != []
    ensures Stock(mem, tags, free[1..]) && free[0] !in free[1..] && Spare(mem, tags, free[0])
  {
    var rest := free[1..];
    forall a, b | 0 <= a < b < |rest|
      ensures rest[a] != rest[b]
    {
      assert rest[a] == free[a + 1] && rest[b] == free[b + 1];
    }
    forall f | f in rest
      ensures Spare(mem, tags, f) && f != free[0]
    {
      var b :| 0 <= b < |rest| && rest[b] == f;
      assert rest[b] == free[b + 1] && f in free;
    }
    assert free[0] in free && Spare(mem, tags, free[0]);
  }

  lemma StockKeeps(mem: Memory, tags: Tags, free: seq<nat>, f: nat)
    requires Stock(mem, tags, free) && f in tags
    ensures f !in free
  {
    assert f in free ==> Spare(mem, tags, f);
  }

  /** A frame put to use leaves the others spare. */
  lemma StockKept(mem: Memory, tags: Tags, mem': Memory, tags': Tags, free: seq<nat>, used: nat)
    requires Stock(mem, tags, free) && used !in free
    requires forall f :: f in mem && f != used ==> f in mem' && |mem'[f]| == |mem[f]|
    requires forall f :: f in tags' ==> f in tags || f == used
    ensures Stock(mem', tags', free)
  {
    forall f | f in free
      ensures Spare(mem', tags', f)
    {
      assert Spare(mem, tags, f);
    }
  }

  lemma HangRefines(mem: Memory, tags: Tags, tags': Tags, views: Views, parent: nat, n: nat, child: nat)
    requires parent in mem && n < |mem[parent]| && n < 512 && child < FRAMES && child !in tags
    requires parent in tags && !tags[parent].place.Low? && tags' == tags[child := ChildTag(tags[parent], n)]
    requires SameMappings(mem, Hang(mem, parent, n, child), tags) && Refines(mem, tags, views)
    ensures Refines(Hang(mem, parent, n, child), tags', views)
  {
    SameMappingsRefines(mem, Hang(mem, parent, n, child), tags, views);
    assert forall q :: IsRoot(tags', q) ==> IsRoot(tags, q);
  }

  lemma NewRootKeepsForest(mem: Memory, tags: Tags, f: nat)
    requires Forest(mem, tags) && f !in tags && f in mem
    ensures Forest(mem[f := ZeroPage()], tags[f := Tag(f, Root)])
    ensures SameMappings(mem, mem[f := ZeroPage()], tags)
  {
    var mem', tags' := mem[f := ZeroPage()], tags[f := Tag(f, Root)];
    forall g | g in tags'
      ensures TableOk(mem', tags', g)
    {
      if g != f {
        assert TableOk(mem, tags, g);
      }
    }
    forall root, x: Index | IsRoot(tags, root) && x.i < 512 && x.j < 512 && x.k < 512
      ensures Lookup(mem', root, x) == Lookup(mem, root, x)
    {
      PathTags(mem, tags, root, x);
    }
  }

  lemma NothingBuilt(mem: Memory, f: nat)
    requires f in mem && mem[f] == ZeroPage()
    ensures Built(mem, f) == {}
  {
    forall p
      ensures p !in Built(mem, f)
    {
      InBuilt(mem, f, p);
      assert !p.Root? ==> WordAt(mem, f, p.i) == 0;
    }
  }

  lemma NewRootRefines(mem: Memory, tags: Tags, views: map<nat, map<nat, Mapping>>, f: nat)
    requires Forest(mem, tags) && f !in tags && f in mem && Refines(mem, tags, views)
    requires SameMappings(mem, mem[f := ZeroPage()], tags)
    ensures Refines(mem[f := ZeroPage()], tags[f := Tag(f, Root)], views[f := map[]])
  {
    var mem', tags', views' := mem[f := ZeroPage()], tags[f := Tag(f, Root)], views[f := map[]];
    SameMappingsRefines(mem, mem', tags, views);
    forall q | IsRoot(tags', q)
      ensures Represents(mem', q, views'[q])
    {
      if q == f {
        assert forall i: nat :: WordAt(mem', f, i) == 0;
      } else {
        assert IsRoot(tags, q);
      }
    }
  }

  // ----- what the maps mean for device addresses -----

  /** Where a device address below 2^39 goes under the map `v`. */
  function Translate(v: map<nat, Mapping>, a: nat): Option<nat> {
    if PageOf(a) in v then Some(4096 * v[PageOf(a)].frame + a % 4096) else None
  }

  lemma AddressTranslates(v: map<nat, Mapping>, iova: nat, hpa: nat, size: nat, r: bool, w: bool,
                          done: set<nat>, a: nat)
    requires iova <= a < iova + size <= 0x80_0000_0000 && done == Range(FirstPage(iova), EndPage(iova, size))
    ensures FirstPage(iova) <= EndPage(iova, size)
    ensures Translate(Overlay(v, Region(FirstPage(iova), hpa / 4096, r, w), EndPage(iova, size), done), a)
            == Some(4096 * (hpa / 4096 + (a / 4096 - iova / 4096)) + a % 4096)
  {
    assert Between(FirstPage(iova), a / 4096, EndPage(iova, size));
    RangeBounds(iova, size);
    OverlayIsLinear(v, Region(FirstPage(iova), hpa / 4096, r, w), EndPage(iova, size), done, a / 4096);
  }

  /** After a complete mapping of a range, every address in it goes to hpa + (a - iova) if and
      only if iova and hpa have the same offset within a page. */
  lemma RangeTranslates(v0: Views, v: Views, root: nat, iova: nat, hpa: nat, size: nat, r: bool, w: bool,
                        done: set<nat>)
    requires iova + size <= 0x80_0000_0000
    requires Mapped(v0, v, root, Region(FirstPage(iova), hpa / 4096, r, w), EndPage(iova, size), done)
    requires done == Range(FirstPage(iova), EndPage(iova, size))
    ensures (forall a :: iova <= a < iova + size ==> Translate(v[root], a) == Some(hpa + (a - iova)))
            <==> (size == 0 || iova % 4096 == hpa % 4096)
  {
    forall a: nat | iova <= a < iova + size
      ensures Translate(v[root], a) == Some(4096 * (hpa / 4096 + (a / 4096 - iova / 4096)) + a % 4096)
    {
      AddressTranslates(v0[root], iova, hpa, size, r, w, done, a);
    }
    if size > 0 {
      assert Translate(v[root], iova) == Some(4096 * (hpa / 4096) + iova % 4096);
    }
  }

  /** For a page-aligned range the pages mapped are exactly those of its addresses. */
  lemma AlignedRangeIsExact(iova: nat, size: nat, a: nat)
    requires iova % 4096 == 0 && size % 4096 == 0 && a < 0x80_0000_0000 && iova + size <= 0x80_0000_0000
    ensures PageOf(a) in Range(FirstPage(iova), EndPage(iova, size)) <==> iova <= a < iova + size
  {
  }

  /** After unmapping a page-aligned range, exactly its addresses are untranslated; every other
      address goes where it did. */
  lemma RangeUntranslated(v: map<nat, Mapping>, iova: nat, size: nat, a: nat)
    requires iova % 4096 == 0 && size % 4096 == 0 && a < 0x80_0000_0000 && iova + size <= 0x80_0000_0000
    ensures Translate(v - PagesOf(FirstPage(iova), EndPage(iova, size)), a) ==
            if iova <= a < iova + size then None else Translate(v, a)
  {
    RangeBounds(iova, size);
    PagesBelow(FirstPage(iova), EndPage(iova, size));
    AlignedRangeIsExact(iova, size, a);
  }

  /** Under a complete table of a page-aligned enclave, its addresses go to themselves and no
      other address goes anywhere. */
  lemma EnclaveIsIsolated(start: nat, size: nat, done: set<nat>, a: nat)
    requires start % 4096 == 0 && size % 4096 == 0 && a < 0x80_0000_0000 && start + size <= 0x80_0000_0000
    requires done == Range(FirstPage(start), EndPage(start, size))
    ensures Translate(Identity(done), a) ==
            if start <= a < start + size then Some(a) else None
  {
  }
}
