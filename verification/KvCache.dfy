/** The KV-cache page table: an entry per page, mirrored by a bitmap of free pages. */
module KvCache {
  import opened Basics
  import opened Bitmap

  const MAX_REFS: nat := 10
  const TICK_MAX: nat := 0xffff_ffff_ffff_ffff

  datatype Entry = Entry(tokenStart: nat, tokenCount: nat, gpuPhysAddr: nat, dirty: bool, refCount: nat,
                         inUse: bool, lastAccess: nat)

  const EMPTY: Entry := Entry(0, 0, 0, false, 0, false, 0)

  function Fresh(tick: nat): Entry { Entry(0, 0, 0, true, 1, true, tick) }

  predicate IsFree(e: Entry) { !e.inUse }
  predicate IsAllocated(e: Entry) { e.inUse }

  // ----- the table as a state machine -----

  datatype Table = Table(entries: seq<Entry>, total: nat) {
    /** Allocated pages are below the total and have 1 to 10 references; others have none. */
    ghost predicate WellFormed() {
      && |entries| == MAX_PAGES && total <= MAX_PAGES
      && forall p :: 0 <= p < MAX_PAGES ==> EntryOk(entries[p], p < total)
    }
  }

  ghost predicate EntryOk(e: Entry, usable: bool) {
    if e.inUse then usable && 1 <= e.refCount <= MAX_REFS else e.refCount == 0
  }

  datatype Op = Alloc(tokens: nat, tick: nat) | Free(pages: seq<nat>) | Share(pages: seq<nat>)
              | Evict(target: nat) | PageIn(page: nat, tick: nat)

  /** The free pages below `n`, ascending. */
  function FreePages(es: seq<Entry>, n: nat): seq<nat>
    requires n <= |es|
  {
    if n == 0 then [] else FreePages(es, n - 1) + if es[n - 1].inUse then [] else [n - 1]
  }

  function PagesNeeded(tokens: nat): (n: nat)
    ensures n >= 1 && 64 * n >= tokens && (n > 1 ==> 64 * (n - 1) < tokens)
  {
    var n := (tokens + 63) / 64;
    if n > 1 then n else 1
  }

  /** The entries with every page of `pages` set to `e`. */
  function Marked(es: seq<Entry>, pages: seq<nat>, e: Entry): (r: seq<Entry>)
    ensures |r| == |es|
    ensures forall p :: 0 <= p < |es| ==> r[p] == if p in pages then e else es[p]
  {
    seq(|es|, p requires 0 <= p < |es| => if p in pages then e else es[p])
  }

  /** The pages an allocation takes: as many as asked for, or all there are. */
  function Taken(t: Table, tokens: nat): seq<nat>
    requires t.total <= |t.entries|
  {
    var free, n := FreePages(t.entries, t.total), PagesNeeded(tokens);
    if n <= |free| then free[..n] else free
  }

  function FreeOne(es: seq<Entry>, p: nat): (r: seq<Entry>)
    ensures |r| == |es|
  {
    if p >= |es| || !es[p].inUse then es
    else if es[p].refCount <= 1 then es[p := EMPTY]
    else es[p := es[p].(refCount := es[p].refCount - 1)]
  }

  function FreeAll(es: seq<Entry>, pages: seq<nat>): (r: seq<Entry>)
    ensures |r| == |es|
  {
    if pages == [] then es else FreeOne(FreeAll(es, pages[..|pages| - 1]), pages[|pages| - 1])
  }

  function ShareOne(e: Entry): Entry {
    e.(refCount := if e.refCount + 1 > MAX_REFS then MAX_REFS else e.refCount + 1)
  }

  /** Sharing stops at the first page that is not allocated; earlier pages stay shared. */
  function ShareAll(es: seq<Entry>, pages: seq<nat>): (r: seq<Entry>)
    ensures |r| == |es|
    decreases |pages|
  {
    if pages == [] || pages[0] >= |es| || !es[pages[0]].inUse then es
    else ShareAll(es[pages[0] := ShareOne(es[pages[0]])], pages[1..])
  }

  predicate Evictable(e: Entry) { e.inUse && e.refCount == 1 && e.lastAccess < TICK_MAX }

  function Evicted(e: Entry): Entry { e.(inUse := false, refCount := 0, gpuPhysAddr := 0, dirty := false) }

  /** The least recently used evictable page below `n`, the first of equals. */
  function FindLru(es: seq<Entry>, n: nat): (r: Option<nat>)
    requires n <= |es|
    ensures r.Some? ==> r.value < n && Evictable(es[r.value])
  {
    if n == 0 then None else
      var prev := FindLru(es, n - 1);
      if Evictable(es[n - 1]) && (prev == None || es[n - 1].lastAccess < es[prev.value].lastAccess) then Some(n - 1)
      else prev
  }

  /** The pages evicted by up to `k` rounds, in order. */
  function EvictList(es: seq<Entry>, n: nat, k: nat): seq<nat>
    requires n <= |es|
    decreases k
  {
    if k == 0 || FindLru(es, n) == None then [] else
      var p := FindLru(es, n).value;
      [p] + EvictList(es[p := Evicted(es[p])], n, k - 1)
  }

  function EvictAll(es: seq<Entry>, n: nat, k: nat): (r: seq<Entry>)
    requires n <= |es|
    ensures |r| == |es|
    decreases k
  {
    if k == 0 || FindLru(es, n) == None then es else
      var p := FindLru(es, n).value;
      EvictAll(es[p := Evicted(es[p])], n, k - 1)
  }

  function PagedIn(es: seq<Entry>, p: nat, tick: nat): (r: seq<Entry>)
    ensures |r| == |es|
  {
    if p >= |es| || !es[p].inUse then es else es[p := es[p].(dirty := false, lastAccess := tick)]
  }

  function Apply(t: Table, op: Op): (r: Table)
    requires t.total <= |t.entries|
    ensures |r.entries| == |t.entries| && r.total == t.total
  {
    match op
    case Alloc(tokens, tick) => t.(entries := Marked(t.entries, Taken(t, tokens), Fresh(tick)))
    case Free(pages) => t.(entries := FreeAll(t.entries, pages))
    case Share(pages) => t.(entries := ShareAll(t.entries, pages))
    case Evict(target) => t.(entries := EvictAll(t.entries, t.total, target))
    case PageIn(page, tick) => t.(entries := PagedIn(t.entries, page, tick))
  }

  function Start(totalPages: nat): (t: Table)
    ensures t.total <= |t.entries|
  {
    Table(seq(MAX_PAGES, i => EMPTY), if totalPages > MAX_PAGES then MAX_PAGES else totalPages)
  }

  function After(totalPages: nat, ops: seq<Op>): (t: Table)
    ensures t.total <= |t.entries|
  {
    if ops == [] then Start(totalPages) else Apply(After(totalPages, ops[..|ops| - 1]), ops[|ops| - 1])
  }

  // ----- free pages -----

  lemma {:induction false} FreePagesAre(es: seq<Entry>, n: nat)
    requires n <= |es|
    ensures forall p: nat :: p in FreePages(es, n) <==> p < n && !es[p].inUse
    ensures Ascending(FreePages(es, n))
  {
    if n == 0 {
    } else {
      FreePagesAre(es, n - 1);
      var prev := FreePages(es, n - 1);
      assert forall i :: 0 <= i < |prev| ==> prev[i] in prev;
    }
  }

  lemma {:induction false} FreePagesCount(es: seq<Entry>, n: nat)
    requires n <= |es|
    ensures |FreePages(es, n)| == Count(IsFree, es[..n])
  {
    if n == 0 {
      CountNone(IsFree, es[..n]);
    } else {
      FreePagesCount(es, n - 1);
      CountNext(IsFree, es, n - 1);
    }
  }

  /** Allocating the first free page leaves the rest. */
  lemma {:induction false} TakeFirst(es: seq<Entry>, n: nat, p: nat, e: Entry)
    requires p < n <= |es| && !es[p].inUse && e.inUse
    requires forall q :: 0 <= q < p ==> es[q].inUse
    ensures FreePages(es, n) == [p] + FreePages(es[p := e], n)
    decreases n
  {
    var es' := es[p := e];
    if p == n - 1 {
      FreePagesAre(es, p);
      FreePagesAre(es', p);
      NoneFree(es, p);
      NoneFree(es', p);
    } else {
      TakeFirst(es, n - 1, p, e);
    }
  }

  lemma {:induction false} NoneFree(es: seq<Entry>, n: nat)
    requires n <= |es| && forall q :: 0 <= q < n ==> es[q].inUse
    ensures FreePages(es, n) == []
  {
    if n == 0 {
    } else {
      NoneFree(es, n - 1);
    }
  }

  /** A prefix of an ascending list holds its smallest members. */
  lemma PrefixIsSmallest(free: seq<nat>, n: nat, p: nat, q: nat)
    requires Ascending(free) && n <= |free| && p in free[..n] && q in free && q !in free[..n]
    ensures p < q
  {
    var i: nat :| i < n && free[..n][i] == p;
    var j: nat :| j < |free| && free[j] == q;
  }

  /** An allocation takes the smallest free pages, as many as needed or all there are, in
      ascending order. If there are too few, it fails and leaves no free page at all. */
  lemma AllocTakesSmallest(t: Table, tokens: nat, tick: nat)
    requires t.WellFormed()
    ensures var l, free := Taken(t, tokens), FreePages(t.entries, t.total);
      && |l| == Min(PagesNeeded(tokens), |free|) && Ascending(l)
      && (forall p :: p in l ==> p < t.total && !t.entries[p].inUse)
      && (forall p, q: nat :: p in l && q < t.total && !t.entries[q].inUse && q !in l ==> p < q)
      && (PagesNeeded(tokens) > |free| ==> FreePages(Apply(t, Alloc(tokens, tick)).entries, t.total) == [])
  {
    var l, free := Taken(t, tokens), FreePages(t.entries, t.total);
    FreePagesAre(t.entries, t.total);
    assert l == free[..|l|] && forall p :: p in l ==> p in free;
    forall p, q: nat | p in l && q < t.total && !t.entries[q].inUse && q !in l
      ensures p < q
    {
      PrefixIsSmallest(free, |l|, p, q);
    }
    if PagesNeeded(tokens) > |free| {
      FailedAllocDrains(t, tokens, tick);
    }
  }

  lemma FailedAllocDrains(t: Table, tokens: nat, tick: nat)
    requires t.WellFormed() && PagesNeeded(tokens) > |FreePages(t.entries, t.total)|
    ensures FreePages(Apply(t, Alloc(tokens, tick)).entries, t.total) == []
  {
    var es := Apply(t, Alloc(tokens, tick)).entries;
    FreePagesAre(t.entries, t.total);
    forall q | 0 <= q < t.total
      ensures es[q].inUse
    {
      assert es[q] == if q in Taken(t, tokens) then Fresh(tick) else t.entries[q];
    }
    NoneFree(es, t.total);
  }

  /** A page just taken is dirty, was accessed now and has the one reference that the first free
      of it drops. */
  lemma AllocatedOnce(t: Table, tokens: nat, tick: nat, p: nat)
    requires t.total <= |t.entries| && p in Taken(t, tokens) && p < |t.entries|
    ensures var t' := Apply(t, Alloc(tokens, tick));
      && t'.entries[p] == Entry(0, 0, 0, true, 1, true, tick)
      && Apply(t', Free([p])).entries[p] == Entry(0, 0, 0, false, 0, false, 0)
  {
    var es := Apply(t, Alloc(tokens, tick)).entries;
    assert [p][..0] == [] && FreeAll(es, [p]) == FreeOne(es, p);
  }

  /** In a table of one page, an allocation that needs two fails and keeps the one. */
  lemma FailedAllocKeepsPage(tick: nat)
    ensures var t := Start(1);
      && PagesNeeded(65) == 2 && FreePages(t.entries, t.total) == [0]
      && FreePages(Apply(t, Alloc(65, tick)).entries, t.total) == []
  {
    var t := Start(1);
    assert FreePages(t.entries, 0) == [];
    assert FreePages(t.entries, 1) == [0];
    FailedAllocDrains(t, 65, tick);
  }

  // ----- what every run keeps -----

  lemma {:induction false} FreeAllKeeps(es: seq<Entry>, pages: seq<nat>, total: nat)
    requires Table(es, total).WellFormed()
    ensures Table(FreeAll(es, pages), total).WellFormed()
    decreases |pages|
  {
    if pages == [] {
    } else {
      FreeAllKeeps(es, pages[..|pages| - 1], total);
    }
  }

  lemma {:induction false} ShareAllKeeps(es: seq<Entry>, pages: seq<nat>, total: nat)
    requires Table(es, total).WellFormed()
    ensures Table(ShareAll(es, pages), total).WellFormed()
    decreases |pages|
  {
    if pages != [] && pages[0] < |es| && es[pages[0]].inUse {
      ShareAllKeeps(es[pages[0] := ShareOne(es[pages[0]])], pages[1..], total);
    }
  }

  lemma {:induction false} EvictAllKeeps(es: seq<Entry>, k: nat, total: nat)
    requires Table(es, total).WellFormed()
    ensures Table(EvictAll(es, total, k), total).WellFormed()
    decreases k
  {
    if k > 0 && FindLru(es, total).Some? {
      var p := FindLru(es, total).value;
      EvictAllKeeps(es[p := Evicted(es[p])], k - 1, total);
    }
  }

  lemma ApplyKeepsWellFormed(t: Table, op: Op)
    requires t.WellFormed()
    ensures Apply(t, op).WellFormed()
  {
    match op
    case Alloc(tokens, tick) =>
      FreePagesAre(t.entries, t.total);
      assert forall p :: p in Taken(t, tokens) ==> p in FreePages(t.entries, t.total);
    case Free(pages) => FreeAllKeeps(t.entries, pages, t.total);
    case Share(pages) => ShareAllKeeps(t.entries, pages, t.total);
    case Evict(target) => EvictAllKeeps(t.entries, target, t.total);
    case PageIn(page, tick) =>
  }

  /** After any run, allocated pages lie below the total and have 1 to 10 references, and the
      others none; and allocated plus free pages make up the total. */
  lemma {:induction false} RunsStayWellFormed(totalPages: nat, ops: seq<Op>)
    ensures var t := After(totalPages, ops);
      && t.WellFormed()
      && Count(IsAllocated, t.entries[..t.total]) + |FreePages(t.entries, t.total)| == t.total
  {
    if ops != [] {
      RunsStayWellFormed(totalPages, ops[..|ops| - 1]);
      ApplyKeepsWellFormed(After(totalPages, ops[..|ops| - 1]), ops[|ops| - 1]);
    }
    var t := After(totalPages, ops);
    FreePagesCount(t.entries, t.total);
    AllocatedPlusFree(t.entries[..t.total]);
  }

  lemma {:induction false} AllocatedPlusFree(es: seq<Entry>)
    ensures Count(IsAllocated, es) + Count(IsFree, es) == |es|
  {
    if es == [] {
    } else {
      AllocatedPlusFree(es[..|es| - 1]);
      CountLast(IsAllocated, es);
      CountLast(IsFree, es);
    }
  }

  // ----- eviction -----

  /** `p` is the oldest evictable page below `n`, the first of equals. */
  ghost predicate IsLru(es: seq<Entry>, n: nat, p: nat)
    requires p < n <= |es|
  {
    && Evictable(es[p])
    && (forall q :: 0 <= q < n && Evictable(es[q]) ==> es[p].lastAccess <= es[q].lastAccess)
    && (forall q :: 0 <= q < p && Evictable(es[q]) ==> es[p].lastAccess < es[q].lastAccess)
  }

  lemma {:induction false} FindLruFinds(es: seq<Entry>, n: nat)
    requires n <= |es|
    ensures match FindLru(es, n)
      case None => forall q :: 0 <= q < n ==> !Evictable(es[q])
      case Some(p) => p < n && IsLru(es, n, p)
  {
    if n == 0 {
    } else {
      FindLruFinds(es, n - 1);
    }
  }

  function SaturatingSub(a: nat, b: nat): nat { if a < b then 0 else a - b }

  lemma EvictOne(es: seq<Entry>, n: nat, p: nat)
    requires p < n <= |es| && Evictable(es[p])
    ensures Count(Evictable, es[p := Evicted(es[p])][..n]) == Count(Evictable, es[..n]) - 1
  {
    assert es[p := Evicted(es[p])][..n] == es[..n][p := Evicted(es[p])];
    SumUpdate(es[..n], p, Evicted(es[p]), One(Evictable));
  }

  /** Eviction over all its rounds: it evicts exactly min(k, evictable pages); each evicted page
      was evictable (so had one reference: shared pages are untouched) and everything else is
      unchanged; and no page left evictable is older than an evicted one. */
  lemma {:induction false} EvictsOldest(es: seq<Entry>, n: nat, k: nat)
    requires n <= |es|
    ensures var l, es' := EvictList(es, n, k), EvictAll(es, n, k);
      && |l| == Min(k, Count(Evictable, es[..n]))
      && (forall p :: p in l ==> p < n && Evictable(es[p]))
      && (forall p :: 0 <= p < |es| ==> es'[p] == if p in l then Evicted(es[p]) else es[p])
      && (forall p, q :: p in l && 0 <= q < n && Evictable(es'[q]) ==> es[p].lastAccess <= es[q].lastAccess)
      && (forall i, j :: 0 <= i < j < |l| ==> l[i] != l[j])
    decreases k
  {
    FindLruFinds(es, n);
    if FindLru(es, n) == None {
      CountZero(Evictable, es[..n]);
    } else if k > 0 {
      var p := FindLru(es, n).value;
      var es1 := es[p := Evicted(es[p])];
      EvictOne(es, n, p);
      EvictsOldest(es1, n, k - 1);
      EvictStep(es, n, k, p, es1, EvictList(es1, n, k - 1), EvictAll(es1, n, k - 1));
    }
  }

  lemma {:induction false} EvictsUntilNone(es: seq<Entry>, n: nat, k: nat)
    requires n <= |es| && |EvictList(es, n, k)| < k
    ensures FindLru(EvictAll(es, n, k), n) == None
    decreases k
  {
    EvictUnfold(es, n, k);
    if FindLru(es, n).Some? {
      var p := FindLru(es, n).value;
      EvictsUntilNone(es[p := Evicted(es[p])], n, k - 1);
    }
  }

  /** A page is evicted only if it has one reference, and then its references, its GPU address and
      its dirty mark are gone; with more rounds than pages every such page is. */
  lemma EvictionIs(es: seq<Entry>, n: nat, k: nat, p: nat)
    requires p < n <= |es|
    ensures var e, e' := es[p], Apply(Table(es, n), Evict(k)).entries[p];
      && (e' != e ==> e.inUse && e.refCount == 1
                      && e' == Entry(e.tokenStart, e.tokenCount, 0, false, 0, false, e.lastAccess))
      && (k > n && e.inUse && e.refCount == 1 && e.lastAccess < 0xffff_ffff_ffff_ffff ==> !e'.inUse)
  {
    EvictsOldest(es, n, k);
    if k > n {
      CountZero(Evictable, es[..n]);
      EvictsUntilNone(es, n, k);
      FindLruFinds(EvictAll(es, n, k), n);
    }
  }

  lemma EvictUnfold(es: seq<Entry>, n: nat, k: nat)
    requires n <= |es| && k > 0
    ensures match FindLru(es, n)
      case None => EvictAll(es, n, k) == es && EvictList(es, n, k) == []
      case Some(p) =>
        && EvictAll(es, n, k) == EvictAll(es[p := Evicted(es[p])], n, k - 1)
        && |EvictList(es, n, k)| == 1 + |EvictList(es[p := Evicted(es[p])], n, k - 1)|
  {
  }

  /** Every page of `pages` is allocated. */
  ghost predicate Shareable(es: seq<Entry>, pages: seq<nat>) {
    forall p :: p in pages ==> p < |es| && es[p].inUse
  }

  lemma ShareUnfold(es: seq<Entry>, pages: seq<nat>, rest: seq<nat>)
    requires pages != [] && rest == pages[1..]
    ensures Shareable(es, pages) <==>
      pages[0] < |es| && es[pages[0]].inUse && Shareable(es[pages[0] := ShareOne(es[pages[0]])], rest)
    ensures ShareAll(es, pages) ==
      if pages[0] < |es| && es[pages[0]].inUse then ShareAll(es[pages[0] := ShareOne(es[pages[0]])], rest) else es
  {
    assert pages[0] in pages && pages == [pages[0]] + rest;
    assert forall p :: p in pages <==> p == pages[0] || p in rest;
    if pages[0] < |es| && es[pages[0]].inUse {
      var es' := es[pages[0] := ShareOne(es[pages[0]])];
      assert forall p: nat :: p < |es| ==> es'[p].inUse == es[p].inUse;
    }
  }

  lemma EvictStep(es: seq<Entry>, n: nat, k: nat, p: nat, es1: seq<Entry>, l: seq<nat>, es': seq<Entry>)
    requires p < n <= |es| && IsLru(es, n, p) && es1 == es[p := Evicted(es[p])] && |es'| == |es|
    requires forall q :: q in l ==> q < n && Evictable(es1[q])
    requires forall q :: 0 <= q < |es| ==> es'[q] == if q in l then Evicted(es1[q]) else es1[q]
    requires forall q, r :: q in l && 0 <= r < n && Evictable(es'[r]) ==> es1[q].lastAccess <= es1[r].lastAccess
    ensures p !in l
    ensures forall q :: q in [p] + l ==> q < n && Evictable(es[q])
    ensures forall q :: 0 <= q < |es| ==> es'[q] == if q in [p] + l then Evicted(es[q]) else es[q]
    ensures forall q, r :: q in [p] + l && 0 <= r < n && Evictable(es'[r]) ==> es[q].lastAccess <= es[r].lastAccess
  {
  }

  // ----- the table in memory -----

  /** The bitmap flags exactly the usable pages that are not allocated. */
  ghost predicate Mirrors(flags: seq<bool>, es: seq<Entry>, total: nat) {
    && |flags| == |es| == MAX_PAGES
    && forall p :: 0 <= p < MAX_PAGES ==> (flags[p] <==> p < total && !es[p].inUse)
  }

  /** Paging in marks an allocated page clean and accessed now, and changes no other page; so it
      is not the one to evict while a page accessed earlier can be evicted. */
  lemma PageInIs(t: Table, page: nat, tick: nat, p: nat)
    requires t.total <= |t.entries| && p < |t.entries|
    ensures var e, t' := t.entries[p], Apply(t, PageIn(page, tick));
      && t'.entries[p] == (if p == page && e.inUse then e.(dirty := false, lastAccess := tick) else e)
      && (page < t.total && p < t.total && p != page && Evictable(e) && t.entries[page].inUse && e.lastAccess < tick ==>
            FindLru(t'.entries, t'.total) != Some(page))
  {
    FindLruFinds(Apply(t, PageIn(page, tick)).entries, t.total);
  }

  // ----- references, for lists of any length -----

  function Same(p: nat): nat -> nat { (q: nat) => if q == p then 1 else 0 }

  /** How often `p` occurs in the list. */
  function Times(pages: seq<nat>, p: nat): nat { Sum(pages, Same(p)) }

  /** Freeing takes one reference from a page for each time it is listed; at zero it is free, and
      nothing is left of it. Other fields stay as they are. */
  lemma {:induction false} FreeAllCounts(es: seq<Entry>, pages: seq<nat>, p: nat)
    requires p < |es|
    ensures var e, k := es[p], Times(pages, p);
      FreeAll(es, pages)[p] ==
        if !e.inUse || k == 0 then e else if e.refCount > k then e.(refCount := e.refCount - k) else EMPTY
  {
    if pages != [] {
      FreeAllCounts(es, pages[..|pages| - 1], p);
    }
  }

  /** How many pages come before the first that is not allocated. */
  function Prefix(es: seq<Entry>, pages: seq<nat>): (n: nat)
    ensures n <= |pages|
  {
    if pages == [] || pages[0] >= |es| || !es[pages[0]].inUse then 0 else 1 + Prefix(es, pages[1..])
  }

  lemma {:induction false} PrefixStays(es: seq<Entry>, es': seq<Entry>, pages: seq<nat>)
    requires |es'| == |es| && forall q :: 0 <= q < |es| ==> es'[q].inUse == es[q].inUse
    ensures Prefix(es', pages) == Prefix(es, pages)
  {
    if pages != [] {
      PrefixStays(es, es', pages[1..]);
    }
  }

  /** Sharing gives a page one reference for each time it is listed before the first page that is
      not allocated, up to ten; it fails if and only if there is such a page. */
  lemma {:induction false} ShareAllCounts(es: seq<Entry>, pages: seq<nat>, p: nat)
    requires p < |es|
    ensures var e, k := es[p], Times(pages[..Prefix(es, pages)], p);
      ShareAll(es, pages)[p] == if k == 0 then e else e.(refCount := Min(e.refCount + k, MAX_REFS))
    ensures Shareable(es, pages) <==> Prefix(es, pages) == |pages|
    decreases |pages|
  {
    if pages == [] {
    } else {
      ShareUnfold(es, pages, pages[1..]);
      if pages[0] < |es| && es[pages[0]].inUse {
        var es' := es[pages[0] := ShareOne(es[pages[0]])];
        var n := Prefix(es, pages);
        PrefixStays(es, es', pages[1..]);
        ShareAllCounts(es', pages[1..], p);
        assert pages[..n] == [pages[0]] + pages[1..][..n - 1];
        SumConcat([pages[0]], pages[1..][..n - 1], Same(p));
        SumOne([pages[0]], Same(p));
      }
    }
  }

  // ----- references of one page -----

  /** What the holders of a page do with it after it was allocated. */
  datatype RefOp = Add | Drop

  /** How many references are held, counting the one the allocation gave. */
  function Holders(ops: seq<RefOp>): int {
    if ops == [] then 1 else Holders(ops[..|ops| - 1]) + if ops[|ops| - 1] == Add then 1 else -1
  }

  /** The most that were ever held. */
  function Peak(ops: seq<RefOp>): int {
    if ops == [] then 1 else
      var before := Peak(ops[..|ops| - 1]);
      if Holders(ops) > before then Holders(ops) else before
  }

  /** How many of them the saturating count has lost. */
  function Lost(ops: seq<RefOp>): nat { if Peak(ops) > MAX_REFS then Peak(ops) - MAX_REFS else 0 }

  /** The count kept has not run out yet. */
  predicate Alive(ops: seq<RefOp>) {
    ops == [] || (Alive(ops[..|ops| - 1]) && Holders(ops) - Lost(ops) >= 1)
  }

  /** The table after the holders of page `p` did `ops`. */
  function Used(t: Table, p: nat, ops: seq<RefOp>): (r: Table)
    requires t.total <= |t.entries|
    ensures r.total <= |r.entries| && |r.entries| == |t.entries|
  {
    if ops == [] then t else
      Apply(Used(t, p, ops[..|ops| - 1]), if ops[|ops| - 1] == Add then Share([p]) else Free([p]))
  }

  lemma UseOnce(t: Table, p: nat, op: RefOp)
    requires t.total <= |t.entries| && p < |t.entries|
    ensures var e, e' := t.entries[p], Apply(t, if op == Add then Share([p]) else Free([p])).entries[p];
      e' == if !e.inUse then e else if op == Add then ShareOne(e)
            else if e.refCount <= 1 then EMPTY else e.(refCount := e.refCount - 1)
  {
    var es, shared := t.entries, t.entries[p := ShareOne(t.entries[p])];
    assert [p][1..] == [] && ShareAll(shared, []) == shared;
    assert es[p].inUse ==> ShareAll(es, [p]) == shared;
    assert [p][..0] == [] && FreeAll(es, []) == es && FreeAll(es, [p]) == FreeOne(es, p);
  }

  /** From a fresh page on: it is allocated while the references held exceed those lost, and its
      count is the difference. */
  lemma {:induction false} RefCountIs(t: Table, p: nat, ops: seq<RefOp>)
    requires t.total <= |t.entries| && p < |t.entries| && t.entries[p].inUse && t.entries[p].refCount == 1
    ensures var e := Used(t, p, ops).entries[p];
      (e.inUse <==> Alive(ops)) && (e.inUse ==> e.refCount == Holders(ops) - Lost(ops) <= MAX_REFS)
    ensures Holders(ops) <= Peak(ops)
  {
    if ops == [] {
    } else {
      var before := ops[..|ops| - 1];
      RefCountIs(t, p, before);
      UseOnce(Used(t, p, before), p, ops[|ops| - 1]);
    }
  }

  function Drops(n: nat): seq<RefOp> { seq(n, _ => Drop) }

  lemma {:induction false} DropsCount(ops: seq<RefOp>, n: nat)
    requires Holders(ops) <= Peak(ops)
    ensures Holders(ops + Drops(n)) == Holders(ops) - n && Peak(ops + Drops(n)) == Peak(ops)
    ensures Alive(ops) && Holders(ops) - Lost(ops) > n ==> Alive(ops + Drops(n))
  {
    if n == 0 {
      assert ops + Drops(0) == ops;
    } else {
      DropsCount(ops, n - 1);
      assert (ops + Drops(n))[..|ops| + n - 1] == ops + Drops(n - 1);
    }
  }

  /** When a page is released: dropping references one by one frees it with exactly those left
      that saturation lost. So it is freed exactly at its last reference if and only if no more
      than ten were ever held. */
  lemma FreedWithLostLeft(t: Table, p: nat, ops: seq<RefOp>, n: nat)
    requires t.total <= |t.entries| && p < |t.entries| && t.entries[p].inUse && t.entries[p].refCount == 1
    requires Alive(ops) && n == Holders(ops) - Lost(ops)
    ensures n > 0 && Used(t, p, ops + Drops(n - 1)).entries[p].inUse
    ensures !Used(t, p, ops + Drops(n)).entries[p].inUse && Holders(ops + Drops(n)) == Lost(ops)
    ensures Holders(ops + Drops(n)) == 0 <==> Peak(ops) <= MAX_REFS
  {
    RefCountIs(t, p, ops);
    DropsCount(ops, n - 1);
    DropsCount(ops, n);
    RefCountIs(t, p, ops + Drops(n - 1));
    RefCountIs(t, p, ops + Drops(n));
  }

  function Adds(n: nat): seq<RefOp> { seq(n, _ => Add) }

  lemma {:induction false} AddsCount(n: nat)
    ensures Holders(Adds(n)) == Peak(Adds(n)) == n + 1 && Alive(Adds(n))
  {
    if n > 0 {
      AddsCount(n - 1);
      assert Adds(n)[..n - 1] == Adds(n - 1);
    }
  }

  /** A page shared ten times has eleven holders. When ten of them have released it, it is free
      while the eleventh still holds it. */
  lemma EleventhHolderLosesPage(t: Table, p: nat)
    requires t.total <= |t.entries| && p < |t.entries| && t.entries[p].inUse && t.entries[p].refCount == 1
    ensures !Used(t, p, Adds(10) + Drops(10)).entries[p].inUse && Holders(Adds(10) + Drops(10)) == 1
  {
    AddsCount(10);
    FreedWithLostLeft(t, p, Adds(10), 10);
  }

  lemma {:induction false} ZeroFlags(words: seq<u64>)
    requires forall k :: 0 <= k < |words| ==> words[k] == 0
    ensures true !in Flat(words)
  {
    if words == [] {
    } else {
      ZeroFlags(words[..|words| - 1]);
      NoBitsInZero(0);
    }
  }

  /** The popcount of the bitmap is the number of free pages. */
  lemma MirrorCounts(flags: seq<bool>, es: seq<Entry>, total: nat)
    requires Mirrors(flags, es, total) && total <= MAX_PAGES
    ensures Count(Identity, flags) == Count(IsFree, es[..total])
  {
    SumConcat(flags[..total], flags[total..], One(Identity));
    assert flags == flags[..total] + flags[total..];
    CountZero(Identity, flags[total..]);
    CountSame(Identity, flags[..total], IsFree, es[..total]);
  }

  /** Flag the first `total` pages of a blank bitmap. */
  method FlagFirst(words: array<u64>, total: nat)
    requires words.Length == WORDS && total <= MAX_PAGES && forall k :: 0 <= k < WORDS ==> words[k] == 0
    modifies words
    ensures forall p :: 0 <= p < MAX_PAGES ==> (Flat(words[..])[p] <==> p < total)
  {
    ZeroFlags(words[..]);
    var i := 0;
    while i < total
      invariant i <= total
      invariant forall p :: 0 <= p < MAX_PAGES ==> (Flat(words[..])[p] <==> p < i)
    {
      Bitmap.Free(words, i);
      i := i + 1;
    }
  }

  class KvPageTable {
    const entries: array<Entry>
    const freeMap: array<u64>
    const total: nat

    ghost predicate Valid()
      reads this, entries, freeMap
    {
      && entries.Length == MAX_PAGES && freeMap.Length == WORDS
      && View().WellFormed() && Mirrors(Flat(freeMap[..]), entries[..], total)
    }

    ghost function View(): Table
      reads this, entries
    {
      Table(entries[..], total)
    }

    constructor (totalPages: nat)
      ensures Valid() && View() == Start(totalPages) && fresh(entries) && fresh(freeMap)
    {
      entries := new Entry[MAX_PAGES](_ => EMPTY);
      freeMap := new u64[WORDS](_ => 0);
      total := if totalPages > MAX_PAGES then MAX_PAGES else totalPages;
      new;
      FlagFirst(freeMap, total);
      assert entries[..] == Start(totalPages).entries;
    }

    /** Take the first free page. */
    method TakePage(tick: nat) returns (page: Option<nat>)
      requires Valid()
      modifies entries, freeMap
      ensures Valid()
      ensures page == None ==> FreePages(entries[..], total) == [] && entries[..] == old(entries[..])
      ensures page.Some? ==>
        && page.value < MAX_PAGES && entries[..] == old(entries[..])[page.value := Fresh(tick)]
        && old(FreePages(entries[..], total)) == [page.value] + FreePages(entries[..], total)
    {
      ghost var flags := Flat(freeMap[..]);
      page := Bitmap.Alloc(freeMap);
      if page == None {
        assert forall p :: 0 <= p < MAX_PAGES ==> !flags[p];
        NoneFree(entries[..], total);
        return;
      }
      TakeFirst(entries[..], total, page.value, Fresh(tick));
      entries[page.value] := Fresh(tick);
      assert entries[..] == old(entries[..])[page.value := Fresh(tick)];
    }

    /** Allocate pages for `tokens` tokens: the smallest free ones, in ascending order. With too
        few free, the result is None and all the free pages stay taken. */
    method AllocPages(tokens: nat, tick: nat) returns (r: Option<seq<nat>>)
      requires Valid()
      modifies entries, freeMap
      ensures Valid() && View() == Apply(old(View()), Alloc(tokens, tick))
      ensures var free := old(FreePages(entries[..], total));
        r == if PagesNeeded(tokens) <= |free| then Some(free[..PagesNeeded(tokens)]) else None
    {
      var needed := PagesNeeded(tokens);
      var pages := [];
      ghost var es, free := entries[..], FreePages(entries[..], total);
      assert Marked(es, [], Fresh(tick)) == es;
      for i := 0 to needed
        invariant Valid() && i <= |free|
        invariant pages == free[..i] && FreePages(entries[..], total) == free[i..]
        invariant entries[..] == Marked(es, free[..i], Fresh(tick))
      {
        var page := TakePage(tick);
        if page == None {
          assert free[..i] == free;
          return None;
        }
        assert free[i] == page.value && free[..i + 1] == free[..i] + [page.value];
        assert entries[..] == Marked(es, free[..i + 1], Fresh(tick));
        pages := pages + [page.value];
      }
      return Some(pages);
    }

    method ReleasePage(page: nat)
      requires Valid()
      modifies entries, freeMap
      ensures Valid() && entries[..] == FreeOne(old(entries[..]), page)
    {
      if page >= MAX_PAGES || !entries[page].inUse {
        return;
      }
      var e := entries[page];
      if e.refCount <= 1 {
        entries[page] := EMPTY;
        Bitmap.Free(freeMap, page);
      } else {
        entries[page] := e.(refCount := e.refCount - 1);
      }
      assert entries[..] == FreeOne(old(entries[..]), page);
    }

    method ReleasePages(pages: seq<nat>)
      requires Valid()
      modifies entries, freeMap
      ensures Valid() && View() == Apply(old(View()), Free(pages))
    {
      for i := 0 to |pages|
        invariant Valid() && entries[..] == FreeAll(old(entries[..]), pages[..i])
      {
        ReleasePage(pages[i]);
        assert pages[..i + 1][..i] == pages[..i];
      }
      assert pages[..|pages|] == pages;
    }

    method SharePage(page: nat)
      requires Valid() && page < MAX_PAGES && entries[page].inUse
      modifies entries
      ensures Valid() && entries[..] == old(entries[..])[page := ShareOne(old(entries[page]))]
    {
      entries[page] := ShareOne(entries[page]);
      assert entries[..] == old(entries[..])[page := ShareOne(old(entries[page]))];
    }

    /** Add a reference to each page; false if one of them is not allocated. */
    method SharePages(pages: seq<nat>) returns (ok: bool)
      requires Valid()
      modifies entries
      ensures Valid() && View() == Apply(old(View()), Share(pages))
      ensures ok <==> Shareable(old(entries[..]), pages)
    {
      ghost var goal, can := ShareAll(entries[..], pages), Shareable(entries[..], pages);
      assert pages[0..] == pages;
      for i := 0 to |pages|
        invariant Valid() && ShareAll(entries[..], pages[i..]) == goal
        invariant Shareable(entries[..], pages[i..]) <==> can
      {
        var page := pages[i];
        assert pages[i..][1..] == pages[i + 1..];
        ShareUnfold(entries[..], pages[i..], pages[i + 1..]);
        if page >= MAX_PAGES || !entries[page].inUse {
          return false;
        }
        SharePage(page);
      }
      return true;
    }

    method FindLruEvictable() returns (r: Option<nat>)
      requires Valid()
      ensures r == FindLru(entries[..], total)
    {
      r := None;
      var oldestTick := TICK_MAX;
      for i := 0 to total
        invariant r == FindLru(entries[..], i)
        invariant oldestTick == if r == None then TICK_MAX else entries[r.value].lastAccess
      {
        if entries[i].inUse && entries[i].refCount == 1 && entries[i].lastAccess < oldestTick {
          oldestTick := entries[i].lastAccess;
          r := Some(i);
        }
      }
    }

    method EvictLoop(target: nat) returns (evicted: nat)
      requires Valid()
      modifies entries, freeMap
      ensures Valid() && entries[..] == EvictAll(old(entries[..]), total, target)
      ensures evicted == |EvictList(old(entries[..]), total, target)|
    {
      ghost var goal, count := EvictAll(entries[..], total, target), |EvictList(entries[..], total, target)|;
      evicted := 0;
      for i := 0 to target
        invariant Valid() && evicted == i
        invariant EvictAll(entries[..], total, target - i) == goal
        invariant i + |EvictList(entries[..], total, target - i)| == count
      {
        EvictUnfold(entries[..], total, target - i);
        var oldest := FindLruEvictable();
        if oldest == None {
          return;
        }
        EvictPage(oldest.value);
        evicted := evicted + 1;
      }
    }

    method EvictLru(target: nat) returns (evicted: nat)
      requires Valid()
      modifies entries, freeMap
      ensures Valid() && View() == Apply(old(View()), Evict(target))
      ensures evicted == Min(target, Count(Evictable, old(entries[..total])))
    {
      EvictsOldest(entries[..], total, target);
      assert entries[..][..total] == entries[..total];
      evicted := EvictLoop(target);
    }

    method EvictPage(page: nat)
      requires Valid() && page < total && entries[page].inUse
      modifies entries, freeMap
      ensures Valid() && entries[..] == old(entries[..])[page := Evicted(old(entries[page]))]
    {
      entries[page] := Evicted(entries[page]);
      Bitmap.Free(freeMap, page);
      assert entries[..] == old(entries[..])[page := Evicted(old(entries[page]))];
    }

    method MovePageIn(page: nat, tick: nat)
      requires Valid()
      modifies entries
      ensures Valid() && View() == Apply(old(View()), PageIn(page, tick))
    {
      if page < MAX_PAGES && entries[page].inUse {
        entries[page] := entries[page].(dirty := false, lastAccess := tick);
      }
      assert entries[..] == PagedIn(old(entries[..]), page, tick);
    }

    /** The count kept by the bitmap is the number of allocated entries. */
    method AllocatedPageCount() returns (n: nat)
      requires Valid()
      ensures n == Count(IsAllocated, entries[..total])
    {
      var free := FreeCount(freeMap);
      MirrorCounts(Flat(freeMap[..]), entries[..], total);
      AllocatedPlusFree(entries[..total]);
      assert entries[..][..total] == entries[..total];
      n := SaturatingSub(total, free);
    }
  }
}
