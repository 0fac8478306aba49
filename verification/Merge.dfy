/** Merging of adjacent block requests: sort by sector in place, coalesce in place, zero the rest. */
module Merge {
  import opened Basics
  import opened DeadlineScheduler

  const CAPACITY: nat := 128
  const TWO64: nat := 0x1_0000_0000_0000_0000

  const EMPTY: BlockRequest := BlockRequest(0, 0, 0, false)

  // ----- what requests cover -----

  predicate Hits(r: BlockRequest, x: nat, w: bool) {
    r.write == w && r.sector <= x < r.sector + r.count
  }

  function Hit(r: BlockRequest, x: nat, w: bool): nat { if Hits(r, x, w) then 1 else 0 }

  function HitsAt(x: nat, w: bool): BlockRequest -> nat { (r: BlockRequest) => Hit(r, x, w) }

  function Is(q: BlockRequest): BlockRequest -> nat { (r: BlockRequest) => if r == q then 1 else 0 }

  function CountOf(): BlockRequest -> nat { (r: BlockRequest) => r.count }

  /** How many of the requests cover sector `x` in direction `w`: the multiplicity of that pair
      in the multiset the requests cover. */
  function Cover(s: seq<BlockRequest>, x: nat, w: bool): nat { Sum(s, HitsAt(x, w)) }

  function Total(s: seq<BlockRequest>): nat { Sum(s, CountOf()) }

  /** The two lists cover the same multiset of (sector, direction) pairs. */
  ghost predicate SameCover(s: seq<BlockRequest>, t: seq<BlockRequest>) {
    forall x: nat, w: bool :: Cover(s, x, w) == Cover(t, x, w)
  }

  /** Every request occurs as often in one list as in the other. */
  ghost predicate Permutation(s: seq<BlockRequest>, t: seq<BlockRequest>) {
    forall q: BlockRequest :: Sum(s, Is(q)) == Sum(t, Is(q))
  }

  predicate AllEmpty(s: seq<BlockRequest>) { forall i :: 0 <= i < |s| ==> s[i].count == 0 }

  /** Requests cover nothing iff all their counts are zero. */
  lemma {:induction false} EmptyCoversNothing(s: seq<BlockRequest>, x: nat, w: bool)
    requires AllEmpty(s)
    ensures Cover(s, x, w) == 0
  {
    if s == [] {
    } else {
      EmptyCoversNothing(s[..|s| - 1], x, w);
    }
  }

  lemma {:induction false} CoveredByMember(s: seq<BlockRequest>, i: nat, x: nat, w: bool)
    requires i < |s| && Hits(s[i], x, w)
    ensures Cover(s, x, w) > 0
  {
    if i < |s| - 1 {
      CoveredByMember(s[..|s| - 1], i, x, w);
    }
  }

  // ----- bubble sort -----

  function Swap(s: seq<BlockRequest>, j: nat): seq<BlockRequest>
    requires j + 1 < |s|
  {
    s[j := s[j + 1]][j + 1 := s[j]]
  }

  /** Put the neighbours at `j` in order. */
  function Order(s: seq<BlockRequest>, j: nat): seq<BlockRequest>
    requires j + 1 < |s|
  {
    if s[j].sector > s[j + 1].sector then Swap(s, j) else s
  }

  /** One pass: after `j` comparisons. */
  function Pass(s: seq<BlockRequest>, j: nat): (r: seq<BlockRequest>)
    requires j == 0 || j < |s|
    ensures |r| == |s|
  {
    if j == 0 then s else Order(Pass(s, j - 1), j - 1)
  }

  /** After `i` passes; pass `i` makes `|s| - i` comparisons. */
  function Passes(s: seq<BlockRequest>, i: nat): (r: seq<BlockRequest>)
    requires i <= |s|
    ensures |r| == |s|
  {
    if i == 0 then s else Pass(Passes(s, i - 1), |s| - i)
  }

  lemma OrderKeepsSum(s: seq<BlockRequest>, j: nat, f: BlockRequest -> nat)
    requires j + 1 < |s|
    ensures Sum(Order(s, j), f) == Sum(s, f)
  {
    SumUpdate(s, j, s[j + 1], f);
    SumUpdate(s[j := s[j + 1]], j + 1, s[j], f);
  }

  lemma {:induction false} PassKeepsSum(s: seq<BlockRequest>, j: nat, f: BlockRequest -> nat)
    requires j == 0 || j < |s|
    ensures Sum(Pass(s, j), f) == Sum(s, f)
  {
    if j == 0 {
    } else {
      var t := Pass(s, j - 1);
      assert Pass(s, j) == Order(t, j - 1);
      PassKeepsSum(s, j - 1, f);
      OrderKeepsSum(t, j - 1, f);
    }
  }

  /** A pass moves the largest of the first `j + 1` to place `j`, taking each from among them,
      and touches no other. */
  lemma {:induction false} PassBubblesUp(s: seq<BlockRequest>, j: nat)
    requires j < |s|
    ensures forall k :: 0 <= k < j ==> Pass(s, j)[k].sector <= Pass(s, j)[j].sector
    ensures forall k :: j < k < |s| ==> Pass(s, j)[k] == s[k]
    ensures forall k :: 0 <= k <= j ==> Pass(s, j)[k] in s[..j + 1]
  {
    if j == 0 {
    } else {
      PassBubblesUp(s, j - 1);
      assert s[..j + 1] == s[..j] + [s[j]];
    }
  }

  /** Everything from place `m` on is in order and above everything before it. */
  ghost predicate SortedFrom(s: seq<BlockRequest>, m: nat) {
    forall a, b :: 0 <= a < b < |s| && m <= b ==> s[a].sector <= s[b].sector
  }

  lemma PassSortsOneMore(s: seq<BlockRequest>, m: nat)
    requires m < |s| && SortedFrom(s, m + 1)
    ensures SortedFrom(Pass(s, m), m)
  {
    PassBubblesUp(s, m);
    var t := Pass(s, m);
    forall a, b | 0 <= a < b < |t| && m <= b
      ensures t[a].sector <= t[b].sector
    {
      if b > m {
        if a <= m {
          var c :| 0 <= c < m + 1 && s[..m + 1][c] == t[a];
          assert s[c].sector <= s[b].sector;
        }
      }
    }
  }

  /** After `i` passes the `i` largest are in place; after all, the list is sorted by sector. */
  lemma {:induction false} PassesSort(s: seq<BlockRequest>, i: nat)
    requires i <= |s|
    ensures SortedFrom(Passes(s, i), |s| - i)
  {
    if i == 0 {
    } else {
      PassesSort(s, i - 1);
      PassSortsOneMore(Passes(s, i - 1), |s| - i);
    }
  }

  /** Sorting keeps every sum over the requests: it permutes them. */
  lemma {:induction false} PassesKeepSum(s: seq<BlockRequest>, i: nat, f: BlockRequest -> nat)
    requires i <= |s|
    ensures Sum(Passes(s, i), f) == Sum(s, f)
  {
    if i == 0 {
    } else {
      PassesKeepSum(s, i - 1, f);
      PassKeepsSum(Passes(s, i - 1), |s| - i, f);
    }
  }

  lemma PassesPermute(s: seq<BlockRequest>, i: nat)
    requires i <= |s|
    ensures Permutation(Passes(s, i), s)
  {
    forall q: BlockRequest
      ensures Sum(Passes(s, i), Is(q)) == Sum(s, Is(q))
    {
      PassesKeepSum(s, i, Is(q));
    }
  }

  /** The requests at sector `x`, in order. */
  function On(s: seq<BlockRequest>, x: nat): seq<BlockRequest> {
    if s == [] then [] else On(s[..|s| - 1], x) + if s[|s| - 1].sector == x then [s[|s| - 1]] else []
  }

  lemma {:induction false} OnConcat(a: seq<BlockRequest>, b: seq<BlockRequest>, x: nat)
    ensures On(a + b, x) == On(a, x) + On(b, x)
  {
    if b == [] {
      assert a + b == a;
    } else {
      assert (a + b)[..|a + b| - 1] == a + b[..|b| - 1];
      OnConcat(a, b[..|b| - 1], x);
    }
  }

  lemma OrderKeepsOn(s: seq<BlockRequest>, j: nat, x: nat)
    requires j + 1 < |s|
    ensures On(Order(s, j), x) == On(s, x)
  {
    if s[j].sector > s[j + 1].sector {
      var a, p, q, b := s[..j], [s[j]], [s[j + 1]], s[j + 2..];
      assert s == a + (p + q) + b && Swap(s, j) == a + (q + p) + b;
      OnConcat(a + (p + q), b, x);
      OnConcat(a + (q + p), b, x);
      OnConcat(a, p + q, x);
      OnConcat(a, q + p, x);
      OnConcat(p, q, x);
      OnConcat(q, p, x);
      assert On(p, x) == [] || On(q, x) == [];
    }
  }

  lemma {:induction false} PassKeepsOn(s: seq<BlockRequest>, j: nat, x: nat)
    requires j == 0 || j < |s|
    ensures On(Pass(s, j), x) == On(s, x)
  {
    if j > 0 {
      PassKeepsOn(s, j - 1, x);
      OrderKeepsOn(Pass(s, j - 1), j - 1, x);
    }
  }

  /** The sort is stable: requests at one sector stay in the order they came. */
  lemma {:induction false} PassesStable(s: seq<BlockRequest>, i: nat, x: nat)
    requires i <= |s|
    ensures On(Passes(s, i), x) == On(s, x)
  {
    if i > 0 {
      PassesStable(s, i - 1, x);
      PassKeepsOn(Passes(s, i - 1), |s| - i, x);
    }
  }

  lemma {:induction false} MemberCounts(s: seq<BlockRequest>, q: BlockRequest)
    ensures Sum(s, Is(q)) > 0 <==> q in s
  {
    if s == [] {
    } else {
      MemberCounts(s[..|s| - 1], q);
      assert s == s[..|s| - 1] + [s[|s| - 1]];
    }
  }

  // ----- coalescing -----

  /** Sums of two 32-bit counts, and of a 64-bit sector and a count, wrap. */
  function Wrap32(n: nat): nat { if n < TWO32 then n else n - TWO32 }

  function Wrap64(n: nat): nat { if n < TWO64 then n else n - TWO64 }

  /** `cur` starts where `prev` ends, in the same direction; the end wraps at 64 bits. */
  predicate Abuts(prev: BlockRequest, cur: BlockRequest) {
    prev.write == cur.write && Wrap64(prev.sector + prev.count) == cur.sector
  }

  /** Add one request to the merged list; counts wrap at 32 bits. */
  function Add(out: seq<BlockRequest>, cur: BlockRequest): seq<BlockRequest>
    requires out != []
  {
    var prev := out[|out| - 1];
    if Abuts(prev, cur) then out[|out| - 1 := prev.(count := Wrap32(prev.count + cur.count))] else out + [cur]
  }

  function Coalesce(s: seq<BlockRequest>, n: nat): (r: seq<BlockRequest>)
    requires n <= |s|
    ensures |r| <= n && (n > 0 ==> r != [])
  {
    if n == 0 then [] else if n == 1 then [s[0]] else Add(Coalesce(s, n - 1), s[n - 1])
  }

  /** No merged count passes 32 bits on the way. */
  predicate CountsFit(s: seq<BlockRequest>, n: nat)
    requires n <= |s|
  {
    n <= 1 ||
    (&& CountsFit(s, n - 1)
     && !Overflows(Coalesce(s, n - 1), s[n - 1]))
  }

  ghost predicate FitsWidth(r: BlockRequest) { r.sector < TWO64 && r.count < TWO32 }

  ghost predicate AllFit(s: seq<BlockRequest>) { forall i :: 0 <= i < |s| ==> FitsWidth(s[i]) }

  lemma {:induction false} CoalesceFits(s: seq<BlockRequest>, n: nat)
    requires n <= |s| && AllFit(s)
    ensures AllFit(Coalesce(s, n))
  {
    if n > 1 {
      CoalesceFits(s, n - 1);
    }
  }

  /** Ascending by sector, and no two neighbours could still be merged. */
  ghost predicate MergedOk(out: seq<BlockRequest>) {
    && (forall a, b :: 0 <= a < b < |out| ==> out[a].sector <= out[b].sector)
    && (forall a, b :: 0 <= a < |out| - 1 && b == a + 1 ==> !Abuts(out[a], out[b]))
  }

  lemma AddIsMerged(out: seq<BlockRequest>, cur: BlockRequest)
    requires out != [] && MergedOk(out) && out[|out| - 1].sector <= cur.sector
    ensures MergedOk(Add(out, cur))
    ensures Add(out, cur)[|Add(out, cur)| - 1].sector <= cur.sector
  {
  }

  /** The merged list is ascending with no two neighbours left to merge, and its last request
      starts no later than the last request taken in. */
  lemma {:induction false} CoalesceIsMerged(s: seq<BlockRequest>, n: nat)
    requires n <= |s| && SortedFrom(s, 0)
    ensures var out := Coalesce(s, n); MergedOk(out) && (n > 0 ==> out[|out| - 1].sector <= s[n - 1].sector)
  {
    if n > 1 {
      CoalesceIsMerged(s, n - 1);
      assert s[n - 2].sector <= s[n - 1].sector;
      AddIsMerged(Coalesce(s, n - 1), s[n - 1]);
    }
  }

  /** A merged request is one of the requests taken in with its count grown: it keeps that one's
      sector, buffer and direction. */
  lemma {:induction false} CoalesceStarts(s: seq<BlockRequest>, n: nat, j: nat) returns (i: nat)
    requires n <= |s| && j < |Coalesce(s, n)|
    ensures i < n && Coalesce(s, n)[j] == s[i].(count := Coalesce(s, n)[j].count)
  {
    if n == 1 {
      i := 0;
    } else if j < |Coalesce(s, n - 1)| {
      i := CoalesceStarts(s, n - 1, j);
    } else {
      i := n - 1;
    }
  }

  /** A wrapped 64-bit end is below the request's own sector, so it never meets a later one:
      two requests merge only if they really touch. */
  lemma AbutsIsReal(prev: BlockRequest, cur: BlockRequest)
    requires FitsWidth(prev) && FitsWidth(cur) && prev.sector <= cur.sector
    ensures Abuts(prev, cur) <==> prev.write == cur.write && prev.sector + prev.count == cur.sector
  {
  }

  predicate Overflows(out: seq<BlockRequest>, cur: BlockRequest)
    requires out != []
  {
    Abuts(out[|out| - 1], cur) && out[|out| - 1].count + cur.count >= TWO32
  }

  /** Adding a request to the merged list adds what it covers, unless the count overflows. */
  lemma AddCovers(out: seq<BlockRequest>, cur: BlockRequest, x: nat, w: bool)
    requires out != [] && AllFit(out) && FitsWidth(cur) && out[|out| - 1].sector <= cur.sector
    ensures Cover(Add(out, cur), x, w) <= Cover(out, x, w) + Hit(cur, x, w)
    ensures !Overflows(out, cur) ==> Cover(Add(out, cur), x, w) == Cover(out, x, w) + Hit(cur, x, w)
    ensures Overflows(out, cur) && x == cur.sector + cur.count - 1 && w == cur.write ==>
      Cover(Add(out, cur), x, w) < Cover(out, x, w) + Hit(cur, x, w)
  {
  }

  lemma CoalesceReady(s: seq<BlockRequest>, n: nat)
    requires 0 < n < |s| && AllFit(s) && SortedFrom(s, 0)
    ensures var out := Coalesce(s, n); AllFit(out) && out[|out| - 1].sector <= s[n].sector
  {
    CoalesceFits(s, n);
    CoalesceIsMerged(s, n);
    assert s[n - 1].sector <= s[n].sector;
  }

  lemma PrefixCover(s: seq<BlockRequest>, n: nat, x: nat, w: bool)
    requires n < |s|
    ensures Cover(s[..n + 1], x, w) == Cover(s[..n], x, w) + Hit(s[n], x, w)
  {
    assert s[..n + 1][..n] == s[..n];
  }

  lemma {:induction false} CoalesceNeverGains(s: seq<BlockRequest>, n: nat, x: nat, w: bool)
    requires n <= |s| && AllFit(s) && SortedFrom(s, 0)
    ensures Cover(Coalesce(s, n), x, w) <= Cover(s[..n], x, w)
    ensures CountsFit(s, n) ==> Cover(Coalesce(s, n), x, w) == Cover(s[..n], x, w)
  {
    if n == 1 {
      assert s[..1] == [s[0]];
    } else if n > 1 {
      CoalesceNeverGains(s, n - 1, x, w);
      CoalesceReady(s, n - 1);
      PrefixCover(s, n - 1, x, w);
      AddCovers(Coalesce(s, n - 1), s[n - 1], x, w);
    }
  }

  /** If a count overflows, some covered pair is lost. */
  lemma {:induction false} OverflowLoses(s: seq<BlockRequest>, n: nat) returns (x: nat, w: bool)
    requires n <= |s| && AllFit(s) && SortedFrom(s, 0) && !CountsFit(s, n)
    ensures Cover(Coalesce(s, n), x, w) < Cover(s[..n], x, w)
  {
    if !CountsFit(s, n - 1) {
      x, w := OverflowLoses(s, n - 1);
    } else {
      CoalesceFits(s, n - 1);
      x, w := s[n - 1].sector + s[n - 1].count - 1, s[n - 1].write;
      CoalesceNeverGains(s, n - 1, x, w);
    }
    CoalesceReady(s, n - 1);
    PrefixCover(s, n - 1, x, w);
    AddCovers(Coalesce(s, n - 1), s[n - 1], x, w);
  }

  // ----- the whole operation -----

  function Clamp(n: nat): nat { if n < CAPACITY then n else CAPACITY }

  function SortedHead(reqs: seq<BlockRequest>): (r: seq<BlockRequest>)
    ensures |r| == Clamp(|reqs|)
  {
    Passes(reqs[..Clamp(|reqs|)], Clamp(|reqs|))
  }

  function Merged(reqs: seq<BlockRequest>): (r: seq<BlockRequest>)
    ensures |r| <= CAPACITY
  {
    Coalesce(SortedHead(reqs), Clamp(|reqs|))
  }

  lemma SortedHeadIsSorted(reqs: seq<BlockRequest>)
    requires AllFit(reqs)
    ensures SortedFrom(SortedHead(reqs), 0) && AllFit(SortedHead(reqs))
  {
    var head, s := reqs[..Clamp(|reqs|)], SortedHead(reqs);
    PassesSort(head, |head|);
    PassesPermute(head, |head|);
    forall i | 0 <= i < |s|
      ensures FitsWidth(s[i])
    {
      MemberCounts(s, s[i]);
      MemberCounts(head, s[i]);
    }
  }

  /** Every merged request starts at the sector and the buffer of one of the first 128 requests
      given, and has its direction. */
  lemma MergedStarts(reqs: seq<BlockRequest>, j: nat) returns (i: nat)
    requires j < |Merged(reqs)|
    ensures i < Clamp(|reqs|) && Merged(reqs)[j] == reqs[i].(count := Merged(reqs)[j].count)
  {
    var head, s := reqs[..Clamp(|reqs|)], SortedHead(reqs);
    var k := CoalesceStarts(s, |s|, j);
    PassesPermute(head, |head|);
    MemberCounts(s, s[k]);
    MemberCounts(head, s[k]);
    i :| 0 <= i < |head| && head[i] == s[k];
  }

  lemma MergingKeepsCover(reqs: seq<BlockRequest>, x: nat, w: bool)
    requires AllFit(reqs)
    requires CountsFit(SortedHead(reqs), Clamp(|reqs|)) && AllEmpty(reqs[Clamp(|reqs|)..])
    ensures Cover(Merged(reqs), x, w) == Cover(reqs, x, w)
  {
    var n, s := Clamp(|reqs|), SortedHead(reqs);
    SortedHeadIsSorted(reqs);
    assert s[..n] == s && reqs == reqs[..n] + reqs[n..];
    CoalesceNeverGains(s, n, x, w);
    PassesKeepSum(reqs[..n], n, HitsAt(x, w));
    SumConcat(reqs[..n], reqs[n..], HitsAt(x, w));
    EmptyCoversNothing(reqs[n..], x, w);
  }

  lemma MergingLosesCover(reqs: seq<BlockRequest>) returns (x: nat, w: bool)
    requires AllFit(reqs)
    requires !CountsFit(SortedHead(reqs), Clamp(|reqs|)) || !AllEmpty(reqs[Clamp(|reqs|)..])
    ensures Cover(Merged(reqs), x, w) < Cover(reqs, x, w)
  {
    var n, s := Clamp(|reqs|), SortedHead(reqs);
    SortedHeadIsSorted(reqs);
    assert s[..n] == s && reqs == reqs[..n] + reqs[n..];
    if !CountsFit(s, n) {
      x, w := OverflowLoses(s, n);
    } else {
      var i: nat :| i < |reqs[n..]| && reqs[n..][i].count != 0;
      x, w := reqs[n..][i].sector, reqs[n..][i].write;
      CoveredByMember(reqs[n..], i, x, w);
      CoalesceNeverGains(s, n, x, w);
    }
    PassesKeepSum(reqs[..n], n, HitsAt(x, w));
    SumConcat(reqs[..n], reqs[n..], HitsAt(x, w));
  }

  /** Merging keeps the multiset of covered (sector, direction) pairs if and only if no merged
      count overflows 32 bits and every request beyond the 128th is empty; and the result is
      always ascending with no two neighbours left to merge. */
  lemma MergingPreservesCoverIff(reqs: seq<BlockRequest>)
    requires AllFit(reqs)
    ensures MergedOk(Merged(reqs))
    ensures SameCover(Merged(reqs), reqs) <==>
      CountsFit(SortedHead(reqs), Clamp(|reqs|)) && AllEmpty(reqs[Clamp(|reqs|)..])
  {
    SortedHeadIsSorted(reqs);
    CoalesceIsMerged(SortedHead(reqs), Clamp(|reqs|));
    if CountsFit(SortedHead(reqs), Clamp(|reqs|)) && AllEmpty(reqs[Clamp(|reqs|)..]) {
      forall x: nat, w: bool
        ensures Cover(Merged(reqs), x, w) == Cover(reqs, x, w)
      {
        MergingKeepsCover(reqs, x, w);
      }
    } else {
      var x, w := MergingLosesCover(reqs);
    }
  }

  lemma {:induction false} CoalesceTotal(s: seq<BlockRequest>, n: nat)
    requires n <= |s|
    ensures Total(Coalesce(s, n)) <= Total(s[..n])
  {
    if n == 1 {
      assert s[..1] == [s[0]];
    } else if n > 1 {
      CoalesceTotal(s, n - 1);
      var out := Coalesce(s, n - 1);
      assert s[..n][..n - 1] == s[..n - 1];
      assert Coalesce(s, n)[..|out| - 1] == out[..|out| - 1];
      assert !Abuts(out[|out| - 1], s[n - 1]) ==> Coalesce(s, n)[..|out|] == out;
    }
  }

  /** A batch whose counts total less than 2^32 overflows nowhere. */
  lemma {:induction false} SmallTotalsFit(s: seq<BlockRequest>, n: nat)
    requires n <= |s| && Total(s[..n]) < TWO32
    ensures CountsFit(s, n)
  {
    if n > 1 {
      assert s[..n][..n - 1] == s[..n - 1];
      SmallTotalsFit(s, n - 1);
      CoalesceTotal(s, n - 1);
    }
  }

  /** Up to 128 requests of fewer than 2^32 sectors in all keep their meaning. */
  lemma SmallBatchesKeepTheirMeaning(reqs: seq<BlockRequest>)
    requires AllFit(reqs) && |reqs| <= CAPACITY && Total(reqs) < TWO32
    ensures SameCover(Merged(reqs), reqs) && MergedOk(Merged(reqs))
  {
    var n, s := |reqs|, SortedHead(reqs);
    assert reqs[..n] == reqs && s[..n] == s;
    PassesKeepSum(reqs, n, CountOf());
    SmallTotalsFit(s, n);
    MergingPreservesCoverIff(reqs);
  }

  /** Two touching requests of 2^31 sectors each: the merged count wraps to zero. */
  lemma LongRunsOverflow()
    ensures var reqs := [BlockRequest(0, 0x8000_0000, 0, false), BlockRequest(0x8000_0000, 0x8000_0000, 0, false)];
      Merged(reqs) == [EMPTY] && !SameCover(Merged(reqs), reqs)
  {
    var reqs := [BlockRequest(0, 0x8000_0000, 0, false), BlockRequest(0x8000_0000, 0x8000_0000, 0, false)];
    assert reqs[..2] == reqs;
    assert Pass(reqs, 0) == reqs && Pass(reqs, 1) == reqs;
    assert Passes(reqs, 0) == reqs && Passes(reqs, 1) == reqs && Passes(reqs, 2) == reqs;
    assert SortedHead(reqs) == reqs;
    assert Coalesce(reqs, 1) == [reqs[0]];
    MergingPreservesCoverIff(reqs);
  }

  // ----- in place -----

  method BubblePass(a: array<BlockRequest>, count: nat, i: nat)
    requires count <= a.Length && i < count
    modifies a
    ensures a[..count] == Pass(old(a[..count]), count - i - 1)
    ensures a[count..] == old(a[count..])
  {
    ghost var s := a[..count];
    var j := 0;
    while j + 1 < count - i
      invariant j <= count - i - 1
      invariant a[..count] == Pass(s, j) && a[count..] == old(a[count..])
    {
      ghost var t := a[..count];
      assert t[j] == a[j] && t[j + 1] == a[j + 1];
      if a[j].sector > a[j + 1].sector {
        a[j], a[j + 1] := a[j + 1], a[j];
        assert a[..count] == Swap(t, j);
      }
      j := j + 1;
    }
  }

  method BubbleSort(a: array<BlockRequest>, count: nat)
    requires count <= a.Length
    modifies a
    ensures a[..count] == Passes(old(a[..count]), count)
    ensures SortedFrom(a[..count], 0) && Permutation(a[..count], old(a[..count]))
    ensures a[count..] == old(a[count..])
  {
    ghost var s := a[..count];
    var i := 0;
    while i < count
      invariant i <= count
      invariant a[..count] == Passes(s, i) && a[count..] == old(a[count..])
    {
      BubblePass(a, count, i);
      i := i + 1;
    }
    PassesSort(s, count);
    PassesPermute(s, count);
  }

  method MergeOne(a: array<BlockRequest>, last: nat, i: nat) returns (last': nat)
    requires last < i < a.Length
    modifies a
    ensures last <= last' <= i && a[..last' + 1] == Add(old(a[..last + 1]), old(a[i]))
    ensures forall k :: i < k < a.Length ==> a[k] == old(a[k])
  {
    ghost var out := a[..last + 1];
    var prev := a[last];
    var cur := a[i];
    assert prev == out[last];
    if prev.write == cur.write && Wrap64(prev.sector + prev.count) == cur.sector {
      a[last] := prev.(count := Wrap32(prev.count + cur.count));
      last' := last;
      assert a[..last + 1] == out[last := a[last]];
    } else {
      last' := last + 1;
      a[last'] := cur;
      assert a[..last' + 1] == out + [cur];
    }
  }

  method CoalesceInPlace(a: array<BlockRequest>, count: nat) returns (merged: nat)
    requires 0 < count <= a.Length
    modifies a
    ensures merged <= count && a[..merged] == Coalesce(old(a[..count]), count)
  {
    ghost var s := a[..count];
    var last := 0;
    var i := 1;
    while i < count
      invariant last < i <= count
      invariant a[..last + 1] == Coalesce(s, i)
      invariant forall k :: i <= k < count ==> a[k] == s[k]
    {
      last := MergeOne(a, last, i);
      i := i + 1;
    }
    merged := last + 1;
  }

  lemma PaddingCoversNothing(merged: seq<BlockRequest>, z: seq<BlockRequest>)
    requires forall i :: 0 <= i < |z| ==> z[i] == EMPTY
    ensures SameCover(merged + z, merged)
  {
    forall x: nat, w: bool
      ensures Cover(merged + z, x, w) == Cover(merged, x, w)
    {
      SumConcat(merged, z, HitsAt(x, w));
      EmptyCoversNothing(z, x, w);
    }
  }

  method CopyIn(a: array<BlockRequest>, reqs: seq<BlockRequest>, count: nat)
    requires count <= a.Length && count <= |reqs|
    modifies a
    ensures a[..count] == reqs[..count]
  {
    for i := 0 to count
      invariant a[..i] == reqs[..i]
    {
      a[i] := reqs[i];
    }
  }

  method ZeroFrom(a: array<BlockRequest>, m: nat)
    requires m <= a.Length
    modifies a
    ensures a[..m] == old(a[..m])
    ensures forall k :: m <= k < a.Length ==> a[k] == EMPTY
  {
    for i := m to a.Length
      invariant a[..m] == old(a[..m])
      invariant forall k :: m <= k < i ==> a[k] == EMPTY
    {
      a[i] := EMPTY;
    }
  }

  method SortAndCoalesce(a: array<BlockRequest>, count: nat) returns (merged: nat)
    requires 0 < count <= a.Length
    modifies a
    ensures merged <= count && a[..merged] == Coalesce(Passes(old(a[..count]), count), count)
  {
    BubbleSort(a, count);
    merged := CoalesceInPlace(a, count);
  }

  /** The array returned holds the merged requests and then only empty ones, so that it covers
      what the merged requests cover. */
  method MergeRequests(reqs: seq<BlockRequest>) returns (sorted: array<BlockRequest>, ghost merged: nat)
    ensures fresh(sorted) && sorted.Length == CAPACITY && merged <= CAPACITY
    ensures sorted[..merged] == Merged(reqs)
    ensures forall k :: merged <= k < CAPACITY ==> sorted[k] == EMPTY
    ensures SameCover(sorted[..merged] + sorted[merged..], Merged(reqs))
  {
    sorted := new BlockRequest[CAPACITY](_ => EMPTY);
    merged := 0;
    if |reqs| > 0 {
      var count := Clamp(|reqs|);
      CopyIn(sorted, reqs, count);
      var m := SortAndCoalesce(sorted, count);
      ZeroFrom(sorted, m);
      merged := m;
    }
    PaddingCoversNothing(sorted[..merged], sorted[merged..]);
  }
}
