/** Bresenham's line: the loop leaves only when it stands exactly on the far endpoint. */
module DrawLine {
  import opened Basics

  const TWO31: nat := 0x8000_0000

  /** Endpoints as 32-bit unsigned coordinates. */
  datatype Line = Line(x0: nat, y0: nat, x1: nat, y1: nat) {
    predicate Fits() { x0 < TWO32 && y0 < TWO32 && x1 < TWO32 && y1 < TWO32 }

    function Dx(): nat { Abs(AsI32(x1) - AsI32(x0)) }

    function Dy(): nat { Abs(AsI32(y1) - AsI32(y0)) }

    /** The directions compare the coordinates as unsigned numbers. */
    function Sx(): int { if x0 < x1 then 1 else -1 }

    function Sy(): int { if y0 < y1 then 1 else -1 }

    function Length(): nat { Max(Dx(), Dy()) }

    function Target(): (int, int) { (AsI32(x1), AsI32(y1)) }

    /** On each axis the two coordinates are both below 2^31 or both not. */
    predicate Directed() { (x0 < TWO31 <==> x1 < TWO31) && (y0 < TWO31 <==> y1 < TWO31) }
  }

  function Abs(n: int): nat { if n < 0 then -n else n }

  function AsI32(n: nat): int { if n < TWO31 then n else n - TWO32 }

  /** `a` steps taken in x, `b` in y, and the error term. */
  datatype Cursor = Cursor(a: nat, b: nat, err: int)

  function Step(dx: nat, dy: nat, c: Cursor): Cursor {
    var e2 := 2 * c.err;
    var err := if e2 + dy >= 0 then c.err - dy else c.err;
    Cursor(if e2 + dy >= 0 then c.a + 1 else c.a,
           if e2 <= dx then c.b + 1 else c.b,
           if e2 <= dx then err + dx else err)
  }

  function Walk(dx: nat, dy: nat, k: nat): Cursor {
    if k == 0 then Cursor(0, 0, dx - dy) else Step(dx, dy, Walk(dx, dy, k - 1))
  }

  /** `a` steps from `x` in the direction `s`. */
  function Along(x: int, s: int, a: nat): int { if s == 1 then x + a else x - a }

  function PointAt(l: Line, k: nat): (int, int) {
    var c := Walk(l.Dx(), l.Dy(), k);
    (Along(AsI32(l.x0), l.Sx(), c.a), Along(AsI32(l.y0), l.Sy(), c.b))
  }

  // ----- accuracy -----

  /** `c` is `k * d / m` rounded, a half upwards. */
  ghost predicate Nearest(m: nat, d: nat, c: nat, k: nat) {
    0 - m <= 2 * (c * m - k * d) <= m && (2 * (c * m - k * d) == 0 - m ==> m == 0)
  }

  /** The major axis has advanced `k`, and the minor one is within half a pixel of the ideal
      line: it is at `k * dy / dx`, or `k * dx / dy`, rounded. */
  ghost predicate HalfPixel(dx: nat, dy: nat, c: Cursor, k: nat) {
    if dx >= dy then c.a == k && Nearest(dx, dy, c.b, k) else c.b == k && Nearest(dy, dx, c.a, k)
  }

  ghost predicate ErrIs(dx: nat, dy: nat, c: Cursor) {
    c.err == c.b * dx - c.a * dy + dx - dy
  }

  lemma MulNext(a: nat, m: nat)
    ensures (a + 1) * m == a * m + m
  {
  }

  lemma StepKeepsErr(dx: nat, dy: nat, c: Cursor)
    requires ErrIs(dx, dy, c)
    ensures ErrIs(dx, dy, Step(dx, dy, c))
  {
    MulNext(c.b, dx);
    MulNext(c.a, dy);
  }

  /** With `off` the distance from the ideal line: the next point along x is again close. */
  lemma XMajorStep(dx: nat, dy: nat, off: int, err: int)
    requires dx >= dy && err == off + dx - dy && 0 - dx <= 2 * off <= dx && (2 * off == 0 - dx ==> dx == 0)
    ensures 2 * err + dy >= 0
    ensures var off' := off - dy + if 2 * err <= dx then dx else 0;
      0 - dx <= 2 * off' <= dx && (2 * off' == 0 - dx ==> dx == 0)
  {
  }

  /** Likewise along y. */
  lemma YMajorStep(dx: nat, dy: nat, off: int, err: int)
    requires dx < dy && err == dx - off - dy && 0 - dy < 2 * off <= dy
    ensures 2 * err <= dx
    ensures 0 - dy < 2 * (off - dx + if 2 * err + dy >= 0 then dy else 0) <= dy
  {
  }

  lemma StepKeepsHalfPixel(dx: nat, dy: nat, c: Cursor, k: nat)
    requires ErrIs(dx, dy, c) && HalfPixel(dx, dy, c, k)
    ensures HalfPixel(dx, dy, Step(dx, dy, c), k + 1)
  {
    if dx >= dy {
      XMajorStep(dx, dy, c.b * dx - k * dy, c.err);
      MulNext(c.b, dx);
      MulNext(k, dy);
    } else {
      YMajorStep(dx, dy, c.a * dy - k * dx, c.err);
      MulNext(c.a, dy);
      MulNext(k, dx);
    }
  }

  /** Every point of the walk is within half a pixel of the ideal line. */
  lemma {:induction false} WalkStaysClose(dx: nat, dy: nat, k: nat)
    ensures ErrIs(dx, dy, Walk(dx, dy, k)) && HalfPixel(dx, dy, Walk(dx, dy, k), k)
  {
    if k == 0 {
    } else {
      WalkStaysClose(dx, dy, k - 1);
      StepKeepsErr(dx, dy, Walk(dx, dy, k - 1));
      StepKeepsHalfPixel(dx, dy, Walk(dx, dy, k - 1), k - 1);
    }
  }

  // ----- termination -----

  lemma MulMonotone(a: nat, b: nat, m: nat)
    requires a <= b
    ensures a * m <= b * m
  {
  }

  lemma MulApart(a: nat, b: nat, m: nat)
    ensures a < b ==> a * m + m <= b * m
  {
    if a < b {
      MulMonotone(a + 1, b, m);
      assert (a + 1) * m == a * m + m;
    }
  }

  /** Within half a pixel of `k * d / m` for `k <= m`, one is not above `d`; for `k == m` one is
      at `d`. */
  lemma MinorArrives(b: nat, d: nat, k: nat, m: nat)
    requires k <= m && 0 < m && 0 - m <= 2 * (b * m - k * d) <= m
    ensures b <= d && (k == m ==> b == d)
  {
    MulMonotone(k, m, d);
    MulApart(d, b, m);
    MulApart(b, d, m);
    assert m * d == d * m;
  }

  lemma CornerOf(dx: nat, dy: nat, c: Cursor, k: nat)
    requires HalfPixel(dx, dy, c, k) && k <= Max(dx, dy) && 0 < Max(dx, dy)
    ensures c.a <= dx && c.b <= dy && (c.a == dx && c.b == dy <==> k == Max(dx, dy))
  {
    if dx >= dy {
      MinorArrives(c.b, dy, k, dx);
    } else {
      MinorArrives(c.a, dx, k, dy);
    }
  }

  /** The walk stays inside the rectangle, and is at its far corner after `Max(dx, dy)` steps
      and not before. */
  lemma WalkArrives(dx: nat, dy: nat, k: nat)
    requires k <= Max(dx, dy)
    ensures var c := Walk(dx, dy, k); c.a <= dx && c.b <= dy && (c.a == dx && c.b == dy <==> k == Max(dx, dy))
  {
    if Max(dx, dy) > 0 {
      WalkStaysClose(dx, dy, k);
      CornerOf(dx, dy, Walk(dx, dy, k), k);
    }
  }

  /** In unbounded arithmetic the walk meets the endpoint first after exactly max(|dx|, |dy|)
      steps, if on each axis the coordinates lie on the same side of 2^31. */
  lemma WalkMeetsTarget(l: Line, k: nat)
    requires l.Fits() && l.Directed() && k <= l.Length()
    ensures PointAt(l, k) == l.Target() <==> k == l.Length()
  {
    WalkArrives(l.Dx(), l.Dy(), k);
  }

  /** Otherwise the unsigned comparison picks the wrong direction, and the walk never does. */
  lemma WalkMissesTarget(l: Line, k: nat)
    requires l.Fits() && !l.Directed()
    ensures PointAt(l, k) != l.Target()
  {
  }

  // ----- 32-bit arithmetic -----

  predicate InI32(n: int) { 0 - TWO31 <= n < TWO31 }

  /** The differences of the coordinates and their absolute values fit. */
  predicate SetupFits(l: Line) { l.Dx() < TWO31 && l.Dy() < TWO31 }

  /** Every value computed in turn `k` fits: the doubled error, the error after each of the two
      adjustments, and the new point. */
  predicate TurnFits(l: Line, k: nat) {
    var c, c', p := Walk(l.Dx(), l.Dy(), k), Walk(l.Dx(), l.Dy(), k + 1), PointAt(l, k + 1);
    && InI32(2 * c.err) && (c'.a > c.a ==> InI32(c.err - l.Dy())) && InI32(c'.err)
    && InI32(p.0) && InI32(p.1)
  }

  /** No overflow before turn `k`. */
  ghost predicate Clean(l: Line, k: nat) {
    SetupFits(l) && forall j: nat :: j < k ==> TurnFits(l, j)
  }

  lemma ErrBounded(dx: nat, dy: nat, k: nat)
    ensures Abs(2 * Walk(dx, dy, k).err) <= 3 * Max(dx, dy)
  {
    WalkStaysClose(dx, dy, k);
  }

  lemma AxisBounded(p: nat, q: nat, a: nat)
    requires p < TWO32 && q < TWO32 && (p < TWO31 <==> q < TWO31) && a <= Abs(AsI32(q) - AsI32(p))
    ensures InI32(Along(AsI32(p), if p < q then 1 else -1, a))
  {
  }

  /** Between points on the same side of 2^31, with max(|dx|, |dy|) at most 715827882, nothing
      overflows on the way. */
  lemma NoOverflow(l: Line, k: nat)
    requires l.Fits() && l.Directed() && k <= l.Length() <= 715827882
    ensures Clean(l, k)
  {
    forall j: nat | j < k
      ensures TurnFits(l, j)
    {
      var c := Walk(l.Dx(), l.Dy(), j + 1);
      ErrBounded(l.Dx(), l.Dy(), j);
      ErrBounded(l.Dx(), l.Dy(), j + 1);
      WalkArrives(l.Dx(), l.Dy(), j + 1);
      AxisBounded(l.x0, l.x1, c.a);
      AxisBounded(l.y0, l.y1, c.b);
    }
  }

  /** The major axis advances each turn, so no line stays clean for 2^32 turns. */
  lemma CleanIsShort(l: Line, k: nat)
    requires l.Fits() && Clean(l, k)
    ensures k < TWO32
  {
    if k > 0 {
      assert TurnFits(l, k - 1);
      WalkStaysClose(l.Dx(), l.Dy(), k);
    }
  }

  /** The loop stands on its endpoint before anything overflows if and only if the coordinates
      lie on the same side of 2^31 on each axis and the first max(|dx|, |dy|) turns are clean. */
  lemma ArrivesCleanlyIff(l: Line)
    requires l.Fits()
    ensures (exists k: nat :: Clean(l, k) && PointAt(l, k) == l.Target()) <==> l.Directed() && Clean(l, l.Length())
  {
    if l.Directed() {
      WalkMeetsTarget(l, l.Length());
      forall k: nat | Clean(l, k) && PointAt(l, k) == l.Target()
        ensures Clean(l, l.Length())
      {
        if k < l.Length() {
          WalkMeetsTarget(l, k);
        }
      }
    } else {
      forall k: nat
        ensures PointAt(l, k) != l.Target()
      {
        WalkMissesTarget(l, k);
      }
    }
  }

  // ----- the loop without overflow checks -----

  /** A sum or difference of two 32-bit numbers, or twice one, as a 32-bit register keeps it. */
  function Wrap(n: int): int {
    if n < 0 - TWO31 then n + TWO32 else if n >= TWO31 then n - TWO32 else n
  }

  datatype Regs = Regs(x: int, y: int, err: int)

  function WrappedDx(l: Line): int { Wrap(Abs(Wrap(AsI32(l.x1) - AsI32(l.x0)))) }

  function WrappedDy(l: Line): int { Wrap(0 - Wrap(Abs(Wrap(AsI32(l.y1) - AsI32(l.y0))))) }

  /** One turn of the loop; `dy` is the negated height. */
  function Turn(dx: int, dy: int, sx: int, sy: int, r: Regs): Regs {
    var e2 := Wrap(2 * r.err);
    var err := if e2 >= dy then Wrap(r.err + dy) else r.err;
    Regs(if e2 >= dy then Wrap(r.x + sx) else r.x,
         if e2 <= dx then Wrap(r.y + sy) else r.y,
         if e2 <= dx then Wrap(err + dx) else err)
  }

  /** The registers after `k` turns. */
  function Track(dx: int, dy: int, sx: int, sy: int, r: Regs, k: nat): Regs {
    if k == 0 then r else Turn(dx, dy, sx, sy, Track(dx, dy, sx, sy, r, k - 1))
  }

  function Loop(l: Line, k: nat): Regs {
    var dx, dy := WrappedDx(l), WrappedDy(l);
    Track(dx, dy, l.Sx(), l.Sy(), Regs(AsI32(l.x0), AsI32(l.y0), Wrap(dx + dy)), k)
  }

  lemma SetupIsExact(l: Line)
    requires l.Fits() && SetupFits(l)
    ensures WrappedDx(l) == l.Dx() && WrappedDy(l) == 0 - l.Dy()
  {
  }

  /** `a` steps from `x` in the direction `s`, each wrapping. */
  function WrapAlong(x: int, s: int, a: nat): int {
    if a == 0 then x else Wrap(WrapAlong(x, s, a - 1) + s)
  }

  /** The error term fits in a turn from `c` to `c'`. */
  predicate ErrFits(dy: nat, c: Cursor, c': Cursor) {
    InI32(2 * c.err) && (c'.a > c.a ==> InI32(c.err - dy)) && InI32(c'.err)
  }

  /** ... and in each of the first `k` turns. */
  predicate ErrsFit(dx: nat, dy: nat, k: nat) {
    k == 0 || (ErrsFit(dx, dy, k - 1) && ErrFits(dy, Walk(dx, dy, k - 1), Walk(dx, dy, k)))
  }

  /** While the error term fits, a turn is a step of the walk, and only the coordinates wrap. */
  lemma TurnIsStep(dx: nat, dy: nat, sx: int, sy: int, x: int, y: int, c: Cursor, c': Cursor)
    requires c' == Step(dx, dy, c) && ErrFits(dy, c, c')
    ensures Turn(dx, 0 - dy, sx, sy, Regs(WrapAlong(x, sx, c.a), WrapAlong(y, sy, c.b), c.err)) ==
            Regs(WrapAlong(x, sx, c'.a), WrapAlong(y, sy, c'.b), c'.err)
  {
  }

  lemma {:induction false} TrackIsWalk(dx: nat, dy: nat, sx: int, sy: int, x: int, y: int, k: nat, c: Cursor)
    requires ErrsFit(dx, dy, k) && c == Walk(dx, dy, k)
    ensures Track(dx, 0 - dy, sx, sy, Regs(x, y, dx - dy), k) == Regs(WrapAlong(x, sx, c.a), WrapAlong(y, sy, c.b), c.err)
  {
    if k == 0 {
    } else {
      var before := Walk(dx, dy, k - 1);
      TrackIsWalk(dx, dy, sx, sy, x, y, k - 1, before);
      TurnIsStep(dx, dy, sx, sy, x, y, before, c);
    }
  }

  lemma {:induction false} WrapAlongIsExact(x: int, s: int, a: nat)
    requires InI32(x) && (s == 1 || s == -1) && InI32(Along(x, s, a))
    ensures WrapAlong(x, s, a) == Along(x, s, a)
  {
    if a == 0 {
    } else {
      WrapAlongIsExact(x, s, a - 1);
    }
  }

  lemma LoopIsTrack(l: Line, dx: nat, dy: nat, k: nat, c: Cursor)
    requires l.Fits() && SetupFits(l) && dx == l.Dx() && dy == l.Dy()
    requires ErrsFit(dx, dy, k) && c == Walk(dx, dy, k)
    ensures Loop(l, k) == Regs(WrapAlong(AsI32(l.x0), l.Sx(), c.a), WrapAlong(AsI32(l.y0), l.Sy(), c.b), c.err)
  {
    SetupIsExact(l);
    TrackIsWalk(dx, dy, l.Sx(), l.Sy(), AsI32(l.x0), AsI32(l.y0), k, c);
  }

  /** Until something overflows the registers hold the walk. */
  lemma LoopIsWalk(l: Line, k: nat, c: Cursor)
    requires l.Fits() && Clean(l, k) && c == Walk(l.Dx(), l.Dy(), k)
    ensures Loop(l, k) == Regs(PointAt(l, k).0, PointAt(l, k).1, c.err)
  {
    CleanErr(l, k);
    LoopIsTrack(l, l.Dx(), l.Dy(), k, c);
    WrapAlongIsExact(AsI32(l.x0), l.Sx(), c.a);
    WrapAlongIsExact(AsI32(l.y0), l.Sy(), c.b);
  }

  lemma {:induction false} CleanErr(l: Line, k: nat)
    requires l.Fits() && Clean(l, k)
    ensures ErrsFit(l.Dx(), l.Dy(), k) && InI32(PointAt(l, k).0) && InI32(PointAt(l, k).1)
  {
    if k == 0 {
    } else {
      CleanErr(l, k - 1);
      assert TurnFits(l, k - 1);
    }
  }

  /** The loop meets its endpoint first after exactly max(|dx|, |dy|) turns, for all endpoints on
      the same side of 2^31 and at most 715827882 apart; and until then it is at the points of
      the walk, each within half a pixel of the ideal line. */
  lemma ReachesFirstAt(l: Line, k: nat)
    requires l.Fits() && l.Directed() && k <= l.Length() <= 715827882
    ensures (Loop(l, k).x, Loop(l, k).y) == l.Target() <==> k == l.Length()
    ensures (Loop(l, k).x, Loop(l, k).y) == PointAt(l, k) && HalfPixel(l.Dx(), l.Dy(), Walk(l.Dx(), l.Dy(), k), k)
  {
    NoOverflow(l, k);
    LoopIsWalk(l, k, Walk(l.Dx(), l.Dy(), k));
    WalkMeetsTarget(l, k);
    WalkStaysClose(l.Dx(), l.Dy(), k);
  }

  /** What a 32-bit register keeps of any number. */
  function Kept(n: int): int { (n + TWO31) % TWO32 - TWO31 }

  lemma KeptNext(n: int, d: int)
    requires -1 <= d <= 1
    ensures Wrap(Kept(n) + d) == Kept(n + d) && (InI32(n) ==> Kept(n) == n)
  {
  }

  lemma {:induction false} WrapAlongIsKept(x: int, s: int, a: nat)
    requires InI32(x) && (s == 1 || s == -1)
    ensures WrapAlong(x, s, a) == Kept(Along(x, s, a))
  {
    if a == 0 {
      KeptNext(x, 0);
    } else {
      WrapAlongIsKept(x, s, a - 1);
      KeptNext(Along(x, s, a - 1), s);
    }
  }

  lemma {:induction false} ShortErrsFit(dx: nat, dy: nat, k: nat)
    requires Max(dx, dy) <= 715827882
    ensures ErrsFit(dx, dy, k)
  {
    if k == 0 {
    } else {
      ShortErrsFit(dx, dy, k - 1);
      ErrBounded(dx, dy, k - 1);
      ErrBounded(dx, dy, k);
    }
  }

  /** Up to that length the error term never overflows, however long the loop goes on: only the
      coordinates wrap, whatever the endpoints. */
  lemma LoopWraps(l: Line, k: nat, c: Cursor)
    requires l.Fits() && l.Length() <= 715827882 && c == Walk(l.Dx(), l.Dy(), k)
    ensures Loop(l, k) == Regs(Kept(PointAt(l, k).0), Kept(PointAt(l, k).1), c.err)
  {
    ShortErrsFit(l.Dx(), l.Dy(), k);
    LoopIsTrack(l, l.Dx(), l.Dy(), k, c);
    WrapAlongIsKept(AsI32(l.x0), l.Sx(), c.a);
    WrapAlongIsKept(AsI32(l.y0), l.Sy(), c.b);
  }

  /** Where the exit is met, for every line up to that length: the loop stands on its endpoint
      after `k` turns if and only if the walk is at it up to multiples of 2^32. */
  lemma StandsOnTargetIff(l: Line, k: nat)
    requires l.Fits() && l.Length() <= 715827882
    ensures (Loop(l, k).x, Loop(l, k).y) == l.Target() <==>
      (PointAt(l, k).0 - l.Target().0) % TWO32 == 0 && (PointAt(l, k).1 - l.Target().1) % TWO32 == 0
  {
    LoopWraps(l, k, Walk(l.Dx(), l.Dy(), k));
    KeptIs(PointAt(l, k).0, l.Target().0);
    KeptIs(PointAt(l, k).1, l.Target().1);
  }

  lemma KeptIs(n: int, t: int)
    requires InI32(t)
    ensures Kept(n) == t <==> (n - t) % TWO32 == 0
  {
    var q := (n + TWO31) / TWO32;
    assert n == TWO32 * q + Kept(n);
    Multiple(q, Kept(n) - t);
  }

  lemma Multiple(q: int, d: int)
    requires 0 - TWO32 < d < TWO32
    ensures (TWO32 * q + d) % TWO32 == 0 <==> d == 0
  {
  }

  lemma WrongWay(p: nat, q: nat, k: nat)
    requires p < TWO32 && q < TWO32 && !(p < TWO31 <==> q < TWO31)
    ensures var d := k + Abs(AsI32(q) - AsI32(p));
      Along(AsI32(p), if p < q then 1 else -1, k) - AsI32(q) == if p < q then d else 0 - d
  {
  }

  lemma OnceRound(d: nat)
    requires 0 < d <= TWO32
    ensures (d % TWO32 == 0 <==> d == TWO32) && ((0 - d) % TWO32 == 0 <==> d == TWO32)
  {
    Multiple(1, d - TWO32);
    Multiple(-1, TWO32 - d);
  }

  lemma FlatPoint(l: Line, k: nat)
    requires l.y0 == l.y1 && l.Dx() > 0
    ensures PointAt(l, k) == (Along(AsI32(l.x0), l.Sx(), k), AsI32(l.y1))
  {
    WalkStaysClose(l.Dx(), l.Dy(), k);
    FlatStaysFlat(l.Dx(), Walk(l.Dx(), l.Dy(), k), k);
  }

  /** A horizontal line across 2^31 goes the wrong way and comes round: it meets its endpoint
      first after 2^32 - |dx| turns. */
  lemma ComesRound(l: Line, k: nat)
    requires l.Fits() && !l.Directed() && l.y0 == l.y1 && l.Dx() <= 715827882 && k <= TWO32 - l.Dx()
    ensures (Loop(l, k).x, Loop(l, k).y) == l.Target() <==> k == TWO32 - l.Dx()
  {
    StandsOnTargetIff(l, k);
    FlatPoint(l, k);
    WrongWay(l.x0, l.x1, k);
    OnceRound(k + l.Dx());
  }

  lemma FlatStaysFlat(dx: nat, c: Cursor, k: nat)
    requires dx > 0 && HalfPixel(dx, 0, c, k)
    ensures c.a == k && c.b == 0
  {
    MulApart(0, c.b, dx);
  }

  /** Beyond that length a line may leave its way at once: here the first turn moves down
      instead of right. */
  lemma LongLineGoesAstray()
    ensures var l := Line(0, 0, 0x7FFF_FFFF, 0); l.Fits() && l.Directed() && Loop(l, 1) == Regs(0, -1, -2)
  {
    var l := Line(0, 0, 0x7FFF_FFFF, 0);
    assert Loop(l, 0) == Regs(0, 0, 0x7FFF_FFFF);
    assert Loop(l, 1) == Turn(WrappedDx(l), WrappedDy(l), l.Sx(), l.Sy(), Loop(l, 0));
  }

  // ----- the framebuffer -----

  /** The pixel is one of the first `k` points of the line. */
  ghost predicate OnLine(l: Line, k: nat, x: nat, y: nat) {
    exists j: nat :: j < k && PointAt(l, j) == (x, y)
  }

  /** The word index of a pixel: rows of `width` words. */
  function Cell(width: nat, x: nat, y: nat): nat { y * width + x }

  lemma CellInRange(width: nat, height: nat, x: nat, y: nat)
    requires x < width && y < height
    ensures Cell(width, x, y) < width * height
  {
    MulApart(y, height, width);
    assert width * height == height * width;
  }

  lemma CellsDiffer(width: nat, x: nat, y: nat, x': nat, y': nat)
    requires x < width && x' < width
    ensures Cell(width, x, y) == Cell(width, x', y') ==> x == x' && y == y'
  {
    MulApart(y, y', width);
    MulApart(y', y, width);
  }

  datatype Screen = Screen(width: nat, height: nat, pixels: seq<nat>) {
    predicate Valid() { |pixels| == width * height }

    ghost function At(x: nat, y: nat): nat
      requires Valid() && x < width && y < height
    {
      CellInRange(width, height, x, y);
      pixels[Cell(width, x, y)]
    }
  }

  /** Every pixel has `color` if it is among the first `k` points of the line, and else what it
      had in `was`. */
  ghost predicate Painted(was: Screen, now: Screen, l: Line, k: nat, color: nat) {
    && was.Valid() && now.Valid() && was.width == now.width && was.height == now.height
    && forall x: nat, y: nat :: x < was.width && y < was.height ==>
         now.At(x, y) == if OnLine(l, k, x, y) then color else was.At(x, y)
  }

  /** Only the point `p` is painted, and only if it is on the screen. */
  ghost predicate Plotted(was: Screen, now: Screen, p: (int, int), color: nat) {
    && was.Valid() && now.Valid() && was.width == now.width && was.height == now.height
    && forall x: nat, y: nat :: x < was.width && y < was.height ==>
         now.At(x, y) == if p == (x, y) then color else was.At(x, y)
  }

  lemma PlotExtends(was: Screen, mid: Screen, now: Screen, l: Line, k: nat, p: (int, int), color: nat)
    requires p == PointAt(l, k)
    requires Painted(was, mid, l, k, color) && Plotted(mid, now, p, color)
    ensures Painted(was, now, l, k + 1, color)
  {
  }

  /** Where a build with overflow checks stops, one without goes on as `Loop` does. */
  datatype Outcome = Skipped | Drawn | Overflowed

  class Framebuffer {
    const width: nat
    const height: nat
    const pixels: array<nat>
    var initialized: bool

    ghost predicate Valid()
      reads this
    {
      pixels.Length == width * height
    }

    ghost function View(): Screen
      reads this, pixels
    {
      Screen(width, height, pixels[..])
    }

    constructor (width: nat, height: nat)
      ensures Valid() && fresh(pixels) && initialized && this.width == width && this.height == height
    {
      this.width := width;
      this.height := height;
      pixels := new nat[width * height](_ => 0);
      initialized := true;
    }

    method Plot(x: int, y: int, color: nat)
      requires Valid()
      modifies pixels
      ensures Plotted(old(View()), View(), (x, y), color)
    {
      if x >= 0 && y >= 0 && x < width && y < height {
        CellInRange(width, height, x, y);
        pixels[Cell(width, x, y)] := color;
        forall px: nat, py: nat | px < width && py < height
          ensures View().At(px, py) == if (x, y) == (px, py) then color else old(View()).At(px, py)
        {
          CellsDiffer(width, x, y, px, py);
          CellInRange(width, height, px, py);
        }
      }
    }

    /** Paint point `n` of the line. */
    method PaintPoint(l: Line, ghost n: nat, x: int, y: int, color: nat, ghost was: Screen)
      requires Valid() && (x, y) == PointAt(l, n) && Painted(was, View(), l, n, color)
      modifies pixels
      ensures Painted(was, View(), l, n + 1, color)
    {
      Plot(x, y, color);
      PlotExtends(was, old(View()), View(), l, n, (x, y), color);
    }

    /** The loop: it ends on the endpoint, or in the turn that overflows. */
    method PaintLoop(l: Line, color: nat, dx: int, dy: int) returns (arrived: bool, ghost n: nat)
      requires Valid() && l.Fits() && SetupFits(l) && dx == l.Dx() && dy == 0 - l.Dy()
      modifies pixels
      ensures n > 0 && Painted(old(View()), View(), l, n, color) && Clean(l, n - 1)
      ensures arrived ==> l.Directed() && n == l.Length() + 1
      ensures !arrived ==> !TurnFits(l, n - 1) && (l.Directed() ==> n <= l.Length())
    {
      var x, y := AsI32(l.x0), AsI32(l.y0);
      var sx := if l.x0 < l.x1 then 1 else -1;
      var sy := if l.y0 < l.y1 then 1 else -1;
      var err := dx + dy;
      ghost var was := View();
      n := 0;
      while true
        invariant Clean(l, n) && (l.Directed() ==> n <= l.Length())
        invariant (x, y) == PointAt(l, n) && err == Walk(l.Dx(), l.Dy(), n).err
        invariant Painted(was, View(), l, n, color)
        decreases TWO32 - n
      {
        PaintPoint(l, n, x, y, color, was);
        ghost var k := n;
        n := n + 1;
        StandsOnTarget(l, k);
        if x == AsI32(l.x1) && y == AsI32(l.y1) {
          return true, n;
        }
        var ok;
        ok, x, y, err := Advance(l, k, x, y, err, dx, dy, sx, sy);
        if !ok {
          return false, n;
        }
        CleanNext(l, k);
      }
    }

    /** Exactly the on-screen points of the line are painted, if nothing overflows on the way;
        otherwise the points up to the turn that overflows. */
    method DrawLine(l: Line, color: nat) returns (r: Outcome, ghost n: nat)
      requires Valid() && l.Fits()
      modifies pixels
      ensures Painted(old(View()), View(), l, n, color)
      ensures r == Skipped <==> !initialized
      ensures r == Drawn <==> initialized && l.Directed() && Clean(l, l.Length())
      ensures r == Skipped ==> n == 0
      ensures r == Drawn ==> n == l.Length() + 1
      ensures r == Overflowed ==> if n == 0 then !SetupFits(l) else Clean(l, n - 1) && !TurnFits(l, n - 1)
    {
      if !initialized {
        return Skipped, 0;
      }
      var dx: int := Abs(AsI32(l.x1) - AsI32(l.x0));
      var dy := 0 - Abs(AsI32(l.y1) - AsI32(l.y0));
      if dx >= TWO31 || dy <= 0 - TWO31 {
        return Overflowed, 0;
      }
      var arrived;
      arrived, n := PaintLoop(l, color, dx, dy);
      r := if arrived then Drawn else Overflowed;
    }
  }

  lemma StandsOnTarget(l: Line, k: nat)
    requires l.Fits() && Clean(l, k) && (l.Directed() ==> k <= l.Length())
    ensures PointAt(l, k) == l.Target() <==> l.Directed() && k == l.Length()
  {
    if l.Directed() {
      WalkMeetsTarget(l, k);
    } else {
      WalkMissesTarget(l, k);
    }
  }

  lemma CleanNext(l: Line, k: nat)
    requires l.Fits() && Clean(l, k) && TurnFits(l, k)
    ensures Clean(l, k + 1) && k + 1 < TWO32
  {
    CleanIsShort(l, k + 1);
  }

  /** One turn of the loop; `ok` is false if a value computed in it does not fit. */
  method Advance(l: Line, ghost k: nat, x: int, y: int, err: int, dx: int, dy: int, sx: int, sy: int)
    returns (ok: bool, x': int, y': int, err': int)
    requires (x, y) == PointAt(l, k) && err == Walk(l.Dx(), l.Dy(), k).err
    requires dx == l.Dx() && dy == 0 - l.Dy() && sx == l.Sx() && sy == l.Sy()
    ensures ok <==> TurnFits(l, k)
    ensures (x', y') == PointAt(l, k + 1) && err' == Walk(l.Dx(), l.Dy(), k + 1).err
  {
    x', y', err' := x, y, err;
    var e2 := 2 * err;
    ok := InI32(e2);
    if e2 >= dy {
      err', x' := err' + dy, x' + sx;
      ok := ok && InI32(err') && InI32(x');
    }
    if e2 <= dx {
      err', y' := err' + dx, y' + sy;
      ok := ok && InI32(err') && InI32(y');
    }
    ok := ok && InI32(err') && InI32(x') && InI32(y');
  }
}
