/** Which lines the drawing loop finishes in a build without overflow checks. Where the unsigned
    comparison picks the wrong direction, the loop runs past its endpoint and round the 32-bit
    coordinates, and may or may not come to stand on the endpoint later. */
module LineEnds {
  import opened Basics
  import opened DrawLine

  /** The coordinates lie on different sides of 2^31: the axis starts out the wrong way. */
  predicate Across(p: nat, q: nat) { !(p < TWO31 <==> q < TWO31) }

  ghost predicate AtTarget(l: Line, k: nat) { (Loop(l, k).x, Loop(l, k).y) == l.Target() }

  /** The exit of the loop is met after some number of turns. */
  ghost predicate Ends(l: Line) { exists k: nat :: AtTarget(l, k) }

  // ----- greatest common divisors -----

  function Gcd(a: nat, b: nat): nat
    decreases b
  {
    if b == 0 then a else Gcd(b, a % b)
  }

  lemma {:induction false} GcdDivides(a: nat, b: nat) returns (p: nat, q: nat)
    ensures a == Gcd(a, b) * p && b == Gcd(a, b) * q
    decreases b
  {
    if b == 0 {
      return 1, 0;
    }
    var h, rest := a / b, a % b;
    var q', r := GcdDivides(b, rest);
    p, q := h * q' + r, q';
    Combine(Gcd(b, rest), h, q', r, a, b, rest);
  }

  lemma Combine(g: nat, h: nat, q: nat, r: nat, a: nat, b: nat, rest: nat)
    requires a == h * b + rest && b == g * q && rest == g * r
    ensures a == g * (h * q + r)
  {
    assert g * (h * q) == h * (g * q);
  }

  lemma {:induction false} Bezout(a: nat, b: nat) returns (x: int, y: int)
    ensures x * a + y * b == Gcd(a, b)
    decreases b
  {
    if b == 0 {
      return 1, 0;
    }
    var x', y' := Bezout(b, a % b);
    x, y := y', x' - y' * (a / b);
    assert y' * a == y' * (a / b * b) + y' * (a % b);
    assert y * b == x' * b - y' * (a / b * b);
  }

  /** Coefficients can be made positive. */
  lemma Raise(i: int, j: int, m: nat, d: nat) returns (i': nat, j': nat)
    requires m > 0 && d > 0
    ensures i' > 0 && j' > 0 && i' * d - j' * m == i * d - j * m
  {
    var h := Abs(i) + Abs(j) + 1;
    assert h * m >= h && h * d >= h;
    i', j' := i + h * m, j + h * d;
    assert h * m * d == h * d * m;
  }

  /** The signed distance of `n` from the nearest multiple of `w`. */
  function Rest(n: nat, w: nat): int
    requires w > 0
    decreases n
  {
    if 2 * n < w then n else if n < w then n - w else Rest(n - w, w)
  }

  lemma {:induction false} RestOf(n: nat, w: nat) returns (v: int)
    requires w > 0
    ensures n == w * v + Rest(n, w)
    decreases n
  {
    if 2 * n < w {
      v := 0;
    } else if n < w {
      v := 1;
    } else {
      v := RestOf(n - w, w);
      v := v + 1;
    }
  }

  lemma {:induction false} RestIs(n: nat, w: nat, v: int, e: int)
    requires w > 0 && n == w * v + e && 0 - w < 2 * e < w
    ensures Rest(n, w) == e
    decreases n
  {
    assert v <= -1 ==> w * v <= 0 - w;
    assert v >= 2 ==> w * v >= 2 * w;
    if n >= w {
      assert n - w == w * (v - 1) + e;
      RestIs(n - w, w, v - 1, e);
    }
  }

  // ----- major and minor axis -----

  /** An axis stands on its endpoint after `a` steps: it has `d` to go, or `d` behind it. */
  predicate Hits(a: nat, d: nat, across: bool) {
    (if across then a + d else a - d) % TWO32 == 0
  }

  /** After `k` steps of the major axis, of length `m`, and the `c` of the minor one, of length
      `d`, that go with them, both axes stand on their endpoints. */
  ghost predicate Meets(m: nat, d: nat, majorAcross: bool, minorAcross: bool, k: nat, c: nat) {
    Nearest(m, d, c, k) && Hits(k, m, majorAcross) && Hits(c, d, minorAcross)
  }

  lemma NearestUnique(m: nat, d: nat, c: nat, c': nat, k: nat)
    requires m > 0 && Nearest(m, d, c, k) && Nearest(m, d, c', k)
    ensures c == c'
  {
    MulApart(c, c', m);
    MulApart(c', c, m);
  }

  lemma Opposite(n: int)
    ensures n % TWO32 == 0 <==> (0 - n) % TWO32 == 0
  {
  }

  lemma AxisHits(p: nat, q: nat, a: nat)
    requires p < TWO32 && q < TWO32
    ensures (Along(AsI32(p), if p < q then 1 else -1, a) - AsI32(q)) % TWO32 == 0
            <==> Hits(a, Abs(AsI32(q) - AsI32(p)), Across(p, q))
  {
    var d := Abs(AsI32(q) - AsI32(p));
    Opposite(a + d);
    Opposite(a - d);
  }

  lemma AtTargetIs(l: Line, k: nat)
    requires l.Fits() && l.Length() <= 715827882
    ensures var c := Walk(l.Dx(), l.Dy(), k);
      AtTarget(l, k) <==> Hits(c.a, l.Dx(), Across(l.x0, l.x1)) && Hits(c.b, l.Dy(), Across(l.y0, l.y1))
  {
    StandsOnTargetIff(l, k);
    PointHits(l, k, Walk(l.Dx(), l.Dy(), k));
  }

  lemma PointHits(l: Line, k: nat, c: Cursor)
    requires l.Fits() && c == Walk(l.Dx(), l.Dy(), k)
    ensures (PointAt(l, k).0 - l.Target().0) % TWO32 == 0 <==> Hits(c.a, l.Dx(), Across(l.x0, l.x1))
    ensures (PointAt(l, k).1 - l.Target().1) % TWO32 == 0 <==> Hits(c.b, l.Dy(), Across(l.y0, l.y1))
  {
    AxisHits(l.x0, l.x1, c.a);
    AxisHits(l.y0, l.y1, c.b);
  }

  /** The line in terms of its major axis. */
  ghost predicate LineMeets(l: Line, k: nat, c: nat) {
    if l.Dx() >= l.Dy() then Meets(l.Dx(), l.Dy(), Across(l.x0, l.x1), Across(l.y0, l.y1), k, c)
    else Meets(l.Dy(), l.Dx(), Across(l.y0, l.y1), Across(l.x0, l.x1), k, c)
  }

  lemma EndsWhen(l: Line, k: nat, c: nat)
    requires l.Fits() && 0 < l.Length() <= 715827882 && LineMeets(l, k, c)
    ensures Ends(l)
  {
    var w := Walk(l.Dx(), l.Dy(), k);
    AtTargetIs(l, k);
    WalkStaysClose(l.Dx(), l.Dy(), k);
    if l.Dx() >= l.Dy() {
      NearestUnique(l.Dx(), l.Dy(), c, w.b, k);
    } else {
      NearestUnique(l.Dy(), l.Dx(), c, w.a, k);
    }
    assert AtTarget(l, k);
  }

  lemma EndsOnlyWhen(l: Line) returns (k: nat, c: nat)
    requires l.Fits() && l.Length() <= 715827882 && Ends(l)
    ensures LineMeets(l, k, c)
  {
    k :| AtTarget(l, k);
    AtTargetIs(l, k);
    WalkStaysClose(l.Dx(), l.Dy(), k);
    c := if l.Dx() >= l.Dy() then Walk(l.Dx(), l.Dy(), k).b else Walk(l.Dx(), l.Dy(), k).a;
  }

  // ----- one axis across -----

  /** Some multiple of 2^32 gcd(m, d) lies within m / 2 of 2 m d. */
  predicate Lands(m: nat, d: nat, majorAcross: bool)
    requires Gcd(m, d) > 0
  {
    var e := Rest(2 * (m * d), TWO32 * Gcd(m, d));
    if majorAcross then 0 - m < 2 * e <= m else 0 - m <= 2 * e < m
  }

  /** How far the minor axis is off, once both stand on their endpoints. */
  lemma OffMajor(m: nat, d: nat, k: nat, c: nat, i: int, j: int)
    requires k + m == TWO32 * i && c - d == TWO32 * j
    ensures c * m - k * d == 2 * (m * d) - TWO32 * (i * d - j * m)
  {
    assert c * m == d * m + TWO32 * (j * m);
    assert k * d == TWO32 * (i * d) - m * d;
  }

  lemma OffMinor(m: nat, d: nat, k: nat, c: nat, i: int, j: int)
    requires k - m == TWO32 * i && c + d == TWO32 * j
    ensures c * m - k * d == TWO32 * (j * m - i * d) - 2 * (m * d)
  {
    assert c * m == TWO32 * (j * m) - d * m;
    assert k * d == m * d + TWO32 * (i * d);
  }

  lemma LandsIfMeets(m: nat, d: nat, majorAcross: bool, k: nat, c: nat)
    requires 0 < d <= m <= 715827882 && Meets(m, d, majorAcross, !majorAcross, k, c)
    ensures Gcd(m, d) > 0 && Lands(m, d, majorAcross)
  {
    var p, q := GcdDivides(m, d);
    if majorAcross {
      var i, j := (k + m) / TWO32, (c - d) / TWO32;
      OffMajor(m, d, k, c, i, j);
      Factor(m, d, Gcd(m, d), p, q, i, j);
      RestFrom(m, 2 * (m * d), Gcd(m, d), i * q - j * p, c * m - k * d);
    } else {
      var i, j := (k - m) / TWO32, (c + d) / TWO32;
      OffMinor(m, d, k, c, i, j);
      Factor(m, d, Gcd(m, d), p, q, i, j);
      RestFrom(m, 2 * (m * d), Gcd(m, d), j * p - i * q, k * d - c * m);
    }
  }

  lemma Factor(m: nat, d: nat, g: nat, p: nat, q: nat, i: int, j: int)
    requires m == g * p && d == g * q && m > 0
    ensures i * d - j * m == g * (i * q - j * p) && j * m - i * d == g * (j * p - i * q) && g > 0
  {
    assert i * (g * q) == g * (i * q) && j * (g * p) == g * (j * p);
  }

  lemma RestFrom(m: nat, n: nat, g: nat, v: int, e: int)
    requires g > 0 && m < TWO32 && 0 - m <= 2 * e <= m && n == TWO32 * (g * v) + e
    ensures Rest(n, TWO32 * g) == e
  {
    Regroup(g, v);
    RestIs(n, TWO32 * g, v, e);
  }

  lemma MeetsIfLands(m: nat, d: nat, majorAcross: bool) returns (k: nat, c: nat)
    requires 0 < d <= m <= 715827882 && Gcd(m, d) > 0 && Lands(m, d, majorAcross)
    ensures Meets(m, d, majorAcross, !majorAcross, k, c)
  {
    var e, u, i, j := Solve(m, d, majorAcross);
    if majorAcross {
      k, c := TWO32 * i - m, d + TWO32 * j;
      LandMajor(m, d, u, i, j, e);
    } else {
      k, c := m + TWO32 * i, TWO32 * j - d;
      LandMinor(m, d, u, i, j, e);
    }
  }

  lemma Solve(m: nat, d: nat, majorAcross: bool) returns (e: int, u: int, i: nat, j: nat)
    requires m > 0 && d > 0 && Gcd(m, d) > 0
    ensures e == Rest(2 * (m * d), TWO32 * Gcd(m, d)) && 2 * (m * d) == TWO32 * u + e
    ensures i > 0 && j > 0 && i * d - j * m == if majorAcross then u else 0 - u
  {
    var g := Gcd(m, d);
    e := Rest(2 * (m * d), TWO32 * g);
    var v := RestOf(2 * (m * d), TWO32 * g);
    Regroup(g, v);
    u := g * v;
    if majorAcross {
      i, j := Coefficients(m, d, v);
    } else {
      i, j := Coefficients(m, d, 0 - v);
    }
  }

  lemma Regroup(g: nat, v: int)
    ensures TWO32 * g * v == TWO32 * (g * v) && g * (0 - v) == 0 - g * v
  {
  }

  lemma LandMajor(m: nat, d: nat, u: int, i: nat, j: nat, e: int)
    requires 0 < m <= 715827882 && i > 0 && 0 - m < 2 * e <= m
    requires 2 * (m * d) == TWO32 * u + e && i * d - j * m == u
    ensures Meets(m, d, true, false, TWO32 * i - m, d + TWO32 * j)
  {
    OffMajor(m, d, TWO32 * i - m, d + TWO32 * j, i, j);
    Multiple(i, 0);
    Multiple(j, 0);
  }

  lemma LandMinor(m: nat, d: nat, u: int, i: nat, j: nat, e: int)
    requires 0 < d <= m <= 715827882 && j > 0 && 0 - m <= 2 * e < m
    requires 2 * (m * d) == TWO32 * u + e && i * d - j * m == 0 - u
    ensures Meets(m, d, false, true, m + TWO32 * i, TWO32 * j - d)
  {
    OffMinor(m, d, m + TWO32 * i, TWO32 * j - d, i, j);
    Multiple(i, 0);
    Multiple(j, 0);
  }

  lemma Coefficients(m: nat, d: nat, v: int) returns (i: nat, j: nat)
    requires m > 0 && d > 0
    ensures i > 0 && j > 0 && i * d - j * m == Gcd(m, d) * v
  {
    var x, y := Bezout(m, d);
    Scale(x, y, m, d, v);
    i, j := Raise(y * v, 0 - x * v, m, d);
  }

  lemma Scale(x: int, y: int, m: nat, d: nat, v: int)
    ensures y * v * d - (0 - x * v) * m == (x * m + y * d) * v
  {
    assert y * v * d == y * d * v && x * v * m == x * m * v;
  }

  // ----- the theorem -----

  /** For every line up to length 715827882: the loop ends if and only if neither axis or both
      start out the wrong way, or the line is horizontal or vertical, or some multiple of
      2^32 gcd(dx, dy) lies within half the length of 2 dx dy. */
  lemma LoopEndsIff(l: Line)
    requires l.Fits() && l.Length() <= 715827882
    ensures Ends(l) <==>
      var acrossX, acrossY := Across(l.x0, l.x1), Across(l.y0, l.y1);
      || acrossX == acrossY || l.Dx() == 0 || l.Dy() == 0
      || (Gcd(l.Length(), Min(l.Dx(), l.Dy())) > 0
          && Lands(l.Length(), Min(l.Dx(), l.Dy()), if l.Dx() >= l.Dy() then acrossX else acrossY))
  {
    var m, d := l.Length(), Min(l.Dx(), l.Dy());
    var acrossX, acrossY := Across(l.x0, l.x1), Across(l.y0, l.y1);
    var majorAcross := if l.Dx() >= l.Dy() then acrossX else acrossY;
    if m == 0 {
      AtTargetIs(l, 0);
      assert AtTarget(l, 0);
    } else if acrossX == acrossY || d == 0 {
      var k, c := EasyMeets(m, d, majorAcross);
      EndsWhen(l, k, c);
    } else {
      if Ends(l) {
        var k, c := EndsOnlyWhen(l);
        LandsIfMeets(m, d, majorAcross, k, c);
      }
      if Gcd(m, d) > 0 && Lands(m, d, majorAcross) {
        var k, c := MeetsIfLands(m, d, majorAcross);
        EndsWhen(l, k, c);
      }
    }
  }

  /** Both axes stand on their endpoints together if both go the right way, both the wrong way,
      or only one moves. */
  lemma EasyMeets(m: nat, d: nat, majorAcross: bool) returns (k: nat, c: nat)
    requires 0 < m <= 715827882 && d <= m
    ensures Meets(m, d, majorAcross, majorAcross, k, c) && (d == 0 ==> Meets(m, d, majorAcross, false, k, c))
  {
    if !majorAcross {
      return m, d;
    }
    if d == 0 {
      return TWO32 - m, 0;
    }
    k, c := TWO32 * m - m, TWO32 * d - d;
    assert c * m == TWO32 * (d * m) - d * m && k * d == TWO32 * (m * d) - m * d;
    Multiple(m, 0);
    Multiple(d, 0);
  }

  // ----- lines drawn for ever -----

  /** A line that starts out the wrong way on one axis only, and moves on both, never ends if it
      is short: 4 dx dy and its length below 2^33 together. */
  lemma ShortLineNeverEnds(l: Line)
    requires l.Fits() && l.Length() <= 715827882 && Across(l.x0, l.x1) != Across(l.y0, l.y1)
    requires l.Dx() > 0 && l.Dy() > 0 && 4 * (l.Dx() * l.Dy()) + l.Length() < 2 * TWO32
    ensures !Ends(l)
  {
    LoopEndsIff(l);
    LongTimesShort(l.Dx(), l.Dy());
    SmallDoesNotLand(l.Length(), Min(l.Dx(), l.Dy()));
  }

  lemma LongTimesShort(a: nat, b: nat)
    ensures Max(a, b) * Min(a, b) == a * b
  {
  }

  lemma SmallDoesNotLand(m: nat, d: nat)
    requires 0 < d <= m && 4 * (m * d) + m < 2 * TWO32
    ensures Gcd(m, d) > 0 && !Lands(m, d, true) && !Lands(m, d, false)
  {
    var p, q := GcdDivides(m, d);
    MulMonotone(1, d, m);
    FarFromMultiples(2 * (m * d), TWO32 * Gcd(m, d), m);
  }

  lemma FarFromMultiples(n: nat, w: nat, m: nat)
    requires w > 0 && 2 * n > m && 2 * n + m < 2 * w
    ensures 2 * Rest(n, w) > m || 2 * Rest(n, w) < 0 - m
  {
  }

  /** Nor does any diagonal. */
  lemma DiagonalNeverEnds(l: Line)
    requires l.Fits() && 0 < l.Dx() == l.Dy() <= 715827882 && Across(l.x0, l.x1) != Across(l.y0, l.y1)
    ensures !Ends(l)
  {
    LoopEndsIff(l);
    SquareDoesNotLand(l.Dx());
  }

  lemma SquareDoesNotLand(m: nat)
    requires 0 < m <= 715827882
    ensures Gcd(m, m) > 0 && !Lands(m, m, true) && !Lands(m, m, false)
  {
    assert Gcd(m, m) == Gcd(m, 0) == m;
    MulMonotone(1, m, m);
    MulMonotone(m, 715827882, m);
    FarFromMultiples(2 * (m * m), TWO32 * m, m);
  }

  /** From (5, 0) to (-5 as a 32-bit number, 10) the loop goes on for ever. */
  lemma DrawnForEver(k: nat)
    ensures !AtTarget(Line(5, 0, 0xFFFF_FFFB, 10), k)
  {
    DiagonalNeverEnds(Line(5, 0, 0xFFFF_FFFB, 10));
  }

  /** This one starts out the wrong way too, and comes round. */
  lemma SlopedLineComesRound()
    ensures Ends(Line(20000, 0, 0xFFFF_9917, 46337))
  {
    var l := Line(20000, 0, 0xFFFF_9917, 46337);
    assert l.Dx() == 46345 && l.Dy() == 46337;
    assert Gcd(46345, 46337) == Gcd(46337, 8) == Gcd(8, 1) == 1;
    RestIs(2 * (46345 * 46337), TWO32, 1, 9234);
    LoopEndsIff(l);
  }
}
