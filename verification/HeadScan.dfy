/** The moving head of the Ping360 sonar: where it points over whole runs.  Angles are in gradians, 400
    to a turn. */
module HeadScan {
  /** The angular parameters of the interface. */
  datatype Head = Head(min: int, max: int, step: int, angle: int) {
    predicate FullScan() {
      min == -200
    }
  }

  /** One update: the head after it, and whether it reports the end of a turn. */
  function Updated(h: Head): (Head, bool) {
    var angle := h.angle + h.step;
    if h.FullScan() then
      (h.(angle := if angle > h.max then h.min else angle), angle + h.step > h.max)
    else if angle + h.step >= h.max || angle + h.step <= h.min then
      (h.(angle := angle, step := -h.step), true)
    else
      (h.(angle := angle), false)
  }

  function After(h: Head, k: nat): Head {
    if k == 0 then h else Updated(After(h, k - 1)).0
  }

  /** The direction of the k-th ping, counted from 1: the angle is updated before each ping. */
  function PingAngle(h: Head, k: nat): int
    requires k > 0
  {
    After(h, k).angle
  }

  predicate Turns(h: Head, k: nat)
    requires k > 0
  {
    Updated(After(h, k - 1)).1
  }

  // ------------------------------------------------------------------ sector scan

  /** A sector of some half-aperture around the heading. */
  ghost predicate Sector(h: Head, half: int) {
    h.max == half && h.min == -half && half != 200
  }

  /** The grid points strictly inside the sector: lo, lo + s, ..., lo + m * s, at least two of them. */
  ghost predicate Grid(half: int, s: int, lo: int, m: nat) {
    s > 0 && m > 0 && -half < lo <= -half + s && half - s <= lo + m * s < half
  }

  /** A triangle wave: up from 0 to m and down again. */
  function Wave(m: nat, phase: nat): (i: nat)
    requires phase < 2 * m
    ensures i <= m && (i == m <==> phase == m) && (i == 0 <==> phase == 0)
  {
    if phase <= m then phase else 2 * m - phase
  }

  /** The head points at the wave's grid point and is about to move along the wave. */
  ghost predicate InPhase(h: Head, s: int, lo: int, m: nat, phase: nat)
    requires phase < 2 * m
  {
    h.angle == lo + Wave(m, phase) * s && h.step == if phase < m then s else -s
  }

  function Next(m: nat, phase: nat): (r: nat)
    requires phase < 2 * m
    ensures r < 2 * m
  {
    if phase + 1 == 2 * m then 0 else phase + 1
  }

  lemma GridOrder(i: int, m: int, s: int)
    requires s > 0
    ensures i < m ==> i * s + s <= m * s
    ensures i > 0 ==> i * s >= s
    ensures (i + 1) * s == i * s + s && (i - 1) * s == i * s - s
  {
    if i < m {
      assert m * s == i * s + (m - i) * s;
      assert (m - i) * s >= s by { Grows(m - i, s); }
    }
    if i > 0 {
      Grows(i, s);
    }
  }

  lemma {:induction false} Grows(n: int, s: int)
    requires n >= 1 && s > 0
    ensures n * s >= s
  {
    if n > 1 {
      Grows(n - 1, s);
      assert n * s == (n - 1) * s + s;
    }
  }

  /** An update moves the head one step along the wave, and reports a turn exactly at its two ends. */
  lemma UpdateMovesPhase(h: Head, half: int, s: int, lo: int, m: nat, phase: nat)
    requires Sector(h, half) && Grid(half, s, lo, m) && phase < 2 * m && InPhase(h, s, lo, m, phase)
    ensures var (h', turn) := Updated(h);
            && Sector(h', half) && InPhase(h', s, lo, m, Next(m, phase))
            && (turn <==> Wave(m, Next(m, phase)) == 0 || Wave(m, Next(m, phase)) == m)
  {
    var i, i' := Wave(m, phase), Wave(m, Next(m, phase));
    GridOrder(i, m, s);
    GridOrder(i', m, s);
    GridOrder(i' + 1, m, s);
  }

  function PhaseAfter(m: nat, phase: nat, k: nat): (r: nat)
    requires phase < 2 * m
    ensures r < 2 * m
  {
    if k == 0 then phase else Next(m, PhaseAfter(m, phase, k - 1))
  }

  lemma {:induction false} SweepPhase(h: Head, half: int, s: int, lo: int, m: nat, phase: nat, k: nat)
    requires Sector(h, half) && Grid(half, s, lo, m) && phase < 2 * m && InPhase(h, s, lo, m, phase)
    ensures var i := Wave(m, PhaseAfter(m, phase, k));
            && Sector(After(h, k), half) && InPhase(After(h, k), s, lo, m, PhaseAfter(m, phase, k))
            && (k > 0 ==> (Turns(h, k) <==> i == 0 || i == m))
  {
    if k > 0 {
      SweepPhase(h, half, s, lo, m, phase, k - 1);
      UpdateMovesPhase(After(h, k - 1), half, s, lo, m, PhaseAfter(m, phase, k - 1));
    }
  }

  /** Within one period the wave's phase advances by one per update, from any update on. */
  lemma {:induction false} PhaseAdvances(m: nat, phase: nat, k: nat, d: nat)
    requires phase < 2 * m && d < 2 * m
    ensures PhaseAfter(m, phase, k + d) == (var now := PhaseAfter(m, phase, k);
                                            if now + d < 2 * m then now + d else now + d - 2 * m)
  {
    if d > 0 {
      PhaseAdvances(m, phase, k, d - 1);
      assert PhaseAfter(m, phase, k + d) == Next(m, PhaseAfter(m, phase, k + (d - 1)));
    }
  }

  lemma ModUnique(a: int, d: int, q: int, r: int)
    requires d > 0 && a == q * d + r && 0 <= r < d
    ensures a % d == r && a / d == q
  {
    var q', r' := a / d, a % d;
    assert (q - q') * d == r' - r;
    if q > q' {
      Grows(q - q', d);
    } else if q < q' {
      assert (q' - q) * d == r - r';
      Grows(q' - q, d);
    }
  }

  // ------------------------------------------------------------------ what a client may rely on

  /** The grid through an angle a from which the next step stays inside the sector. */
  function LowEnd(half: int, s: int, a: int): int
    requires s > 0
  {
    a - (a + half - 1) / s * s
  }

  function Points(half: int, s: int, a: int): int
    requires s > 0
  {
    (half - 1 - LowEnd(half, s, a)) / s
  }

  lemma DivBounds(n: int, s: int)
    requires n >= 0 && s > 0
    ensures 0 <= n / s && n / s * s <= n < n / s * s + s
  {
  }

  lemma GridThrough(h: Head, half: int) returns (s: int, lo: int, m: nat, phase: nat)
    requires Sector(h, half) && h.step > 0 && -half < h.angle && h.angle + h.step < half
    ensures s == h.step && lo == LowEnd(half, s, h.angle) && m == Points(half, s, h.angle)
    ensures Grid(half, s, lo, m) && phase < m && InPhase(h, s, lo, m, phase) && (h.angle - lo) % s == 0
  {
    s, lo := h.step, LowEnd(half, h.step, h.angle);
    DivBounds(h.angle + half - 1, s);
    phase := (h.angle + half - 1) / s;
    DivBounds(half - 1 - lo, s);
    m := (half - 1 - lo) / s;
    if m <= phase {
      GridOrder(m, phase, s);
      assert false;
    }
    ModUnique(h.angle - lo, s, phase, 0);
  }

  /** Sector scan, for every aperture, step and start from which the first step stays inside: all pings
      lie strictly inside the sector, on the grid of the start, and a turn is reported exactly at the two
      outermost grid points. */
  lemma Sweep(h: Head, half: int, k: nat)
    requires Sector(h, half) && h.step > 0 && -half < h.angle && h.angle + h.step < half && k > 0
    ensures -half < PingAngle(h, k) < half
    ensures (PingAngle(h, k) - h.angle) % h.step == 0
    ensures Turns(h, k) <==> PingAngle(h, k) + h.step >= half || PingAngle(h, k) - h.step <= -half
  {
    var s, lo, m, phase := GridThrough(h, half);
    SweepPhase(h, half, s, lo, m, phase, k);
    var i := Wave(m, PhaseAfter(m, phase, k));
    GridOrder(i, m, s);
    GridOrder(0, i, s);
    SameGrid(lo, s, i, Wave(m, phase));
  }

  lemma SameGrid(lo: int, s: int, i: int, j: int)
    requires s > 0
    ensures (lo + i * s - (lo + j * s)) % s == 0
  {
    assert lo + i * s - (lo + j * s) == (i - j) * s;
    ModUnique((i - j) * s, s, i - j, 0);
  }

  /** Every grid point inside the sector is pinged in any 2 * m consecutive updates. */
  lemma SweepCovers(h: Head, half: int, k: nat, target: int) returns (j: nat)
    requires Sector(h, half) && h.step > 0 && -half < h.angle && h.angle + h.step < half && k > 0
    requires -half < target < half && (target - h.angle) % h.step == 0
    ensures k <= j < k + 2 * Points(half, h.step, h.angle) && PingAngle(h, j) == target
  {
    var s, lo, m, phase := GridThrough(h, half);
    var i := GridIndex(half, s, lo, m, h.angle, target);
    j := PhaseComes(m, phase, k, i);
    SweepPhase(h, half, s, lo, m, phase, j);
  }

  lemma GridIndex(half: int, s: int, lo: int, m: nat, a: int, target: int) returns (i: nat)
    requires Grid(half, s, lo, m) && (a - lo) % s == 0 && (target - a) % s == 0 && -half < target < half
    ensures i <= m && target == lo + i * s
  {
    var p, q := (a - lo) / s, (target - a) / s;
    assert target - lo == (p + q) * s;
    if p + q < 0 {
      Grows(-(p + q), s);
      assert false;
    }
    i := p + q;
    if i > m {
      GridOrder(m, i, s);
      assert false;
    }
  }

  /** Some update among the next 2 * m brings the wave to a given phase. */
  lemma PhaseComes(m: nat, phase: nat, k: nat, wanted: nat) returns (j: nat)
    requires phase < 2 * m && wanted < 2 * m
    ensures k <= j < k + 2 * m && PhaseAfter(m, phase, j) == wanted
  {
    var now := PhaseAfter(m, phase, k);
    var d := if wanted >= now then wanted - now else wanted + 2 * m - now;
    j := k + d;
    PhaseAdvances(m, phase, k, d);
  }

  // ------------------------------------------------------------------ starts and whole sectors

  /** Which starts keep all pings inside, for every step and aperture: those from which the first one is
      inside, and at the lower edge also the second.  A head left on the last grid point of the sector
      points at the edge. */
  lemma StaysInside(h: Head, half: int)
    requires Sector(h, half) && h.step > 0 && -half <= h.angle <= half
    ensures (forall k: nat | k > 0 :: -half < PingAngle(h, k) < half)
            <==> h.angle + h.step < half && (h.angle > -half || h.angle + 2 * h.step < half)
  {
    var first := Updated(h).0;
    assert After(h, 0) == h && After(h, 1) == first && PingAngle(h, 1) == h.angle + h.step;
    assert PingAngle(h, 2) == Updated(first).0.angle;
    if h.angle + h.step < half && (h.angle > -half || h.angle + 2 * h.step < half) {
      forall k: nat | k > 0 ensures -half < PingAngle(h, k) < half {
        if h.angle > -half {
          Sweep(h, half, k);
        } else if k > 1 {
          AfterSplit(h, 1, k - 1);
          Sweep(first, half, k - 1);
        }
      }
    }
  }

  /** From any start in range, also the edge where a kept angle may leave the head: every ping from the
      third on is strictly inside. */
  lemma Recovers(h: Head, half: int, k: nat)
    requires Sector(h, half) && 0 < h.step < half && -half <= h.angle <= half && k >= 3
    ensures -half < PingAngle(h, k) < half
  {
    if h.angle + h.step < half {
      StaysInside(h, half);
    } else {
      var d := TurnsBack(h, half);
      DownFromTop(After(h, d), half, h.step, k - d);
      AfterSplit(h, d, k - d);
    }
  }

  /** A head that is at the outermost point inside the sector and on its way down. */
  lemma DownFromTop(h: Head, half: int, s: int, k: nat)
    requires Sector(h, half) && 0 < s < half && h.step == -s && half - s <= h.angle < half
    ensures -half < After(h, k).angle < half
  {
    var m := GridBelow(half, s, h.angle);
    SweepPhase(h, half, s, h.angle - m * s, m, m, k);
    var i := Wave(m, PhaseAfter(m, m, k));
    GridOrder(i, m, s);
    GridOrder(0, i, s);
  }

  /** A head that is about to leave the sector comes back to the outermost point inside it. */
  lemma TurnsBack(h: Head, half: int) returns (d: nat)
    requires Sector(h, half) && 0 < h.step < half && half - h.step <= h.angle <= half
    ensures 2 <= d <= 3 && half - h.step <= After(h, d).angle < half
    ensures After(h, d) == h.(angle := After(h, d).angle, step := -h.step)
  {
    assert After(h, 0) == h;
    assert After(h, 1) == h.(angle := h.angle + h.step, step := -h.step);
    assert After(h, 2) == h.(step := -h.step);
    d := if h.angle < half then 2 else 3;
  }

  /** The grid below the outermost point inside the sector. */
  lemma GridBelow(half: int, s: int, top: int) returns (m: nat)
    requires 0 < s < half && half - s <= top < half
    ensures Grid(half, s, top - m * s, m)
  {
    DivBounds(top + half - 1, s);
    m := (top + half - 1) / s;
    if m == 0 {
      assert false;
    }
  }

  /** So a sector scan recovers from every start in range exactly when the step is shorter than the
      half-aperture. */
  lemma RecoversExactly(half: int, s: int)
    requires half >= 0 && half != 200 && s > 0
    ensures (forall h: Head, k: nat | Sector(h, half) && h.step == s && -half <= h.angle <= half && k >= 3 ::
               -half < PingAngle(h, k) < half)
            <==> s < half
  {
    if s < half {
      forall h: Head, k: nat | Sector(h, half) && h.step == s && -half <= h.angle <= half && k >= 3
        ensures -half < PingAngle(h, k) < half
      {
        Recovers(h, half, k);
      }
    } else {
      var h := Head(-half, half, s, 0);
      assert After(h, 0) == h;
      assert After(h, 1) == h.(angle := s, step := -s);
      assert After(h, 2) == h;
      assert PingAngle(h, 3) == s;
    }
  }

  /** The case the driver is made for: a step that divides the half-aperture, and a start at the
      heading.  The pings are multiples of the step inside the sector, and the turns are at the two
      outermost.  Every such multiple comes up in any 4 * half / s - 4 consecutive updates. */
  lemma DivisorSweep(h: Head, half: int, n: int, k: nat)
    requires Sector(h, half) && h.step > 0 && half == n * h.step && n >= 2 && h.angle == 0 && k > 0
    ensures -half < PingAngle(h, k) < half && PingAngle(h, k) % h.step == 0
    ensures Turns(h, k) <==> PingAngle(h, k) == half - h.step || PingAngle(h, k) == -(half - h.step)
  {
    var s := h.step;
    GridOrder(1, n, s);
    Sweep(h, half, k);
    Outermost(PingAngle(h, k), n, s);
  }

  lemma Outermost(p: int, n: int, s: int)
    requires s > 0 && p % s == 0 && -(n * s) < p < n * s
    ensures p + s >= n * s <==> p == n * s - s
    ensures p - s <= -(n * s) <==> p == -(n * s - s)
  {
    var q := p / s;
    assert p == q * s;
    GridOrder(q, n - 1, s);
    GridOrder(n - 1, q, s);
    GridOrder(q, 1 - n, s);
    GridOrder(1 - n, q, s);
    GridOrder(n, n, s);
    assert (1 - n) * s == -((n - 1) * s);
  }

  lemma DivisorSweepCovers(h: Head, half: int, n: int, k: nat, i: int) returns (j: nat)
    requires Sector(h, half) && h.step > 0 && half == n * h.step && n >= 2 && h.angle == 0 && k > 0
    requires -n < i < n
    ensures k <= j < k + 4 * n - 4 && PingAngle(h, j) == i * h.step
  {
    var s := h.step;
    GridOrder(1, n, s);
    GridOrder(i, n, s);
    GridOrder(-n, i, s);
    ModUnique(i * s, s, i, 0);
    var _, _ := DivisorGrid(half, s, n);
    j := SweepCovers(h, half, k, i * s);
  }

  lemma DivisorGrid(half: int, s: int, n: int) returns (lo: int, m: int)
    requires s > 0 && half == n * s && n >= 2
    ensures lo == LowEnd(half, s, 0) == -(n - 1) * s
    ensures m == Points(half, s, 0) == 2 * n - 2
  {
    ModUnique(half - 1, s, n - 1, s - 1);
    lo := -(n - 1) * s;
    assert LowEnd(half, s, 0) == 0 - (n - 1) * s == lo;
    assert half - 1 - lo == (2 * n - 2) * s + (s - 1);
    ModUnique(half - 1 - lo, s, 2 * n - 2, s - 1);
    m := 2 * n - 2;
  }

  // ------------------------------------------------------------------ full scan

  /** A full turn from -200 on, in steps of s; a scan is 400 / s pings long. */
  ghost predicate Full(h: Head) {
    h.FullScan() && 0 < h.step <= 400 && h.max == 200 - h.step
  }

  lemma UpdateFull(h: Head, i: nat)
    requires Full(h) && h.angle == -200 + i * h.step && i < 400 / h.step
    ensures var (h', turn) := Updated(h);
            var i' := if i + 1 == 400 / h.step then 0 else i + 1;
            && h' == h.(angle := -200 + i' * h.step)
            && (turn <==> i' == 0 || i' + 1 == 400 / h.step)
  {
    var s, n := h.step, 400 / h.step;
    DivBounds(400, s);
    GridOrder(i + 1, n, s);
    GridOrder(i + 2, n, s);
    GridOrder(n, i + 1, s);
    GridOrder(n, i + 2, s);
    GridOrder(i, n, s);
    GridOrder(i + 1, i + 2, s);
  }

  /** Full scan, for every step: the k-th ping is the k-th grid point behind the start, counted around
      the turn.  The end of a turn is reported twice: at the last grid point and at the first. */
  lemma {:induction false} FullTurn(h: Head, i: nat, k: nat)
    requires Full(h) && h.angle == -200 + i * h.step && i < 400 / h.step
    ensures var n := 400 / h.step;
            var i' := (i + k) % n;
            && After(h, k) == h.(angle := -200 + i' * h.step)
            && (k > 0 ==> (Turns(h, k) <==> i' == 0 || i' == n - 1))
  {
    var n := 400 / h.step;
    if k > 0 {
      FullTurn(h, i, k - 1);
      UpdateFull(After(h, k - 1), (i + k - 1) % n);
      CountUp(i + k - 1, n);
    } else {
      ModUnique(i, n, 0, i);
    }
  }

  /** From any start in range, on the grid or not: pings one step apart up to the end of the turn, then
      the wrap to -200.  The end of the turn is reported at the last of them, and again at the wrap. */
  lemma {:induction false} FirstTurn(h: Head, k: nat)
    requires Full(h) && -200 <= h.angle <= h.max && k <= Steps(h.max - h.angle, h.step) + 1
    ensures var m := Steps(h.max - h.angle, h.step);
            && After(h, k) == h.(angle := if k <= m then h.angle + k * h.step else -200)
            && (k > 0 ==> (Turns(h, k) <==> k >= m))
  {
    var m := Steps(h.max - h.angle, h.step);
    if k > 0 {
      FirstTurn(h, k - 1);
      if k <= m {
        UpdateBeforeWrap(After(h, k - 1), h.angle, k, m);
      } else {
        UpdateAtWrap(After(h, m), h.angle, m);
      }
    }
  }

  /** And from the wrap on the grid that starts at -200. */
  lemma LaterTurns(h: Head, k: nat)
    requires Full(h) && -200 <= h.angle <= h.max
    ensures var n, wrap := 400 / h.step, Steps(h.max - h.angle, h.step) + 1;
            && n > 0 && After(h, wrap + k) == h.(angle := -200 + k % n * h.step)
            && (k > 0 ==> (Turns(h, wrap + k) <==> k % n == 0 || k % n == n - 1))
  {
    var wrap := Steps(h.max - h.angle, h.step) + 1;
    DivBounds(400, h.step);
    FirstTurn(h, wrap);
    FullTurn(After(h, wrap), 0, k);
    AfterSplit(h, wrap, k);
  }

  lemma {:induction false} AfterSplit(h: Head, j: nat, k: nat)
    ensures After(h, j + k) == After(After(h, j), k)
    ensures k > 0 ==> (Turns(h, j + k) <==> Turns(After(h, j), k))
  {
    if k > 0 {
      AfterSplit(h, j, k - 1);
    }
  }

  /** How many steps fit into a stretch. */
  function Steps(stretch: nat, step: int): (n: nat)
    requires step > 0
    ensures n * step <= stretch < n * step + step
  {
    DivBounds(stretch, step);
    stretch / step
  }

  lemma UpdateAtWrap(h: Head, a: int, m: nat)
    requires Full(h) && h.angle == a + m * h.step && h.max - a < m * h.step + h.step
    ensures Updated(h) == (h.(angle := -200), true)
  {
  }

  lemma UpdateBeforeWrap(h: Head, a: int, k: nat, m: nat)
    requires Full(h) && 0 < k <= m && h.angle == a + (k - 1) * h.step
    requires m * h.step <= h.max - a < m * h.step + h.step
    ensures var (h', turn) := Updated(h); h' == h.(angle := a + k * h.step) && (turn <==> k == m)
  {
    GridOrder(k, m, h.step);
    GridOrder(k - 1, m, h.step);
    GridOrder(k + 1, m, h.step);
  }

  lemma CountUp(a: nat, n: nat)
    requires n > 0
    ensures (a + 1) % n == if a % n + 1 == n then 0 else a % n + 1
  {
    var q, r := a / n, a % n;
    assert a == q * n + r;
    if r + 1 == n {
      assert a + 1 == (q + 1) * n;
      ModUnique(a + 1, n, q + 1, 0);
    } else {
      ModUnique(a + 1, n, q, r + 1);
    }
  }

  /** When the step divides the full turn, in angles. */
  lemma FullTurnAngles(h: Head, k: nat)
    requires Full(h) && 400 % h.step == 0 && -200 <= h.angle <= h.max && (h.angle + 200) % h.step == 0
    ensures After(h, k).angle == -200 + (h.angle + 200 + k * h.step) % 400
  {
    var i := GridPosition(h.step, h.angle + 200);
    FullTurn(h, i, k);
    TimesMod(i, k, h.step);
  }

  lemma GridPosition(s: int, a: nat) returns (i: nat)
    requires 0 < s <= 400 && 400 % s == 0 && a % s == 0 && a <= 400 - s
    ensures a == i * s && i < 400 / s
  {
    DivBounds(400, s);
    DivBounds(a, s);
    i := a / s;
    if i >= 400 / s {
      GridOrder(400 / s, i, s);
      assert false;
    }
  }

  lemma TimesMod(i: nat, k: nat, s: int)
    requires 0 < s <= 400 && 400 % s == 0
    ensures 400 / s > 0 && (i + k) % (400 / s) * s == (i * s + k * s) % 400
  {
    var n := 400 / s;
    assert n * s == 400;
    ModTimes(i + k, (i + k) / n, n, (i + k) % n, s);
    assert (i + k) * s == i * s + k * s;
  }

  lemma ModTimes(a: nat, q: nat, n: nat, r: nat, s: nat)
    requires n > 0 && s > 0 && a == q * n + r && r < n && n * s == 400
    ensures (a * s) % 400 == r * s
  {
    GridOrder(r, n, s);
    assert a * s == q * (n * s) + r * s;
    ModUnique(a * s, 400, q, r * s);
  }
}
