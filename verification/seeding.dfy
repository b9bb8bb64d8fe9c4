/**
 * The deterministic seeders of streamline tractography: cursors that walk a
 * 3-D mask in raster order and emit a fixed number of seeds from every voxel
 * of the mask before expiring for good, and the set-up of the rejection
 * sampler, which validates its image and crops it to the bounding box of its
 * non-zero voxels.
 *
 * Seeds are given in voxel coordinates; the random jitter inside a voxel and
 * the voxel-to-scanner transform are not modelled.
 */
module Seeding {
  import opened Wrappers

  /** A voxel index; a cursor also uses axis-2 index -1 for "before the first voxel". */
  datatype Voxel = Voxel(x: int, y: int, z: int)

  predicate InImage<T>(image: array3<T>, v: Voxel) {
    0 <= v.x < image.Length0 && 0 <= v.y < image.Length1 && 0 <= v.z < image.Length2
  }

  /** A position a cursor can hold: a voxel of the image, or just before the first voxel of a row. */
  predicate IsCursor<T>(image: array3<T>, v: Voxel) {
    0 <= v.x < image.Length0 && 0 <= v.y < image.Length1 && -1 <= v.z < image.Length2 && image.Length2 > 0
  }

  /** Raster order: axis 0 slowest, axis 2 fastest. */
  predicate Before(a: Voxel, b: Voxel) {
    a.x < b.x || (a.x == b.x && (a.y < b.y || (a.y == b.y && a.z < b.z)))
  }

  /** One step of the raster odometer: axis 2 first, carrying into axis 1 and then into axis 0. */
  function Succ(v: Voxel, d1: int, d2: int): Voxel {
    if v.z + 1 != d2 then Voxel(v.x, v.y, v.z + 1)
    else if v.y + 1 != d1 then Voxel(v.x, v.y + 1, 0)
    else Voxel(v.x + 1, 0, 0)
  }

  /** The odometer step moves to the very next voxel in raster order, or off the end of axis 0. */
  lemma SuccIsNextInRaster<T>(image: array3<T>, v: Voxel)
    requires IsCursor(image, v)
    ensures var w := Succ(v, image.Length1, image.Length2);
      && Before(v, w)
      && (w.x == image.Length0 || InImage(image, w))
      && (forall u :: InImage(image, u) && Before(v, u) ==> u == w || Before(w, u))
  {
  }

  /**
   * Where the cursor advance of the per-voxel seeders stops: the first voxel
   * after `v` whose mask value is set, or None at the end of axis 0.
   */
  function NextMasked(mask: array3<bool>, v: Voxel): (r: Option<Voxel>)
    reads mask
    requires IsCursor(mask, v)
    ensures r.Some? ==> InImage(mask, r.value) && mask[r.value.x, r.value.y, r.value.z] && Before(v, r.value)
    decreases mask.Length0 - v.x, mask.Length1 - v.y, mask.Length2 - v.z
  {
    var w := Succ(v, mask.Length1, mask.Length2);
    if w.x == mask.Length0 then None
    else if mask[w.x, w.y, w.z] then Some(w)
    else NextMasked(mask, w)
  }

  /** The advance skips no voxel of the mask, and finds none only when none is left. */
  lemma {:induction false} NextMaskedIsFirst(mask: array3<bool>, v: Voxel)
    requires IsCursor(mask, v)
    ensures NextMasked(mask, v).None? ==>
      forall u :: InImage(mask, u) && Before(v, u) ==> !mask[u.x, u.y, u.z]
    ensures NextMasked(mask, v).Some? ==>
      forall u :: InImage(mask, u) && Before(v, u) && Before(u, NextMasked(mask, v).value) ==> !mask[u.x, u.y, u.z]
    decreases mask.Length0 - v.x, mask.Length1 - v.y, mask.Length2 - v.z
  {
    var w := Succ(v, mask.Length1, mask.Length2);
    SuccIsNextInRaster(mask, v);
    if w.x != mask.Length0 && !mask[w.x, w.y, w.z] {
      NextMaskedIsFirst(mask, w);
    }
  }

  /** The `do … while` advance of `get_seed`, shared by both per-voxel seeders. */
  method Advance(mask: array3<bool>, v: Voxel) returns (r: Option<Voxel>)
    requires IsCursor(mask, v)
    ensures r == NextMasked(mask, v)
  {
    var w := v;
    while true
      invariant IsCursor(mask, w) && NextMasked(mask, w) == NextMasked(mask, v)
      decreases mask.Length0 - w.x, mask.Length1 - w.y, mask.Length2 - w.z
    {
      var x, y, z := w.x, w.y, w.z + 1;
      if z == mask.Length2 {
        z := 0;
        y := y + 1;
        if y == mask.Length1 {
          y := 0;
          x := x + 1;
        }
      }
      if x == mask.Length0 {
        return None;
      }
      w := Voxel(x, y, z);
      if mask[x, y, z] {
        return Some(w);
      }
    }
  }

  /** A seed drawn by a seeder, and the seeder's state after drawing it. */
  datatype Draw<S, P> = Draw(seed: Option<P>, next: S)

  /** The state of `Random_per_voxel`: the current voxel, seeds drawn from it so far less one, expiry. */
  datatype RandomCursor = RandomCursor(vox: Voxel, inc: nat, expired: bool)

  ghost predicate RandomValid(mask: array3<bool>, num: nat, s: RandomCursor)
    reads mask
  {
    num >= 1 && IsCursor(mask, s.vox) && s.inc < num && (s.vox.z >= 0 ==> mask[s.vox.x, s.vox.y, s.vox.z])
  }

  /**
   * `Random_per_voxel::get_seed`: `num` seeds from a voxel, then on to the next
   * voxel of the mask; the seed is the voxel the jittered point is drawn in.
   */
  function RandomStep(mask: array3<bool>, num: nat, s: RandomCursor): (d: Draw<RandomCursor, Voxel>)
    reads mask
    requires RandomValid(mask, num, s)
    ensures RandomValid(mask, num, d.next)
    // an expired seeder stays expired and draws nothing, and only the end of the mask expires it
    ensures s.expired ==> d == Draw(None, s)
    ensures d.next.expired <==> s.expired || d.seed.None?
    // every seed lies in a voxel of the mask
    ensures d.seed.Some? ==> d.seed.value == d.next.vox && InImage(mask, d.seed.value) && d.seed.value.z >= 0
    // it stays on its voxel until `num` seeds have come from it
    ensures !s.expired && s.vox.z >= 0 && s.inc + 1 < num ==> d == Draw(Some(s.vox), RandomCursor(s.vox, s.inc + 1, false))
    // then moves on to the next voxel of the mask, restarting its count
    ensures !s.expired && (s.vox.z < 0 || s.inc + 1 == num) ==>
      d.next.inc == 0 && d.seed == NextMasked(mask, s.vox)
  {
    if s.expired then Draw(None, s)
    else if s.vox.z < 0 || s.inc + 1 == num then
      match NextMasked(mask, s.vox)
      case None => Draw(None, RandomCursor(s.vox, 0, true))
      case Some(w) => Draw(Some(w), RandomCursor(w, 0, false))
    else Draw(Some(s.vox), RandomCursor(s.vox, s.inc + 1, false))
  }

  /** The seeds of `k` successive calls, and the state after them. */
  function RandomRun(mask: array3<bool>, num: nat, s: RandomCursor, k: nat): (t: Draw<RandomCursor, seq<Option<Voxel>>>)
    reads mask
    requires RandomValid(mask, num, s)
    ensures t.seed.Some? && |t.seed.value| == k && RandomValid(mask, num, t.next)
    decreases k
  {
    if k == 0 then Draw(Some([]), s)
    else
      var d := RandomStep(mask, num, s);
      var rest := RandomRun(mask, num, d.next, k - 1);
      Draw(Some([d.seed] + rest.seed.value), rest.next)
  }

  /**
   * From a voxel it has just moved to, the seeder draws `num` seeds in that
   * voxel: the move and `num - 1` more calls, after which the next call moves on.
   */
  lemma {:induction false} RandomDrawsNumPerVoxel(mask: array3<bool>, num: nat, s: RandomCursor, k: nat)
    requires RandomValid(mask, num, s) && !s.expired && s.vox.z >= 0
    requires s.inc + k < num
    ensures var t := RandomRun(mask, num, s, k);
      && t.seed.value == seq(k, _ => Some(s.vox))
      && t.next == RandomCursor(s.vox, s.inc + k, false)
    ensures s.inc + k + 1 == num ==>
      var t := RandomRun(mask, num, s, k);
      RandomStep(mask, num, t.next).seed == NextMasked(mask, s.vox)
    decreases k
  {
    if k > 0 {
      var d := RandomStep(mask, num, s);
      RandomDrawsNumPerVoxel(mask, num, d.next, k - 1);
    }
  }

  /** An expired seeder draws nothing on any later call. */
  lemma {:induction false} RandomExpiryIsFinal(mask: array3<bool>, num: nat, s: RandomCursor, k: nat)
    requires RandomValid(mask, num, s) && s.expired
    ensures var t := RandomRun(mask, num, s, k);
      t.next == s && forall i :: 0 <= i < k ==> t.seed.value[i].None?
    decreases k
  {
    if k > 0 {
      RandomExpiryIsFinal(mask, num, s, k - 1);
    }
  }

  /** `Random_per_voxel`: the cursor state updated in place by `get_seed`. */
  class RandomPerVoxel {
    const mask: array3<bool>
    const num: nat
    var vox: Voxel
    var inc: nat
    var expired: bool

    ghost function State(): RandomCursor
      reads this
    {
      RandomCursor(vox, inc, expired)
    }

    ghost predicate Valid()
      reads this, mask
    {
      RandomValid(mask, num, State())
    }

    /** The seeder starts before the first voxel of the mask. */
    constructor (mask: array3<bool>, num: nat)
      requires num >= 1 && mask.Length0 > 0 && mask.Length1 > 0 && mask.Length2 > 0
      ensures Valid() && this.mask == mask && this.num == num
      ensures State() == RandomCursor(Voxel(0, 0, -1), 0, false)
    {
      this.mask, this.num := mask, num;
      vox, inc, expired := Voxel(0, 0, -1), 0, false;
    }

    method GetSeed() returns (seed: Option<Voxel>)
      requires Valid()
      modifies this
      ensures Valid()
      ensures Draw(seed, State()) == RandomStep(mask, num, old(State()))
    {
      if expired {
        return None;
      }
      if vox.z < 0 || inc + 1 == num {
        inc := 0;
        var next := Advance(mask, vox);
        if next.None? {
          expired := true;
          return None;
        }
        vox := next.value;
      } else {
        inc := inc + 1;
      }
      return Some(vox);
    }
  }

  /** A seed position in voxel coordinates. */
  datatype Position = Position(x: real, y: real, z: real)

  /** The state of `Grid_per_voxel`: the current voxel, the sub-voxel grid position, expiry. */
  datatype GridCursor = GridCursor(vox: Voxel, pos: Voxel, expired: bool)

  /** A sub-voxel grid position of an `os`-fold oversampled voxel. */
  predicate OnGrid(p: Voxel, os: nat) {
    0 <= p.x < os && 0 <= p.y < os && 0 <= p.z < os
  }

  /** The sub-voxel odometer: axis 2 first, each component wrapping to 0 at `os`. */
  function Tick(p: Voxel, os: nat): Voxel {
    if p.z + 1 < os then Voxel(p.x, p.y, p.z + 1)
    else if p.y + 1 < os then Voxel(p.x, p.y + 1, 0)
    else if p.x + 1 < os then Voxel(p.x + 1, 0, 0)
    else Voxel(0, 0, 0)
  }

  /** The seed at grid position `p` of voxel `vox`. */
  function SeedAt(vox: Voxel, p: Voxel, offset: real, step: real): Position {
    Position(vox.x as real + offset + p.x as real * step,
             vox.y as real + offset + p.y as real * step,
             vox.z as real + offset + p.z as real * step)
  }

  ghost predicate GridValid(mask: array3<bool>, os: nat, s: GridCursor)
    reads mask
  {
    && os >= 1 && IsCursor(mask, s.vox)
    && (OnGrid(s.pos, os) || s.pos == Voxel(os, os, os))
    && (s.vox.z >= 0 ==> mask[s.vox.x, s.vox.y, s.vox.z])
    && (s.vox.z < 0 && !s.expired ==> Tick(s.pos, os) == Voxel(0, 0, 0))
  }

  /**
   * `Grid_per_voxel::get_seed`: the next grid position inside the current
   * voxel, or, once every position has been used, the first position of the
   * next voxel of the mask.
   */
  function GridStep(mask: array3<bool>, os: nat, offset: real, step: real, s: GridCursor): (d: Draw<GridCursor, Position>)
    reads mask
    requires GridValid(mask, os, s)
    ensures GridValid(mask, os, d.next)
    // an expired seeder stays expired and draws nothing, and only the end of the mask expires it
    ensures s.expired ==> d == Draw(None, s)
    ensures d.next.expired <==> s.expired || d.seed.None?
    // every seed is a grid position of a voxel of the mask
    ensures d.seed.Some? ==>
      && d.seed.value == SeedAt(d.next.vox, d.next.pos, offset, step)
      && InImage(mask, d.next.vox) && mask[d.next.vox.x, d.next.vox.y, d.next.vox.z] && OnGrid(d.next.pos, os)
    // the voxel changes only when the grid position wraps, and then to the next voxel of the mask
    ensures !s.expired && Tick(s.pos, os) != Voxel(0, 0, 0) ==> d.next == GridCursor(s.vox, Tick(s.pos, os), false)
    ensures !s.expired && Tick(s.pos, os) == Voxel(0, 0, 0) ==>
      d.next.pos == Voxel(0, 0, 0) && (d.seed.Some? <==> NextMasked(mask, s.vox).Some?) &&
      (d.seed.Some? ==> d.next.vox == NextMasked(mask, s.vox).value)
  {
    if s.expired then Draw(None, s)
    else
      var p := Tick(s.pos, os);
      if p != Voxel(0, 0, 0) then Draw(Some(SeedAt(s.vox, p, offset, step)), GridCursor(s.vox, p, false))
      else
        match NextMasked(mask, s.vox)
        case None => Draw(None, GridCursor(s.vox, p, true))
        case Some(w) => Draw(Some(SeedAt(w, p, offset, step)), GridCursor(w, p, false))
  }

  /** The position of a grid point in the order the odometer visits them. */
  function Rank(p: Voxel, os: nat): int {
    (p.x * os + p.y) * os + p.z
  }

  /** Multiplying by a non-negative factor keeps an inequality. */
  lemma {:induction false} MulMono(a: int, b: int, c: nat)
    requires a <= b
    ensures a * c <= b * c
    decreases c
  {
    if c > 0 {
      MulMono(a, b, c - 1);
      assert a * c == a * (c - 1) + a && b * c == b * (c - 1) + b;
    }
  }

  /**
   * One digit of a positional number: appending a digit `d` of base `b` to a
   * number below `m` gives a number below `m * b`, and its last value only
   * from the last values of both.
   */
  lemma Digit(a: int, d: int, m: int, b: nat)
    requires 0 <= a < m && 0 <= d < b
    ensures 0 <= a * b + d < m * b
    ensures a * b + d + 1 == m * b <==> a == m - 1 && d == b - 1
  {
    MulMono(0, a, b);
    MulMono(a, m - 1, b);
    assert (m - 1) * b == m * b - b;
    if a < m - 1 {
      MulMono(a, m - 2, b);
      assert (m - 2) * b == m * b - 2 * b;
    }
  }

  /** Ranks run from 0 to os³ - 1, the last one being the corner where every component is os - 1. */
  lemma RankBounds(p: Voxel, os: nat)
    requires OnGrid(p, os)
    ensures 0 <= Rank(p, os) < os * os * os
    ensures Rank(p, os) + 1 == os * os * os <==> p == Voxel(os - 1, os - 1, os - 1)
  {
    Digit(p.x, p.y, os, os);
    Digit(p.x * os + p.y, p.z, os * os, os);
  }

  /** The odometer visits the grid points of a voxel in rank order, one rank per call. */
  lemma TickAdvancesRank(p: Voxel, os: nat)
    requires OnGrid(p, os) && Rank(p, os) + 1 < os * os * os
    ensures OnGrid(Tick(p, os), os) && Rank(Tick(p, os), os) == Rank(p, os) + 1
  {
    var a := p.x * os + p.y;
    if p.z + 1 < os {
    } else if p.y + 1 < os {
      MulSucc(a, os);
    } else {
      RankBounds(p, os);
      MulSucc(p.x, os);
      MulSucc(a, os);
    }
  }

  /** Multiplication distributes over a successor. */
  lemma MulSucc(a: int, b: int)
    ensures (a + 1) * b == a * b + b
  {
  }

  /** The seeds of `k` successive calls, and the state after them. */
  function GridRun(mask: array3<bool>, os: nat, offset: real, step: real, s: GridCursor, k: nat)
    : (t: Draw<GridCursor, seq<Option<Position>>>)
    reads mask
    requires GridValid(mask, os, s)
    ensures t.seed.Some? && |t.seed.value| == k && GridValid(mask, os, t.next)
    decreases k
  {
    if k == 0 then Draw(Some([]), s)
    else
      var d := GridStep(mask, os, offset, step, s);
      var rest := GridRun(mask, os, offset, step, d.next, k - 1);
      Draw(Some([d.seed] + rest.seed.value), rest.next)
  }

  /**
   * On a voxel of the mask, the seeder draws one seed per call from that
   * voxel, at successive grid ranks, until all os³ grid points are used.
   */
  lemma {:induction false} GridStaysOnVoxel(mask: array3<bool>, os: nat, offset: real, step: real, s: GridCursor, k: nat)
    requires GridValid(mask, os, s) && !s.expired && s.vox.z >= 0 && OnGrid(s.pos, os)
    requires Rank(s.pos, os) + k < os * os * os
    ensures var t := GridRun(mask, os, offset, step, s, k);
      && !t.next.expired && t.next.vox == s.vox && OnGrid(t.next.pos, os)
      && Rank(t.next.pos, os) == Rank(s.pos, os) + k
      && forall i :: 0 <= i < k ==> t.seed.value[i].Some?
    decreases k
  {
    if k > 0 {
      TickAdvancesRank(s.pos, os);
      RankBounds(Tick(s.pos, os), os);
      var d := GridStep(mask, os, offset, step, s);
      GridStaysOnVoxel(mask, os, offset, step, d.next, k - 1);
    }
  }

  /**
   * The seeder draws os³ seeds from every voxel it moves to: the move itself
   * and os³ - 1 more calls on the same voxel, after which the next call moves on.
   */
  lemma GridDrawsOsCubedPerVoxel(mask: array3<bool>, os: nat, offset: real, step: real, s: GridCursor)
    requires GridValid(mask, os, s) && !s.expired && s.vox.z >= 0 && s.pos == Voxel(0, 0, 0)
    ensures var t := GridRun(mask, os, offset, step, s, os * os * os - 1);
      && t.next == GridCursor(s.vox, Voxel(os - 1, os - 1, os - 1), false)
      && Tick(t.next.pos, os) == Voxel(0, 0, 0)
  {
    assert Rank(s.pos, os) == 0;
    var k := os * os * os - 1;
    assert os * os * os >= 1;
    GridStaysOnVoxel(mask, os, offset, step, s, k);
    RankBounds(GridRun(mask, os, offset, step, s, k).next.pos, os);
  }

  /** An expired seeder draws nothing on any later call. */
  lemma {:induction false} GridExpiryIsFinal(mask: array3<bool>, os: nat, offset: real, step: real, s: GridCursor, k: nat)
    requires GridValid(mask, os, s) && s.expired
    ensures var t := GridRun(mask, os, offset, step, s, k);
      t.next == s && forall i :: 0 <= i < k ==> t.seed.value[i].None?
    decreases k
  {
    if k > 0 {
      GridExpiryIsFinal(mask, os, offset, step, s, k - 1);
    }
  }

  /** `Grid_per_voxel`: the cursor state updated in place by `get_seed`. */
  class GridPerVoxel {
    const mask: array3<bool>
    const os: nat          // oversampling factor along each axis
    const offset: real     // the first grid point's offset from the voxel centre
    const step: real       // the spacing of the grid
    var vox: Voxel
    var pos: Voxel
    var expired: bool

    ghost function State(): GridCursor
      reads this
    {
      GridCursor(vox, pos, expired)
    }

    ghost predicate Valid()
      reads this, mask
    {
      GridValid(mask, os, State())
    }

    /** The seeder starts before the first voxel of the mask, with its grid position past the end. */
    constructor (mask: array3<bool>, os: nat, offset: real, step: real)
      requires os >= 1 && mask.Length0 > 0 && mask.Length1 > 0 && mask.Length2 > 0
      ensures Valid() && this.mask == mask && this.os == os && this.offset == offset && this.step == step
      ensures State() == GridCursor(Voxel(0, 0, -1), Voxel(os, os, os), false)
    {
      this.mask, this.os, this.offset, this.step := mask, os, offset, step;
      vox, pos, expired := Voxel(0, 0, -1), Voxel(os, os, os), false;
    }

    method GetSeed() returns (seed: Option<Position>)
      requires Valid()
      modifies this
      ensures Valid()
      ensures Draw(seed, State()) == GridStep(mask, os, offset, step, old(State()))
    {
      if expired {
        return None;
      }
      pos := pos.(z := pos.z + 1);
      if pos.z >= os {
        pos := pos.(z := 0, y := pos.y + 1);
        if pos.y >= os {
          pos := pos.(y := 0, x := pos.x + 1);
          if pos.x >= os {
            pos := pos.(x := 0);
            var next := Advance(mask, vox);
            if next.None? {
              expired := true;
              return None;
            }
            vox := next.value;
          }
        }
      }
      return Some(SeedAt(vox, pos, offset, step));
    }
  }

  /** The exceptions of the rejection sampler's set-up. */
  datatype SetupError = NegativeValue | EmptyImage

  /** The largest voxel value, and the cropped grid: its first voxel and its extent along each axis. */
  datatype Crop = Crop(max: real, bottom: Voxel, extent: Voxel)

  /** size_t's largest value, the initial lower bound of the bounding box. */
  const SizeMax: int := 0xFFFF_FFFF_FFFF_FFFF

  function Coord(v: Voxel, axis: nat): int {
    if axis == 0 then v.x else if axis == 1 then v.y else v.z
  }

  function Min(a: int, b: int): int {
    if a < b then a else b
  }

  function Value(data: array3<real>, v: Voxel): real
    reads data
    requires InImage(data, v)
  {
    data[v.x, v.y, v.z]
  }

  ghost predicate HasNegative(data: array3<real>)
    reads data
  {
    exists v :: InImage(data, v) && Value(data, v) < 0.0
  }

  ghost predicate AllZero(data: array3<real>)
    reads data
  {
    forall v :: InImage(data, v) ==> Value(data, v) == 0.0
  }

  /** The voxels the set-up loop has visited before `u`: axis 0 fastest, axis 2 slowest. */
  ghost predicate Scanned(data: array3<real>, u: Voxel, v: Voxel) {
    InImage(data, v) && (v.z < u.z || (v.z == u.z && (v.y < u.y || (v.y == u.y && v.x < u.x))))
  }

  /** Voxels that attain the running maximum and each face of the running bounding box. */
  datatype Witnesses = Witnesses(top: Voxel, lowX: Voxel, lowY: Voxel, lowZ: Voxel,
                                 highX: Voxel, highY: Voxel, highZ: Voxel)

  /** `max` is the largest voxel value, attained at `at`. */
  ghost predicate MaxAt(data: array3<real>, max: real, at: Voxel)
    reads data
  {
    InImage(data, at) && Value(data, at) == max && forall v :: InImage(data, v) ==> Value(data, v) <= max
  }

  /**
   * [`lo`, `hi`] is the smallest box holding every non-zero voxel: each face
   * is attained by the non-zero voxel `w` names for it.
   */
  ghost predicate BoundingBox(data: array3<real>, lo: Voxel, hi: Voxel, w: Witnesses)
    reads data
  {
    && (forall v :: InImage(data, v) && Value(data, v) != 0.0 ==>
          lo.x <= v.x <= hi.x && lo.y <= v.y <= hi.y && lo.z <= v.z <= hi.z)
    && InImage(data, w.lowX) && Value(data, w.lowX) != 0.0 && w.lowX.x == lo.x
    && InImage(data, w.lowY) && Value(data, w.lowY) != 0.0 && w.lowY.y == lo.y
    && InImage(data, w.lowZ) && Value(data, w.lowZ) != 0.0 && w.lowZ.z == lo.z
    && InImage(data, w.highX) && Value(data, w.highX) != 0.0 && w.highX.x == hi.x
    && InImage(data, w.highY) && Value(data, w.highY) != 0.0 && w.highY.y == hi.y
    && InImage(data, w.highZ) && Value(data, w.highZ) != 0.0 && w.highZ.z == hi.z
  }

  /** `v` is a visited non-zero voxel. */
  ghost predicate SeenNonZero(data: array3<real>, u: Voxel, v: Voxel)
    reads data
  {
    Scanned(data, u, v) && Value(data, v) != 0.0
  }

  /** Moving the scan from `u` to `u'` visits `v` and nothing else. */
  ghost predicate Visits(data: array3<real>, u: Voxel, u': Voxel, v: Voxel) {
    InImage(data, v) && forall x :: Scanned(data, u', x) <==> Scanned(data, u, x) || x == v
  }

  /** No visited voxel is negative, and `max` is the largest visited value, attained at `at` when positive. */
  ghost predicate MaxSoFar(data: array3<real>, u: Voxel, max: real, at: Voxel)
    reads data
  {
    && 0.0 <= max
    && (forall v :: Scanned(data, u, v) ==> 0.0 <= Value(data, v) <= max)
    && (max > 0.0 ==> Scanned(data, u, at) && Value(data, at) == max)
  }

  /**
   * Along `axis`, every visited non-zero voxel lies in [`lo`, `hi`], and either
   * the bounds are still the initial ones or `atLo` and `atHi` attain them.
   */
  ghost predicate ExtentSoFar(data: array3<real>, u: Voxel, axis: nat, lo: int, hi: int, atLo: Voxel, atHi: Voxel)
    reads data
  {
    && (forall v :: SeenNonZero(data, u, v) ==> lo <= Coord(v, axis) <= hi)
    && ((lo == SizeMax && hi == 0) ||
        (SeenNonZero(data, u, atLo) && Coord(atLo, axis) == lo && SeenNonZero(data, u, atHi) && Coord(atHi, axis) == hi))
  }

  /**
   * What the set-up loop knows about the voxels visited before `u`. The body
   * is bound to a name so that the scan loops carry it as one fact rather
   * than as its many conjuncts.
   */
  ghost predicate Summary(data: array3<real>, u: Voxel, max: real, lo: Voxel, hi: Voxel, w: Witnesses)
    reads data
  {
    var known :=
      && MaxSoFar(data, u, max, w.top)
      && ExtentSoFar(data, u, 0, lo.x, hi.x, w.lowX, w.highX)
      && ExtentSoFar(data, u, 1, lo.y, hi.y, w.lowY, w.highY)
      && ExtentSoFar(data, u, 2, lo.z, hi.z, w.lowZ, w.highZ);
    known
  }

  /** A summary depends only on which voxels were visited, not on where the scan stands. */
  lemma SummaryMoves(data: array3<real>, u: Voxel, u': Voxel, max: real, lo: Voxel, hi: Voxel, w: Witnesses)
    requires forall v :: Scanned(data, u, v) <==> Scanned(data, u', v)
    requires Summary(data, u, max, lo, hi, w)
    ensures Summary(data, u', max, lo, hi, w)
  {
    forall v | Scanned(data, u', v)
      ensures 0.0 <= Value(data, v) <= max
    {
      assert Scanned(data, u, v);
    }
    forall v | SeenNonZero(data, u', v)
      ensures lo.x <= v.x <= hi.x && lo.y <= v.y <= hi.y && lo.z <= v.z <= hi.z
    {
      assert SeenNonZero(data, u, v);
      assert Coord(v, 0) == v.x && Coord(v, 1) == v.y && Coord(v, 2) == v.z;
    }
    forall x | x in {w.top, w.lowX, w.lowY, w.lowZ, w.highX, w.highY, w.highZ}
      ensures Scanned(data, u, x) ==> Scanned(data, u', x)
    {
    }
  }

  /** The end of a row is the start of the next one. */
  lemma RowDone(data: array3<real>, j: int, k: int, max: real, lo: Voxel, hi: Voxel, w: Witnesses)
    requires Summary(data, Voxel(data.Length0, j, k), max, lo, hi, w)
    ensures Summary(data, Voxel(0, j + 1, k), max, lo, hi, w)
  {
    SummaryMoves(data, Voxel(data.Length0, j, k), Voxel(0, j + 1, k), max, lo, hi, w);
  }

  /** The end of a plane is the start of the next one. */
  lemma PlaneDone(data: array3<real>, k: int, max: real, lo: Voxel, hi: Voxel, w: Witnesses)
    requires Summary(data, Voxel(0, data.Length1, k), max, lo, hi, w)
    ensures Summary(data, Voxel(0, 0, k + 1), max, lo, hi, w)
  {
    SummaryMoves(data, Voxel(0, data.Length1, k), Voxel(0, 0, k + 1), max, lo, hi, w);
  }

  /** Visiting a zero voxel changes nothing the summary records. */
  lemma VisitZero(data: array3<real>, u: Voxel, u': Voxel, v: Voxel, max: real, lo: Voxel, hi: Voxel, w: Witnesses)
    requires Visits(data, u, u', v) && Value(data, v) == 0.0
    requires Summary(data, u, max, lo, hi, w)
    ensures Summary(data, u', max, lo, hi, w)
  {
    forall x | Scanned(data, u', x)
      ensures 0.0 <= Value(data, x) <= max
    {
      assert Scanned(data, u, x) || x == v;
    }
    forall x | SeenNonZero(data, u', x)
      ensures lo.x <= x.x <= hi.x && lo.y <= x.y <= hi.y && lo.z <= x.z <= hi.z
    {
      assert SeenNonZero(data, u, x);
      assert Coord(x, 0) == x.x && Coord(x, 1) == x.y && Coord(x, 2) == x.z;
    }
    forall x | x in {w.top, w.lowX, w.lowY, w.lowZ, w.highX, w.highY, w.highZ}
      ensures Scanned(data, u, x) ==> Scanned(data, u', x)
    {
    }
  }

  /**
   * What the set-up loop establishes about the whole image: whether it has a
   * negative voxel, and otherwise whether it is all zero, its maximum and the
   * bounding box [`lo`, `hi`] of its non-zero voxels.
   */
  ghost predicate ScanOutcome(data: array3<real>, negative: bool, max: real, lo: Voxel, hi: Voxel, w: Witnesses)
    reads data
  {
    && (negative <==> HasNegative(data))
    && (!negative ==> 0.0 <= max && (max == 0.0 <==> AllZero(data)))
    && (!negative && max > 0.0 ==>
          && MaxAt(data, max, w.top)
          && BoundingBox(data, lo, hi, w)
          && 0 <= lo.x <= hi.x < data.Length0 && 0 <= lo.y <= hi.y < data.Length1 && 0 <= lo.z <= hi.z < data.Length2)
  }

  /** Before the first voxel, the summary holds of the initial maximum and bounds. */
  lemma ScanStart(data: array3<real>)
    ensures Summary(data, Voxel(0, 0, 0), 0.0, Voxel(SizeMax, SizeMax, SizeMax), Voxel(0, 0, 0),
                    Witnesses(Voxel(0, 0, 0), Voxel(0, 0, 0), Voxel(0, 0, 0), Voxel(0, 0, 0),
                              Voxel(0, 0, 0), Voxel(0, 0, 0), Voxel(0, 0, 0)))
  {
  }

  /** Once the scan has passed the last voxel, the summary is about the whole image. */
  lemma {:induction false} ScanComplete(data: array3<real>, max: real, lo: Voxel, hi: Voxel, w: Witnesses)
    requires data.Length0 <= SizeMax && data.Length1 <= SizeMax && data.Length2 <= SizeMax
    requires Summary(data, Voxel(0, 0, data.Length2), max, lo, hi, w)
    ensures ScanOutcome(data, false, max, lo, hi, w)
  {
    var u := Voxel(0, 0, data.Length2);
    assert forall v :: InImage(data, v) ==> Scanned(data, u, v);
    if max == 0.0 {
      assert AllZero(data);
    } else {
      var t := w.top;
      assert InImage(data, t) && SeenNonZero(data, u, t);
      assert Coord(t, 0) == t.x && Coord(t, 1) == t.y && Coord(t, 2) == t.z;
      assert !(lo.x == SizeMax && hi.x == 0) && !(lo.y == SizeMax && hi.y == 0) && !(lo.z == SizeMax && hi.z == 0);
      forall v | InImage(data, v) && Value(data, v) != 0.0
        ensures lo.x <= v.x <= hi.x && lo.y <= v.y <= hi.y && lo.z <= v.z <= hi.z
      {
        assert SeenNonZero(data, u, v);
        assert Coord(v, 0) == v.x && Coord(v, 1) == v.y && Coord(v, 2) == v.z;
      }
    }
  }

  /**
   * The two bounding-box updates of one axis for a visited non-zero voxel `v`
   * whose index along `axis` is `c`.
   */
  method Widen(data: array3<real>, ghost u: Voxel, ghost u': Voxel, ghost v: Voxel, axis: nat, c: int,
               lo: int, hi: int, ghost atLo: Voxel, ghost atHi: Voxel)
    returns (lo': int, hi': int, ghost atLo': Voxel, ghost atHi': Voxel)
    requires Visits(data, u, u', v) && Value(data, v) != 0.0 && Coord(v, axis) == c && c < SizeMax
    requires ExtentSoFar(data, u, axis, lo, hi, atLo, atHi)
    ensures ExtentSoFar(data, u', axis, lo', hi', atLo', atHi')
  {
    lo', hi', atLo', atHi' := lo, hi, atLo, atHi;
    if lo == SizeMax && hi == 0 {
      atLo', atHi' := v, v;
    }
    if c < lo { lo' := c; atLo' := v; }
    if c > hi { hi' := c; atHi' := v; }
    assert SeenNonZero(data, u', v);
    assert SeenNonZero(data, u, atLo) ==> SeenNonZero(data, u', atLo);
    assert SeenNonZero(data, u, atHi) ==> SeenNonZero(data, u', atHi);
  }

  /** The body of the set-up loop for the voxel at (`i`, `j`, `k`); `negative` when it is negative. */
  method VisitVoxel(data: array3<real>, i: int, j: int, k: int, max: real, bottom: Voxel, top: Voxel, ghost w: Witnesses)
    returns (negative: bool, max': real, bottom': Voxel, top': Voxel, ghost w': Witnesses)
    requires InImage(data, Voxel(i, j, k))
    requires data.Length0 <= SizeMax && data.Length1 <= SizeMax && data.Length2 <= SizeMax
    requires Summary(data, Voxel(i, j, k), max, bottom, top, w)
    ensures negative ==> HasNegative(data)
    ensures !negative ==> Summary(data, Voxel(i + 1, j, k), max', bottom', top', w')
  {
    ghost var u, u', v := Voxel(i, j, k), Voxel(i + 1, j, k), Voxel(i, j, k);
    assert Visits(data, u, u', v);
    negative, max', bottom', top', w' := false, max, bottom, top, w;
    var value := data[i, j, k];
    if value != 0.0 {
      if value < 0.0 {
        assert Value(data, v) < 0.0;
        return true, max', bottom', top', w';
      }
      if value > max' {
        max' := value;
        w' := w'.(top := v);
      }
      assert MaxSoFar(data, u', max', w'.top);
      var lo, hi;
      ghost var atLo, atHi;
      lo, hi, atLo, atHi := Widen(data, u, u', v, 0, i, bottom'.x, top'.x, w'.lowX, w'.highX);
      bottom', top', w' := bottom'.(x := lo), top'.(x := hi), w'.(lowX := atLo, highX := atHi);
      lo, hi, atLo, atHi := Widen(data, u, u', v, 1, j, bottom'.y, top'.y, w'.lowY, w'.highY);
      bottom', top', w' := bottom'.(y := lo), top'.(y := hi), w'.(lowY := atLo, highY := atHi);
      lo, hi, atLo, atHi := Widen(data, u, u', v, 2, k, bottom'.z, top'.z, w'.lowZ, w'.highZ);
      bottom', top', w' := bottom'.(z := lo), top'.(z := hi), w'.(lowZ := atLo, highZ := atHi);
    } else {
      VisitZero(data, u, u', v, max', bottom', top', w');
    }
  }

  /** One row of the set-up scan (axis 0, with `j` and `k` fixed); `negative` when it meets a negative voxel. */
  method ScanRow(data: array3<real>, j: int, k: int, max: real, bottom: Voxel, top: Voxel, ghost w: Witnesses)
    returns (negative: bool, max': real, bottom': Voxel, top': Voxel, ghost w': Witnesses)
    requires 0 <= j < data.Length1 && 0 <= k < data.Length2
    requires data.Length0 <= SizeMax && data.Length1 <= SizeMax && data.Length2 <= SizeMax
    requires Summary(data, Voxel(0, j, k), max, bottom, top, w)
    ensures negative ==> HasNegative(data)
    ensures !negative ==> Summary(data, Voxel(0, j + 1, k), max', bottom', top', w')
  {
    negative, max', bottom', top', w' := false, max, bottom, top, w;
    var i := 0;
    while i < data.Length0
      invariant 0 <= i <= data.Length0
      invariant Summary(data, Voxel(i, j, k), max', bottom', top', w')
    {
      negative, max', bottom', top', w' := VisitVoxel(data, i, j, k, max', bottom', top', w');
      if negative {
        return;
      }
      i := i + 1;
    }
    RowDone(data, j, k, max', bottom', top', w');
  }

  /** One plane of the set-up scan (axes 0 and 1, with `k` fixed); `negative` when it meets a negative voxel. */
  method ScanPlane(data: array3<real>, k: int, max: real, bottom: Voxel, top: Voxel, ghost w: Witnesses)
    returns (negative: bool, max': real, bottom': Voxel, top': Voxel, ghost w': Witnesses)
    requires 0 <= k < data.Length2
    requires data.Length0 <= SizeMax && data.Length1 <= SizeMax && data.Length2 <= SizeMax
    requires Summary(data, Voxel(0, 0, k), max, bottom, top, w)
    ensures negative ==> HasNegative(data)
    ensures !negative ==> Summary(data, Voxel(0, 0, k + 1), max', bottom', top', w')
  {
    negative, max', bottom', top', w' := false, max, bottom, top, w;
    var j := 0;
    while j < data.Length1
      invariant 0 <= j <= data.Length1
      invariant Summary(data, Voxel(0, j, k), max', bottom', top', w')
    {
      negative, max', bottom', top', w' := ScanRow(data, j, k, max', bottom', top', w');
      if negative {
        return;
      }
      j := j + 1;
    }
    PlaneDone(data, k, max', bottom', top', w');
  }

  /**
   * The set-up loop over the whole image, axis 0 fastest: it stops at the first
   * negative voxel, and otherwise ends with the largest value and the
   * bounding box of the non-zero voxels.
   */
  method ScanImage(data: array3<real>) returns (negative: bool, max: real, bottom: Voxel, top: Voxel, ghost w: Witnesses)
    requires data.Length0 <= SizeMax && data.Length1 <= SizeMax && data.Length2 <= SizeMax
    ensures ScanOutcome(data, negative, max, bottom, top, w)
  {
    negative, max := false, 0.0;
    bottom, top := Voxel(SizeMax, SizeMax, SizeMax), Voxel(0, 0, 0);
    w := Witnesses(top, top, top, top, top, top, top);
    ScanStart(data);
    var k := 0;
    while k < data.Length2 && !negative
      invariant 0 <= k <= data.Length2
      invariant !negative ==> Summary(data, Voxel(0, 0, k), max, bottom, top, w)
      invariant negative ==> HasNegative(data)
    {
      negative, max, bottom, top, w := ScanPlane(data, k, max, bottom, top, w);
      k := k + 1;
    }
    if !negative {
      ScanComplete(data, max, bottom, top, w);
    }
  }

  /**
   * The crop of one axis: it starts one voxel below `lo` (but not below 0)
   * and ends one voxel above `hi` (but not beyond `dim`).
   */
  predicate Padded(lo: int, hi: int, dim: int, bottom: int, extent: int) {
    bottom == (if lo > 0 then lo - 1 else 0) && extent == Min(dim - bottom, hi + 2 - bottom)
  }

  /** The padding of one axis, done in place on the lower bound as the constructor does. */
  method Pad(lo: int, hi: int, dim: int) returns (bottom: int, extent: int)
    requires 0 <= lo
    ensures Padded(lo, hi, dim, bottom, extent)
  {
    bottom := lo;
    if bottom > 0 {
      bottom := bottom - 1;
    }
    extent := Min(dim - bottom, hi + 2 - bottom);
  }

  /** The voxel `v` lies inside the cropped grid. */
  predicate InCrop(c: Crop, v: Voxel) {
    && c.bottom.x <= v.x < c.bottom.x + c.extent.x
    && c.bottom.y <= v.y < c.bottom.y + c.extent.y
    && c.bottom.z <= v.z < c.bottom.z + c.extent.z
  }

  /**
   * The `Rejection` constructor: reject a negative voxel and an image with no
   * non-zero voxel, and otherwise keep the largest value and crop the image to
   * the bounding box [`lo`, `hi`] of the non-zero voxels, padded by one voxel
   * on each side and clamped to the image.
   */
  method RejectionSetup(data: array3<real>)
    returns (r: Result<Crop, SetupError>, ghost lo: Voxel, ghost hi: Voxel, ghost w: Witnesses)
    requires data.Length0 <= SizeMax && data.Length1 <= SizeMax && data.Length2 <= SizeMax
    ensures r == Failure(NegativeValue) <==> HasNegative(data)
    ensures r == Failure(EmptyImage) <==> AllZero(data)
    ensures r.Success? ==> r.value.max > 0.0 && MaxAt(data, r.value.max, w.top)
    ensures r.Success? ==> BoundingBox(data, lo, hi, w)
    ensures r.Success? ==>
      && Padded(lo.x, hi.x, data.Length0, r.value.bottom.x, r.value.extent.x)
      && Padded(lo.y, hi.y, data.Length1, r.value.bottom.y, r.value.extent.y)
      && Padded(lo.z, hi.z, data.Length2, r.value.bottom.z, r.value.extent.z)
  {
    var negative, max, bottom, top;
    negative, max, bottom, top, w := ScanImage(data);
    lo, hi := bottom, top;
    if negative {
      return Failure(NegativeValue), lo, hi, w;
    }
    if max == 0.0 {
      return Failure(EmptyImage), lo, hi, w;
    }
    var x0, nx := Pad(bottom.x, top.x, data.Length0);
    var y0, ny := Pad(bottom.y, top.y, data.Length1);
    var z0, nz := Pad(bottom.z, top.z, data.Length2);
    r := Success(Crop(max, Voxel(x0, y0, z0), Voxel(nx, ny, nz)));
  }

  /**
   * The crop loses nothing and stays inside the image: every non-zero voxel
   * lies inside it, and it is a non-empty sub-grid of the image.
   */
  lemma CropKeepsEveryNonZeroVoxel(data: array3<real>, c: Crop, lo: Voxel, hi: Voxel, w: Witnesses)
    requires BoundingBox(data, lo, hi, w)
    requires Padded(lo.x, hi.x, data.Length0, c.bottom.x, c.extent.x)
    requires Padded(lo.y, hi.y, data.Length1, c.bottom.y, c.extent.y)
    requires Padded(lo.z, hi.z, data.Length2, c.bottom.z, c.extent.z)
    ensures forall v :: InImage(data, v) && Value(data, v) != 0.0 ==> InCrop(c, v)
    ensures 0 <= c.bottom.x && 0 < c.extent.x && c.bottom.x + c.extent.x <= data.Length0
    ensures 0 <= c.bottom.y && 0 < c.extent.y && c.bottom.y + c.extent.y <= data.Length1
    ensures 0 <= c.bottom.z && 0 < c.extent.z && c.bottom.z + c.extent.z <= data.Length2
  {
    assert lo.x <= w.highX.x && lo.y <= w.highY.y && lo.z <= w.highZ.z;
  }
}
