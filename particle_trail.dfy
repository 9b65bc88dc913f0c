/** The mouse-trail particle system of script.js: particles are spawned one per
    mouse move, and each animation frame first drops the particles that have
    become too small and then advances every survivor. Sizes, positions and
    speeds are exact reals; Math.random() draws are parameters in [0,1). */
module ParticleTrail {

  import opened Optional

  /** Factor applied to a particle's size by every update. */
  const DECAY: real := 0.96
  /** A particle is kept by a frame only while its size is above this. */
  const THRESHOLD: real := 0.5

  datatype Point = Point(x: real, y: real)

  /** The value of a particle: its six fields. */
  datatype PState = PState(x: real, y: real, size: real, speedX: real, speedY: real, hue: real)

  /** The four Math.random() results a new particle consumes, in source order. */
  datatype Draws = Draws(size: real, speedX: real, speedY: real, hue: real)

  predicate IsDraw(r: real) { 0.0 <= r < 1.0 }

  predicate ValidDraws(d: Draws) {
    IsDraw(d.size) && IsDraw(d.speedX) && IsDraw(d.speedY) && IsDraw(d.hue)
  }

  /** b raised to the k-th power. */
  function Pow(b: real, k: nat): real {
    if k == 0 then 1.0 else b * Pow(b, k - 1)
  }

  /** The state a new particle starts in at (x, y). */
  function Spawned(x: real, y: real, d: Draws): (p: PState)
    ensures p.x == x && p.y == y
    ensures ValidDraws(d) ==> 2.0 <= p.size < 7.0
    ensures ValidDraws(d) ==> -1.5 <= p.speedX < 1.5 && -1.5 <= p.speedY < 1.5
    ensures ValidDraws(d) ==> 0.0 <= p.hue < 360.0
  {
    PState(x, y, d.size * 5.0 + 2.0, d.speedX * 3.0 - 1.5, d.speedY * 3.0 - 1.5, d.hue * 360.0)
  }

  /** One update of a particle: it moves by its velocity and shrinks. */
  function Moved(p: PState): (q: PState)
    ensures q.speedX == p.speedX && q.speedY == p.speedY && q.hue == p.hue
    ensures q.x - p.x == p.speedX && q.y - p.y == p.speedY
    ensures p.size > 0.0 ==> 0.0 < q.size < p.size
  {
    PState(p.x + p.speedX, p.y + p.speedY, p.size * DECAY, p.speedX, p.speedY, p.hue)
  }

  /** Closed form of a particle after k updates. */
  function After(p: PState, k: nat): PState {
    PState(p.x + (k as real) * p.speedX, p.y + (k as real) * p.speedY,
           p.size * Pow(DECAY, k), p.speedX, p.speedY, p.hue)
  }

  /** k successive updates of one particle. */
  function MovedTimes(p: PState, k: nat): (q: PState)
    ensures q.speedX == p.speedX && q.speedY == p.speedY && q.hue == p.hue
    ensures p.size > 0.0 ==> 0.0 < q.size <= p.size
  {
    if k == 0 then p else Moved(MovedTimes(p, k - 1))
  }

  /** The filter predicate of the animation loop. */
  predicate Alive(p: PState) { p.size > THRESHOLD }

  /** Array.prototype.filter with Alive: the kept particles, in their order. */
  function Survivors(s: seq<PState>): (r: seq<PState>)
    ensures |r| <= |s|
  {
    if s == [] then [] else (if Alive(s[0]) then [s[0]] else []) + Survivors(s[1..])
  }

  /** Every particle of s updated once, in place. */
  function AdvanceAll(s: seq<PState>): (r: seq<PState>)
    ensures |r| == |s|
  {
    seq(|s|, k requires 0 <= k < |s| => Moved(s[k]))
  }

  /** What one animation frame does to the list: filter first, then update. */
  function FrameStep(s: seq<PState>): (r: seq<PState>)
    ensures |r| <= |s|
  {
    AdvanceAll(Survivors(s))
  }

  /** k animation frames with no mouse input in between. */
  function Frames(s: seq<PState>, k: nat): (r: seq<PState>)
    ensures |r| <= |s|
  {
    if k == 0 then s else FrameStep(Frames(s, k - 1))
  }

  // ---------------------------------------------------------------------------
  // Properties of the pure model

  /** k updates move a particle k velocities away and scale its size by 0.96^k. */
  lemma {:induction false} MovedTimesClosedForm(p: PState, k: nat)
    ensures MovedTimes(p, k) == After(p, k)
  {
    if k > 0 {
      MovedTimesClosedForm(p, k - 1);
      MovedAfter(p, k - 1);
    }
  }

  /** Filtering distributes over concatenation, so the survivors keep their
      relative order. */
  lemma {:induction false} SurvivorsAppend(s: seq<PState>, t: seq<PState>)
    ensures Survivors(s + t) == Survivors(s) + Survivors(t)
  {
    if s == [] {
      assert s + t == t;
    } else {
      var head := if Alive(s[0]) then [s[0]] else [];
      assert (s + t)[0] == s[0];
      assert (s + t)[1..] == s[1..] + t;
      assert Survivors(s + t) == head + Survivors(s[1..] + t);
      SurvivorsAppend(s[1..], t);
      assert Survivors(s) == head + Survivors(s[1..]);
    }
  }

  /** Filtering a single particle keeps it exactly when it is alive. */
  lemma SurvivorsSingle(p: PState)
    ensures Survivors([p]) == if Alive(p) then [p] else []
  {
    assert [p][1..] == [];
  }

  /** Filtering one more element of a prefix appends it when it is alive. */
  lemma SurvivorsPrefix(s: seq<PState>, i: nat)
    requires i < |s|
    ensures Survivors(s[..i + 1]) == Survivors(s[..i]) + if Alive(s[i]) then [s[i]] else []
  {
    assert s[..i + 1] == s[..i] + [s[i]];
    SurvivorsAppend(s[..i], [s[i]]);
    SurvivorsSingle(s[i]);
  }

  /** The filter keeps exactly the alive particles. */
  lemma {:induction false} SurvivorsMembers(s: seq<PState>)
    ensures forall p :: p in Survivors(s) <==> p in s && Alive(p)
  {
    if s != [] {
      SurvivorsMembers(s[1..]);
      assert forall p :: p in s <==> p == s[0] || p in s[1..];
    }
  }

  /** A frame keeps the whole list exactly when every particle is alive. */
  lemma {:induction false} SurvivorsAll(s: seq<PState>)
    ensures Survivors(s) == s <==> forall k :: 0 <= k < |s| ==> Alive(s[k])
  {
    if s != [] {
      SurvivorsAll(s[1..]);
      if !Alive(s[0]) {
        assert |Survivors(s)| < |s|;
      } else {
        assert forall k :: 1 <= k < |s| ==> s[k] == s[1..][k - 1];
      }
    }
  }

  /** A frame distributes over concatenation: frames treat every particle independently. */
  lemma FrameStepAppend(s: seq<PState>, t: seq<PState>)
    ensures FrameStep(s + t) == FrameStep(s) + FrameStep(t)
  {
    SurvivorsAppend(s, t);
  }

  /** Any number of frames distributes over concatenation: without mouse input,
      what happens to part of the trail does not depend on the rest. */
  lemma {:induction false} FramesAppend(s: seq<PState>, t: seq<PState>, k: nat)
    ensures Frames(s + t, k) == Frames(s, k) + Frames(t, k)
  {
    if k > 0 {
      FramesAppend(s, t, k - 1);
      FrameStepAppend(Frames(s, k - 1), Frames(t, k - 1));
    }
  }

  /** A particle anywhere in the trail evolves as if it were alone. */
  lemma FramesAround(s: seq<PState>, p: PState, t: seq<PState>, k: nat)
    ensures Frames(s + [p] + t, k) == Frames(s, k) + Frames([p], k) + Frames(t, k)
  {
    FramesAppend(s + [p], t, k);
    FramesAppend(s, [p], k);
  }

  /** One frame seen on a single particle: it survives exactly when its size at the
      start of the frame is above 0.5, and then leaves the frame updated once. */
  lemma FrameStepSingle(p: PState)
    ensures FrameStep([p]) == if Alive(p) then [Moved(p)] else []
  {
    SurvivorsSingle(p);
  }

  /** After a frame every particle is 0.96 times a size above 0.5, so above 0.48;
      it can be drawn below 0.5. */
  lemma FrameStepSizes(s: seq<PState>)
    ensures forall q :: q in FrameStep(s) ==> q.size > THRESHOLD * DECAY
  {
    var kept := Survivors(s);
    SurvivorsMembers(s);
    forall q | q in FrameStep(s)
      ensures q.size > THRESHOLD * DECAY
    {
      var k :| 0 <= k < |kept| && q == Moved(kept[k]);
      assert kept[k] in kept;
    }
  }

  /** A frame removes at most the particles it finds dead, never adds any. */
  lemma FrameStepCount(s: seq<PState>)
    ensures |FrameStep(s)| <= |s|
    ensures |FrameStep(s)| == |s| <==> forall k :: 0 <= k < |s| ==> Alive(s[k])
  {
    SurvivorsAll(s);
    if |Survivors(s)| == |s| && Survivors(s) != s {
      SurvivorsShorter(s);
    }
  }

  /** A filtered list that is not the whole list is strictly shorter. */
  lemma {:induction false} SurvivorsShorter(s: seq<PState>)
    requires Survivors(s) != s
    ensures |Survivors(s)| < |s|
  {
    if s != [] && Alive(s[0]) {
      SurvivorsShorter(s[1..]);
    }
  }

  /** The frame filters before it updates: a particle just above the threshold
      survives and is drawn at a size below it, and only the next frame drops it. */
  lemma DrawnBelowThreshold()
    ensures var p := PState(0.0, 0.0, 0.51, 0.0, 0.0, 0.0);
      FrameStep([p]) == [PState(0.0, 0.0, 0.4896, 0.0, 0.0, 0.0)] &&
      Frames([p], 2) == []
  {
    var p := PState(0.0, 0.0, 0.51, 0.0, 0.0, 0.0);
    FrameStepSingle(p);
    FrameStepSingle(Moved(p));
  }

  /** The frame filters before it updates, so the last state of every lone particle,
      the one drawn in its final frame, has a size of at most 0.5: a particle present
      after k frames and gone after k + 1 was drawn at a size it is dropped for. */
  lemma LastDrawnAtMostThreshold(p: PState, k: nat)
    requires |Frames([p], k)| == 1 && Frames([p], k + 1) == []
    ensures Frames([p], k)[0].size <= THRESHOLD
  {
    Lifetime(p, k);
    Lifetime(p, k + 1);
  }

  /** Powers of the decay factor are positive and decrease with the exponent. */
  lemma {:induction false} PowDecay(j: nat, k: nat)
    requires j <= k
    ensures 0.0 < Pow(DECAY, k) <= Pow(DECAY, j)
  {
    if j < k {
      PowDecay(j, k - 1);
    } else if k > 0 {
      PowDecay(0, k - 1);
    }
  }

  /** A lone particle's size is still above 0.5 after j updates. */
  predicate AboveAfter(p: PState, j: nat) {
    p.size * Pow(DECAY, j) > THRESHOLD
  }

  /** The size of a lone particle was above 0.5 at the start of each of its first
      k frames. */
  predicate AliveThrough(p: PState, k: nat) {
    k == 0 || (AliveThrough(p, k - 1) && AboveAfter(p, k - 1))
  }

  /** Alive through k frames means alive at the start of each of them. */
  lemma {:induction false} AliveThroughAt(p: PState, k: nat, j: nat)
    requires AliveThrough(p, k) && j < k
    ensures AboveAfter(p, j)
  {
    if j < k - 1 {
      AliveThroughAt(p, k - 1, j);
    }
  }

  /** Alive at the start of each of k frames means alive through them. */
  lemma {:induction false} AliveAtEach(p: PState, k: nat)
    requires forall j :: 0 <= j < k ==> AboveAfter(p, j)
    ensures AliveThrough(p, k)
  {
    if k > 0 {
      AliveAtEach(p, k - 1);
    }
  }

  /** AliveThrough says that each of the first k sizes was above 0.5. */
  lemma AliveThroughAll(p: PState, k: nat)
    ensures AliveThrough(p, k) <==> forall j :: 0 <= j < k ==> AboveAfter(p, j)
  {
    if AliveThrough(p, k) {
      forall j | 0 <= j < k
        ensures AboveAfter(p, j)
      {
        AliveThroughAt(p, k, j);
      }
    }
    if forall j :: 0 <= j < k ==> AboveAfter(p, j) {
      AliveAtEach(p, k);
    }
  }

  /** Multiplication distributes over a successor. */
  lemma Distrib(a: real, n: real)
    ensures (n + 1.0) * a == n * a + a
  {
  }

  /** One update applied to the closed form after k updates gives the closed form
      after k + 1. */
  lemma MovedAfter(p: PState, k: nat)
    ensures Moved(After(p, k)) == After(p, k + 1)
  {
    var a, b := After(p, k), After(p, k + 1);
    var n := k as real;
    assert ((k + 1) as real) == n + 1.0;
    Distrib(p.speedX, n);
    Distrib(p.speedY, n);
    assert a.x + p.speedX == b.x;
    assert a.y + p.speedY == b.y;
    var q := Pow(DECAY, k);
    assert Pow(DECAY, k + 1) == DECAY * q;
    Rotate(p.size, q, DECAY);
    assert a.size * DECAY == b.size;
  }

  /** Reassociating a product of three reals. */
  lemma Rotate(a: real, b: real, c: real)
    ensures (a * b) * c == a * (c * b)
  {
  }

  /** A lone particle with no further input is present after k frames exactly when
      its size was above 0.5 at the start of each of those frames; it is then the
      particle updated k times. */
  lemma {:induction false} Lifetime(p: PState, k: nat)
    ensures Frames([p], k) == if AliveThrough(p, k) then [After(p, k)] else []
  {
    if k > 0 {
      Lifetime(p, k - 1);
      if AliveThrough(p, k - 1) {
        FrameStepSingle(After(p, k - 1));
        MovedAfter(p, k - 1);
      } else {
        assert Frames([p], k - 1) == [];
        assert FrameStep([]) == [];
      }
    }
  }

  /** Because sizes only shrink, the per-frame condition of Lifetime reduces to the
      size at the start of the last frame. */
  lemma {:induction false} LastFrameDecides(p: PState, k: nat)
    requires k > 0
    ensures AliveThrough(p, k) <==> p.size * Pow(DECAY, k - 1) > THRESHOLD
  {
    if k > 1 && p.size * Pow(DECAY, k - 1) > THRESHOLD {
      var q0 := Pow(DECAY, k - 2);
      assert p.size * Pow(DECAY, k - 1) == DECAY * (p.size * q0);
      LastFrameDecides(p, k - 1);
    }
  }

  /** Bernoulli's inequality for the decay factor: 0.96^k <= 24 / (24 + k). */
  lemma {:induction false} PowBound(k: nat)
    ensures Pow(DECAY, k) * (24.0 + k as real) <= 24.0
  {
    if k > 0 {
      PowBound(k - 1);
      PowDecay(0, k - 1);
      var q := Pow(DECAY, k - 1);
      var m := (k - 1) as real;
      assert DECAY * (25.0 + m) <= 24.0 + m;
      assert Pow(DECAY, k) * (24.0 + k as real) == q * (DECAY * (25.0 + m));
      assert q * (DECAY * (25.0 + m)) <= q * (24.0 + m);
    }
  }

  /** Multiplying both sides by a non-negative factor keeps an inequality. */
  lemma ScaleLe(q: real, a: real, b: real)
    requires q >= 0.0 && a <= b
    ensures q * a <= q * b
  {
  }

  /** Every particle disappears after finitely many frames: one of size z is gone
      from the trail s + [p] + t after any number of frames above 48 * z, leaving
      the rest of the trail as it would have been without it. */
  lemma EventuallyGone(s: seq<PState>, p: PState, t: seq<PState>, k: nat)
    requires k > 0 && k as real > 48.0 * p.size
    ensures Frames(s + [p] + t, k) == Frames(s, k) + Frames(t, k)
  {
    DecaysToThreshold(p, k - 1);
    GoneAfter(s, p, t, k - 1);
  }

  /** A size z has decayed to at most 0.5 after any m updates with m + 1 > 48 * z. */
  lemma DecaysToThreshold(p: PState, m: nat)
    requires (m + 1) as real > 48.0 * p.size
    ensures p.size * Pow(DECAY, m) <= THRESHOLD
  {
    var q := Pow(DECAY, m);
    PowDecay(0, m);
    if p.size > 0.0 {
      assert 48.0 * p.size <= 24.0 + m as real;
      calc {
        48.0 * (p.size * q);
      ==
        q * (48.0 * p.size);
      <= { ScaleLe(q, 48.0 * p.size, 24.0 + m as real); }
        q * (24.0 + m as real);
      <= { PowBound(m); }
        24.0;
      }
    } else {
      ScaleLe(q, p.size, 0.0);
    }
  }

  /** Exponents add. */
  lemma {:induction false} PowAdd(b: real, m: nat, n: nat)
    ensures Pow(b, m + n) == Pow(b, m) * Pow(b, n)
  {
    if n > 0 {
      PowAdd(b, m, n - 1);
      assert Pow(b, m + n) == b * Pow(b, m + n - 1);
    }
  }

  /** The two powers of 0.96 that bound a spawned particle's lifetime. */
  lemma DecayPowers()
    ensures Pow(DECAY, 33) > 0.25
    ensures 7.0 * Pow(DECAY, 65) <= THRESHOLD
  {
    assert Pow(DECAY, 2) == 0.9216 by { assert Pow(DECAY, 1) == DECAY; }
    assert Pow(DECAY, 5) == 0.8153726976 by {
      assert Pow(DECAY, 3) == 0.884736;
      assert Pow(DECAY, 4) == 0.84934656;
    }
    PowAdd(DECAY, 5, 5);
    PowAdd(DECAY, 10, 10);
    PowAdd(DECAY, 20, 10);
    PowAdd(DECAY, 30, 5);
    PowAdd(DECAY, 33, 2);
    PowAdd(DECAY, 30, 30);
    PowAdd(DECAY, 60, 5);
  }

  /** A particle whose size is at most 0.5 after m updates is gone from the trail
      after m + 1 frames; the rest of the trail is as it would be without it. */
  lemma GoneAfter(s: seq<PState>, p: PState, t: seq<PState>, m: nat)
    requires p.size * Pow(DECAY, m) <= THRESHOLD
    ensures Frames(s + [p] + t, m + 1) == Frames(s, m + 1) + Frames(t, m + 1)
  {
    Lifetime(p, m + 1);
    LastFrameDecides(p, m + 1);
    FramesAround(s, p, t, m + 1);
  }

  /** A particle whose size is still above 0.5 after m updates is in the trail
      after m + 1 frames, at its own place and updated m + 1 times. */
  lemma PresentAfter(s: seq<PState>, p: PState, t: seq<PState>, m: nat)
    requires p.size * Pow(DECAY, m) > THRESHOLD
    ensures Frames(s + [p] + t, m + 1) == Frames(s, m + 1) + [After(p, m + 1)] + Frames(t, m + 1)
  {
    Lifetime(p, m + 1);
    LastFrameDecides(p, m + 1);
    FramesAround(s, p, t, m + 1);
  }

  /** A particle no larger than a size that the decay brings to at most 0.5
      within m updates is gone from the trail after m + 1 frames. */
  lemma GoneBySize(s: seq<PState>, p: PState, t: seq<PState>, bound: real, m: nat)
    requires p.size <= bound && bound * Pow(DECAY, m) <= THRESHOLD
    ensures Frames(s + [p] + t, m + 1) == Frames(s, m + 1) + Frames(t, m + 1)
  {
    PowDecay(0, m);
    var q := Pow(DECAY, m);
    assert p.size * q <= bound * q <= THRESHOLD;
    GoneAfter(s, p, t, m);
  }

  /** A particle at least as large as a size that the decay keeps above 0.5
      for m updates is still in the trail after m + 1 frames. */
  lemma PresentBySize(s: seq<PState>, p: PState, t: seq<PState>, bound: real, m: nat)
    requires p.size >= bound && bound * Pow(DECAY, m) > THRESHOLD
    ensures Frames(s + [p] + t, m + 1) == Frames(s, m + 1) + [After(p, m + 1)] + Frames(t, m + 1)
  {
    PowDecay(0, m);
    var q := Pow(DECAY, m);
    assert p.size * q >= bound * q > THRESHOLD;
    PresentAfter(s, p, t, m);
  }

  /** A spawned particle (size at least 2), wherever it sits in the trail, is still
      there after 34 frames, updated 34 times. */
  lemma SpawnedPresent(s: seq<PState>, t: seq<PState>, x: real, y: real, d: Draws)
    requires ValidDraws(d)
    ensures var p := Spawned(x, y, d);
      Frames(s + [p] + t, 34) == Frames(s, 34) + [After(p, 34)] + Frames(t, 34)
  {
    DecayPowers();
    PresentBySize(s, Spawned(x, y, d), t, 2.0, 33);
  }

  /** A spawned particle (size below 7), wherever it sits in the trail, is gone
      after 66 frames, and the rest of the trail is as it would be without it. */
  lemma SpawnedGone(s: seq<PState>, t: seq<PState>, x: real, y: real, d: Draws)
    requires ValidDraws(d)
    ensures Frames(s + [Spawned(x, y, d)] + t, 66) == Frames(s, 66) + Frames(t, 66)
  {
    DecayPowers();
    GoneBySize(s, Spawned(x, y, d), t, 7.0, 65);
  }

  // ---------------------------------------------------------------------------
  // The imperative objects

  /** A trail particle; its update changes its own fields. */
  class Particle {
    var x: real
    var y: real
    var size: real
    var speedX: real
    var speedY: real
    var hue: real

    function State(): PState
      reads this
    {
      PState(x, y, size, speedX, speedY, hue)
    }

    /** new Particle(x, y), with the four random draws passed in. */
    constructor (x0: real, y0: real, d: Draws)
      ensures State() == Spawned(x0, y0, d)
    {
      x := x0;
      y := y0;
      size := d.size * 5.0 + 2.0;
      speedX := d.speedX * 3.0 - 1.5;
      speedY := d.speedY * 3.0 - 1.5;
      hue := d.hue * 360.0;
    }

    method Update()
      modifies this
      ensures State() == Moved(old(State()))
    {
      x := x + speedX;
      y := y + speedY;
      size := size * DECAY;
    }
  }

  predicate Distinct(ps: seq<Particle>) {
    forall i, j :: 0 <= i < j < |ps| ==> ps[i] != ps[j]
  }

  /** The module-level particle list and mouse position of script.js. */
  class Trail {
    var particles: seq<Particle>
    var mouse: Option<Point>
    /** The values of the particles, in list order. */
    ghost var Contents: seq<PState>

    ghost predicate Valid()
      reads this, particles
    {
      Distinct(particles) &&
      |Contents| == |particles| &&
      forall k :: 0 <= k < |particles| ==> particles[k].State() == Contents[k]
    }

    constructor ()
      ensures Valid() && Contents == [] && mouse == None
    {
      particles := [];
      mouse := None;
      Contents := [];
    }

    /** The mousemove handler: record the pointer and push one new particle there. */
    method MouseMove(clientX: real, clientY: real, d: Draws)
      requires Valid()
      modifies this
      ensures Valid()
      ensures mouse == Some(Point(clientX, clientY))
      ensures Contents == old(Contents) + [Spawned(clientX, clientY, d)]
      ensures |particles| == |old(particles)| + 1
      ensures particles[..|old(particles)|] == old(particles)
      ensures fresh(particles[|old(particles)|])
    {
      mouse := Some(Point(clientX, clientY));
      var p := new Particle(clientX, clientY, d);
      particles := particles + [p];
      Contents := Contents + [p.State()];
    }

    /** The particle part of animate(): the filter, then the update of each survivor. */
    method Frame()
      requires Valid()
      modifies this, set p | p in particles
      ensures Valid()
      ensures Contents == FrameStep(old(Contents))
      ensures forall p :: p in particles ==> p in old(particles)
      ensures mouse == old(mouse)
    {
      DropSmall();
      UpdateEach();
    }

    /** Keeps, in order, the particles whose size is above THRESHOLD. */
    method DropSmall()
      requires Valid()
      modifies this
      ensures Valid()
      ensures Contents == Survivors(old(Contents))
      ensures forall p :: p in particles ==> p in old(particles)
      ensures mouse == old(mouse)
    {
      var kept: seq<Particle> := [];
      ghost var keptStates: seq<PState> := [];
      var i := 0;
      while i < |particles|
        invariant 0 <= i <= |particles|
        invariant Valid() && particles == old(particles) && Contents == old(Contents)
        invariant mouse == old(mouse)
        invariant keptStates == Survivors(Contents[..i])
        invariant |kept| == |keptStates|
        invariant forall k :: 0 <= k < |kept| ==> kept[k].State() == keptStates[k]
        invariant forall k :: 0 <= k < |kept| ==> kept[k] in particles[..i]
        invariant Distinct(kept)
      {
        var p := particles[i];
        SurvivorsPrefix(Contents, i);
        if p.size > THRESHOLD {
          kept := kept + [p];
          keptStates := keptStates + [Contents[i]];
        }
        i := i + 1;
      }
      assert Contents[..|Contents|] == Contents;
      particles := kept;
      Contents := keptStates;
    }

    /** Updates every particle of the list once, in list order. */
    method UpdateEach()
      requires Valid()
      modifies this, set p | p in particles
      ensures Valid()
      ensures Contents == AdvanceAll(old(Contents))
      ensures particles == old(particles) && mouse == old(mouse)
    {
      var i := 0;
      while i < |particles|
        invariant 0 <= i <= |particles|
        invariant particles == old(particles) && mouse == old(mouse)
        invariant Valid()
        invariant forall k :: 0 <= k < i ==> Contents[k] == Moved(old(Contents)[k])
        invariant forall k :: i <= k < |particles| ==> Contents[k] == old(Contents)[k]
      {
        particles[i].Update();
        Contents := Contents[i := Moved(Contents[i])];
        i := i + 1;
      }
    }
  }
}
