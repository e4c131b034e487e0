/** The 64-bit generator behind the decorative effects, and the life of a confetti burst. */
module Fx {
  // ----- The generator -----

  function Shift13(x: bv64): bv64 {
    x ^ (x << 13)
  }

  function Shift7(x: bv64): bv64 {
    x ^ (x >> 7)
  }

  function Shift17(x: bv64): bv64 {
    x ^ (x << 17)
  }

  function Mix(x: bv64): bv64 {
    Shift17(Shift7(Shift13(x)))
  }

  function Unshift13(y: bv64): bv64 {
    var a := y ^ (y << 13);
    var b := a ^ (a << 26);
    b ^ (b << 52)
  }

  function Unshift7(y: bv64): bv64 {
    var a := y ^ (y >> 7);
    var b := a ^ (a >> 14);
    var c := b ^ (b >> 28);
    c ^ (c >> 56)
  }

  function Unshift17(y: bv64): bv64 {
    var a := y ^ (y << 17);
    a ^ (a << 34)
  }

  function Unmix(y: bv64): bv64 {
    Unshift13(Unshift7(Unshift17(y)))
  }

  lemma Bits13(x: bv64)
    ensures Unshift13(x ^ (x << 13)) == x
  {
  }

  lemma Unshift13Undoes(x: bv64)
    ensures Unshift13(Shift13(x)) == x
  {
    hide Unshift13;
    Bits13(x);
  }

  lemma Bits7(x: bv64)
    ensures Unshift7(x ^ (x >> 7)) == x
  {
  }

  lemma Unshift7Undoes(x: bv64)
    ensures Unshift7(Shift7(x)) == x
  {
    hide Unshift7;
    Bits7(x);
  }

  lemma Bits17(x: bv64)
    ensures Unshift17(x ^ (x << 17)) == x
  {
  }

  lemma Unshift17Undoes(x: bv64)
    ensures Unshift17(Shift17(x)) == x
  {
    hide Unshift17;
    Bits17(x);
  }

  lemma ZeroIsFixed()
    ensures Mix(0) == 0
  {
  }

  lemma UnmixUndoesMix(x: bv64)
    ensures Unmix(Mix(x)) == x
  {
    hide Unshift13, Unshift7, Unshift17, Shift13, Shift7, Shift17;
    Unshift13Undoes(x);
    Unshift7Undoes(Shift13(x));
    Unshift17Undoes(Shift7(Shift13(x)));
  }

  /** The generator's step is one-to-one, and only zero is mapped to zero. */
  lemma MixIsInjective(x: bv64, y: bv64)
    requires Mix(x) == Mix(y)
    ensures x == y
  {
    hide Unmix, Mix;
    UnmixUndoesMix(x);
    UnmixUndoesMix(y);
  }

  lemma OnlyZeroGivesZero(x: bv64)
    ensures Mix(x) == 0 <==> x == 0
  {
    hide Mix;
    ZeroIsFixed();
    if Mix(x) == 0 {
      MixIsInjective(x, 0);
    }
  }

  /** The state after `n` steps. */
  ghost function After(x: bv64, n: nat): bv64 {
    if n == 0 then x else Mix(After(x, n - 1))
  }

  class XorShift64 {
    var state: bv64

    /** A zero seed is replaced, so the state is never zero. */
    ghost predicate Valid()
      reads this
    {
      state != 0
    }

    constructor (seed: bv64)
      ensures Valid() && state == if seed == 0 then 1 else seed
    {
      state := if seed > 1 then seed else 1;
    }

    /** `next_u64`: the guard against a zero state never acts, so the value returned is the new state. */
    method NextU64() returns (x: bv64)
      requires Valid()
      modifies this
      ensures Valid() && x == state == Mix(old(state))
    {
      hide Shift13, Shift7, Shift17;
      OnlyZeroGivesZero(state);
      x := state;
      x := Shift13(x);
      x := Shift7(x);
      x := Shift17(x);
      state := if x > 1 then x else 1;
    }
  }

  /** Two generators with different states never meet: after any number of steps they still differ. */
  lemma {:induction false} StreamsNeverMeet(x: bv64, y: bv64, n: nat)
    requires x != y
    ensures After(x, n) != After(y, n)
  {
    hide Mix;
    if n > 0 {
      StreamsNeverMeet(x, y, n - 1);
      if After(x, n) == After(y, n) {
        MixIsInjective(After(x, n - 1), After(y, n - 1));
      }
    }
  }

  // ----- Confetti -----

  const CONFETTI_INITIAL_LIFE: nat := 120
  const CONFETTI_GRAVITY: real := 0.03

  /** A particle, without its colour and glyph. */
  datatype Particle = Particle(x: real, y: real, vx: real, vy: real, life: nat)

  function Moved(p: Particle): Particle {
    Particle(p.x + p.vx, p.y + p.vy, p.vx, p.vy + CONFETTI_GRAVITY, if p.life > 0 then p.life - 1 else 0)
  }

  predicate Stays(p: Particle, w: nat, h: nat) {
    p.life > 0 && 0.0 <= p.x < w as real && 0.0 <= p.y < h as real + 4.0
  }

  ghost function Stepped(ps: seq<Particle>, w: nat, h: nat): seq<Particle> {
    if ps == [] then []
    else
      var last := Moved(ps[|ps| - 1]);
      Stepped(ps[..|ps| - 1], w, h) + if Stays(last, w, h) then [last] else []
  }

  class ConfettiState {
    var particles: seq<Particle>
    const viewportW: nat
    const viewportH: nat

    constructor (particles: seq<Particle>, w: nat, h: nat)
      ensures this.particles == particles && viewportW == w && viewportH == h
    {
      this.particles, viewportW, viewportH := particles, w, h;
    }

    method Step()
      modifies this
      ensures particles == Stepped(old(particles), viewportW, viewportH)
    {
      var kept := [];
      for i := 0 to |particles|
        invariant particles == old(particles)
        invariant kept == Stepped(particles[..i], viewportW, viewportH)
      {
        assert particles[..i + 1][..i] == particles[..i];
        var p := Moved(particles[i]);
        if Stays(p, viewportW, viewportH) {
          kept := kept + [p];
        }
      }
      assert particles[..|particles|] == particles;
      particles := kept;
    }
  }

  ghost function AfterSteps(ps: seq<Particle>, w: nat, h: nat, n: nat): seq<Particle> {
    if n == 0 then ps else Stepped(AfterSteps(ps, w, h, n - 1), w, h)
  }

  lemma {:induction false} StepAges(ps: seq<Particle>, w: nat, h: nat, life: nat)
    requires forall p :: p in ps ==> p.life <= life + 1
    ensures forall p :: p in Stepped(ps, w, h) ==> 0 < p.life <= life
    ensures life == 0 ==> Stepped(ps, w, h) == []
  {
    if ps != [] {
      StepAges(ps[..|ps| - 1], w, h, life);
      assert ps[|ps| - 1] in ps;
    }
  }

  /** Wherever its particles fly, a burst is finished after at most 120 steps. */
  lemma {:induction false} BurstEnds(ps: seq<Particle>, w: nat, h: nat, n: nat)
    requires forall p :: p in ps ==> p.life <= 120
    ensures n < 120 ==> forall p :: p in AfterSteps(ps, w, h, n) ==> p.life <= 120 - n
    ensures n >= 120 ==> AfterSteps(ps, w, h, n) == []
  {
    hide Stepped;
    if n > 0 {
      BurstEnds(ps, w, h, n - 1);
      var before := AfterSteps(ps, w, h, n - 1);
      StepAges(before, w, h, if n < CONFETTI_INITIAL_LIFE then CONFETTI_INITIAL_LIFE - n else 0);
    }
  }

  // ----- The constants of the effects -----

  /** The first value of the generator seeded with one. */
  lemma FirstValue()
    ensures Mix(1) == 0x40822041
  {
  }

  /** A particle moves by its velocity, falls, and loses one of its steps. */
  lemma MovedIs(p: Particle)
    ensures Moved(p).x == p.x + p.vx && Moved(p).y == p.y + p.vy
    ensures Moved(p).vx == p.vx && Moved(p).vy - p.vy == 0.03
    ensures p.life > 0 ==> Moved(p).life == p.life - 1
    ensures p.life == 0 ==> Moved(p).life == 0
  {
  }

  /** It stays while it lives, inside the width of the viewport and at most four rows below it. */
  lemma StaysIff(p: Particle, w: nat, h: nat)
    ensures !Stays(p, w, h) <==> p.life == 0 || p.x < 0.0 || p.x >= w as real || p.y < 0.0 || p.y - 4.0 >= h as real
  {
  }
}
