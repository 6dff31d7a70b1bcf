/**
 * The `/random` character device: an 8-bit Fibonacci linear feedback shift
 * register with taps 0, 2, 3 and 4 (the polynomial x^8 + x^6 + x^5 + x^4 + 1),
 * one shared seed, a write that sets the seed from exactly one byte and a read
 * that steps the register once per byte.
 */
module Random {
  import opened Opt

  /** `lfsr_char`: one step of the register. */
  function Lfsr(lfsr: bv8): bv8 {
    var bit := ((lfsr >> 0) ^ (lfsr >> 2) ^ (lfsr >> 3) ^ (lfsr >> 4)) & 0x01;
    (lfsr >> 1) | (bit << 7)
  }

  /** The register stepped `k` times from `seed`. */
  function Iter(seed: bv8, k: nat): bv8 {
    if k == 0 then seed else Lfsr(Iter(seed, k - 1))
  }

  /** The first `n` bytes a reader sees from `seed`: byte `k` is the seed stepped `k + 1` times. */
  function Stream(seed: bv8, n: nat): seq<bv8> {
    seq(n, k requires 0 <= k < n => Iter(seed, k + 1))
  }

  /** The seed shared by all readers and writers of the device (`rand.seed`). */
  class RandomDevice {
    var seed: bv8

    /** `randominit`: the seed starts at 0x2A. */
    constructor Init()
      ensures seed == 0x2A
    {
      seed := 0x2A;
    }

    /**
     * `randomwrite`: `copied` is the byte `either_copyin` fetched from the
     * caller, or None when that copy failed. Only a write of exactly one byte
     * is accepted.
     */
    method Write(n: int, copied: Option<bv8>) returns (r: int)
      modifies this
      ensures n != 1 ==> r == -1 && seed == old(seed)
      ensures n == 1 && copied.None? ==> r == -1 && seed == old(seed)
      ensures n == 1 && copied.Some? ==> r == 1 && seed == copied.value
    {
      if n != 1 {
        return -1;
      }
      if copied.None? {
        return -1;
      }
      seed := copied.value;
      r := 1;
    }

    /**
     * `randomread`: `copyOk(k)` says whether `either_copyout` of the `k`-th
     * byte to the caller's buffer succeeds. Returns the count `w` of bytes
     * delivered and the bytes themselves. The seed is stepped once for every
     * byte attempted, including the one whose copy failed.
     */
    method Read(n: int, copyOk: nat -> bool) returns (w: nat, out: seq<bv8>)
      modifies this
      ensures w <= (if n < 0 then 0 else n)
      ensures forall k :: 0 <= k < w ==> copyOk(k)
      ensures w < n ==> !copyOk(w)
      ensures out == Stream(old(seed), w)
      ensures seed == Iter(old(seed), if w < n then w + 1 else w)
    {
      var left := n;
      w := 0;
      out := [];
      while left > 0
        invariant w + left == n && (left < 0 ==> w == 0)
        invariant forall k :: 0 <= k < w ==> copyOk(k)
        invariant out == Stream(old(seed), w)
        invariant seed == Iter(old(seed), w)
        decreases left
      {
        seed := Lfsr(seed);
        if !copyOk(w) {
          return;
        }
        out := out + [seed];
        left := left - 1;
        w := w + 1;
      }
    }
  }

  /** Stepping `a` times and then `b` times is stepping `a + b` times. */
  lemma {:induction false} IterAdd(seed: bv8, a: nat, b: nat)
    ensures Iter(seed, a + b) == Iter(Iter(seed, a), b)
  {
    if b > 0 {
      IterAdd(seed, a, b - 1);
    }
  }

  /*
   * The orbit of 0x01, established in segments of 30 steps (each segment
   * starts from the value the previous one reached).
   */
  lemma OrbitUpTo30()
    ensures Iter(0x01, 30) == 0x4C
  {
    assert Iter(0x01, 5) == 0x88;
    assert Iter(0x01, 10) == 0x1C;
    assert Iter(0x01, 15) == 0x48;
    assert Iter(0x01, 20) == 0x3A;
    assert Iter(0x01, 25) == 0x81;
    assert Iter(0x01, 30) == 0x4C;
  }

  lemma OrbitUpTo60()
    ensures Iter(0x01, 60) == 0x5B
  {
    OrbitUpTo30();
    assert Iter(0x01, 35) == 0x92;
    assert Iter(0x01, 40) == 0xEC;
    assert Iter(0x01, 45) == 0x27;
    assert Iter(0x01, 50) == 0x41;
    assert Iter(0x01, 55) == 0x6A;
    assert Iter(0x01, 60) == 0x5B;
  }

  lemma OrbitUpTo90()
    ensures Iter(0x01, 90) == 0xD7
  {
    OrbitUpTo60();
    assert Iter(0x01, 65) == 0x9A;
    assert Iter(0x01, 70) == 0x34;
    assert Iter(0x01, 75) == 0xE1;
    assert Iter(0x01, 80) == 0xDF;
    assert Iter(0x01, 85) == 0xF6;
    assert Iter(0x01, 90) == 0xD7;
  }

  lemma OrbitUpTo120()
    ensures Iter(0x01, 120) == 0x39
  {
    OrbitUpTo90();
    assert Iter(0x01, 95) == 0x2E;
    assert Iter(0x01, 100) == 0x11;
    assert Iter(0x01, 105) == 0xB0;
    assert Iter(0x01, 110) == 0x8D;
    assert Iter(0x01, 115) == 0x3C;
    assert Iter(0x01, 120) == 0x39;
  }

  lemma OrbitUpTo150()
    ensures Iter(0x01, 150) == 0x95
    ensures Iter(0x01, 149) == 0x2A
  {
    OrbitUpTo120();
    assert Iter(0x01, 125) == 0x19;
    assert Iter(0x01, 130) == 0x68;
    assert Iter(0x01, 135) == 0x4B;
    assert Iter(0x01, 140) == 0xA2;
    assert Iter(0x01, 145) == 0xA5;
    assert Iter(0x01, 149) == 0x2A;
    assert Iter(0x01, 150) == 0x95;
  }

  lemma OrbitUpTo180()
    ensures Iter(0x01, 180) == 0x32
  {
    OrbitUpTo150();
    assert Iter(0x01, 155) == 0xDC;
    assert Iter(0x01, 160) == 0x6E;
    assert Iter(0x01, 165) == 0xF3;
    assert Iter(0x01, 170) == 0xF7;
    assert Iter(0x01, 175) == 0x5F;
    assert Iter(0x01, 180) == 0x32;
  }

  lemma OrbitUpTo210()
    ensures Iter(0x01, 210) == 0xF5
  {
    OrbitUpTo180();
    assert Iter(0x01, 185) == 0x59;
    assert Iter(0x01, 190) == 0x8A;
    assert Iter(0x01, 195) == 0x0C;
    assert Iter(0x01, 200) == 0x70;
    assert Iter(0x01, 205) == 0xAB;
    assert Iter(0x01, 210) == 0xF5;
  }

  lemma OrbitUpTo240()
    ensures Iter(0x01, 240) == 0xE8
  {
    OrbitUpTo210();
    assert Iter(0x01, 215) == 0x4F;
    assert Iter(0x01, 220) == 0x0A;
    assert Iter(0x01, 225) == 0xC8;
    assert Iter(0x01, 230) == 0xFE;
    assert Iter(0x01, 235) == 0x0F;
    assert Iter(0x01, 240) == 0xE8;
  }

  lemma OrbitUpTo255()
    ensures Iter(0x01, 255) == 0x01
  {
    OrbitUpTo240();
    assert Iter(0x01, 245) == 0x8F;
    assert Iter(0x01, 250) == 0x2C;
    assert Iter(0x01, 255) == 0x01;
  }

  /**
   * The orbit of 0x01 returns to 0x01 after 255 steps and passes 0x2A on the
   * way (at step 149): the register has period 255 from both seeds that the
   * device's test writes.
   */
  lemma OrbitOfOne()
    ensures Iter(0x01, 255) == 0x01
    ensures Iter(0x01, 149) == 0x2A
  {
    OrbitUpTo150();
    OrbitUpTo255();
  }

  /** Period 255 from the seed 0x2A. */
  lemma PeriodFrom2A()
    ensures Iter(0x2A, 255) == 0x2A
  {
    OrbitOfOne();
    IterAdd(0x01, 149, 255);
    IterAdd(0x01, 255, 149);
  }

  /**
   * After writing seed 0x2A or 0x01, two successive reads of 255 bytes return
   * identical buffers, and the seed is back where it started.
   */
  lemma ReadsRepeat(seed: bv8)
    requires seed == 0x2A || seed == 0x01
    ensures Iter(seed, 255) == seed
    ensures Stream(Iter(seed, 255), 255) == Stream(seed, 255)
  {
    if seed == 0x2A {
      PeriodFrom2A();
    } else {
      OrbitOfOne();
    }
  }

  /** Any 255 consecutive bytes after the first 255 repeat them exactly. */
  lemma {:induction false} StreamPeriodic(seed: bv8, k: nat)
    requires seed == 0x2A || seed == 0x01
    ensures Iter(seed, k + 255) == Iter(seed, k)
  {
    ReadsRepeat(seed);
    IterAdd(seed, 255, k);
    IterAdd(seed, k, 255);
    assert Iter(seed, k + 255) == Iter(Iter(seed, 255), k);
  }
}
