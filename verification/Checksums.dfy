/**
  Message folding for any state, byte and step function: what a checksum needs
  of its step so that short differences between messages stay visible.
 */
module Folding {

  function Iter<T>(f: T -> T, x: T, n: nat): T
    decreases n
  {
    if n == 0 then x else f(Iter(f, x, n - 1))
  }

  ghost predicate Injective<T(!new)>(f: T -> T) {
    forall x, y :: f(x) == f(y) ==> x == y
  }

  ghost predicate Linear<T(!new)>(f: T -> T, op: (T, T) -> T) {
    forall x, y :: f(op(x, y)) == op(f(x), f(y))
  }

  lemma {:induction false} IterInjective<T(!new)>(f: T -> T, n: nat)
    requires Injective(f)
    ensures forall x, y :: Iter(f, x, n) == Iter(f, y, n) ==> x == y
  {
    if n > 0 {
      IterInjective(f, n - 1);
      forall x, y | Iter(f, x, n) == Iter(f, y, n) ensures x == y {
        assert f(Iter(f, x, n - 1)) == f(Iter(f, y, n - 1));
      }
    }
  }

  lemma {:induction false} IterLinear<T(!new)>(f: T -> T, op: (T, T) -> T, x: T, y: T, n: nat)
    requires Linear(f, op)
    ensures Iter(f, op(x, y), n) == op(Iter(f, x, n), Iter(f, y, n))
  {
    if n > 0 {
      IterLinear(f, op, x, y, n - 1);
      assert f(op(Iter(f, x, n - 1), Iter(f, y, n - 1))) == op(f(Iter(f, x, n - 1)), f(Iter(f, y, n - 1)));
    }
  }

  lemma {:induction false} IterShiftIn<T>(f: T -> T, x: T, n: nat)
    ensures Iter(f, f(x), n) == Iter(f, x, n + 1)
  {
    if n > 0 {
      IterShiftIn(f, x, n - 1);
    }
  }

  /** The state after a message, byte by byte. */
  function Fold<S, B>(step: (S, B) -> S, s: S, msg: seq<B>): S
    decreases |msg|
  {
    if msg == [] then s else Fold(step, step(s, msg[0]), msg[1..])
  }

  lemma {:induction false} FoldAppend<S, B>(step: (S, B) -> S, s: S, a: seq<B>, b: seq<B>)
    ensures Fold(step, s, a + b) == Fold(step, Fold(step, s, a), b)
    decreases |a|
  {
    if a == [] {
      assert a + b == b;
    } else {
      assert (a + b)[1..] == a[1..] + b;
      FoldAppend(step, step(s, a[0]), a[1..], b);
    }
  }

  /** One more byte at the end of a prefix: the form a loop over the message needs. */
  lemma {:induction false} FoldNext<S, B>(step: (S, B) -> S, s: S, msg: seq<B>, k: nat)
    requires k < |msg|
    ensures Fold(step, s, msg[..k + 1]) == step(Fold(step, s, msg[..k]), msg[k])
  {
    assert msg[..k] + [msg[k]] == msg[..k + 1];
    FoldAppend(step, s, msg[..k], [msg[k]]);
    assert [msg[k]][1..] == [];
  }

  ghost predicate StepInjective<S(!new), B(!new)>(step: (S, B) -> S) {
    forall s, t, b :: step(s, b) == step(t, b) ==> s == t
  }

  /** A message cannot hide a difference in the state before it. */
  lemma {:induction false} FoldInjective<S(!new), B(!new)>(step: (S, B) -> S, s: S, t: S, msg: seq<B>)
    requires StepInjective(step) && Fold(step, s, msg) == Fold(step, t, msg)
    ensures s == t
    decreases |msg|
  {
    if msg != [] {
      FoldInjective(step, step(s, msg[0]), step(t, msg[0]), msg[1..]);
    }
  }

  /** If a step function separates any two different windows of `n` bytes, then
      messages that differ only inside such a window end in different states. */
  lemma {:induction false} WindowDetected<S(!new), B(!new)>(step: (S, B) -> S, s: S, a: seq<B>, b: seq<B>, k: nat, n: nat)
    requires StepInjective(step)
    requires forall t, w: seq<B>, w': seq<B> ::
      |w| == n && |w'| == n && Fold(step, t, w) == Fold(step, t, w') ==> w == w'
    requires |a| == |b| && k + n <= |a| && a[..k] == b[..k] && a[k + n..] == b[k + n..] && a != b
    ensures Fold(step, s, a) != Fold(step, s, b)
  {
    var pre, w, w', post := a[..k], a[k..k + n], b[k..k + n], a[k + n..];
    assert a == pre + (w + post) && b == pre + (w' + post);
    FoldAppend(step, s, pre, w + post);
    FoldAppend(step, s, pre, w' + post);
    var t := Fold(step, s, pre);
    FoldAppend(step, t, w, post);
    FoldAppend(step, t, w', post);
    if Fold(step, s, a) == Fold(step, s, b) {
      FoldInjective(step, Fold(step, t, w), Fold(step, t, w'), post);
    }
  }

  /** A shift register of `width` bytes: a byte enters by `mix`ing its embedding
      into the state, then the register turns; `up` makes room for one byte below,
      and `fits(p, n)` says that p occupies at most n bytes. */
  datatype Register<!S(!new), !B> = Register(
    mix: (S, S) -> S, zero: S, embed: B -> S, up: S -> S, turn: S -> S, fits: (S, nat) -> bool, width: nat)

  function Step<S(!new), B>(r: Register<S, B>): (S, B) -> S {
    (s: S, b: B) => r.turn(r.mix(s, r.embed(b)))
  }

  // What a register has to satisfy, one instance at a time: the quantifiers below fire
  // only where a proof names the instance.

  ghost predicate Associates<S(!new), B(!new)>(r: Register<S, B>, x: S, y: S, z: S) {
    r.mix(x, r.mix(y, z)) == r.mix(r.mix(x, y), z)
  }

  ghost predicate Neutral<S(!new), B(!new)>(r: Register<S, B>, x: S) {
    r.mix(x, r.zero) == x
  }

  ghost predicate Cancels<S(!new), B(!new)>(r: Register<S, B>, x: S, y: S, z: S) {
    (r.mix(z, x) == r.mix(z, y) ==> x == y) && (r.mix(x, z) == r.mix(y, z) ==> x == y)
  }

  ghost predicate Mixes<S(!new), B(!new)>(r: Register<S, B>) {
    && (forall x, y, z {:trigger Associates(r, x, y, z)} :: Associates(r, x, y, z))
    && (forall x {:trigger Neutral(r, x)} :: Neutral(r, x))
    && (forall x, y, z {:trigger Cancels(r, x, y, z)} :: Cancels(r, x, y, z))
  }

  ghost predicate Grows<S(!new), B(!new)>(r: Register<S, B>, b: B, p: S, n: nat) {
    n < r.width && r.fits(p, n) ==> r.fits(r.mix(r.embed(b), r.up(p)), n + 1)
  }

  ghost predicate Unpacks<S(!new), B(!new)>(r: Register<S, B>, b: B, p: S, c: B, q: S, n: nat) {
    (n < r.width && r.fits(p, n) && r.fits(q, n) && r.mix(r.embed(b), r.up(p)) == r.mix(r.embed(c), r.up(q))) ==> b == c && p == q
  }

  ghost predicate Packs<S(!new), B(!new)>(r: Register<S, B>) {
    && r.fits(r.zero, 0)
    && (forall b, p, n: nat {:trigger Grows(r, b, p, n)} :: Grows(r, b, p, n))
    && (forall b, p, c, q, n: nat {:trigger Unpacks(r, b, p, c, q, n)} :: Unpacks(r, b, p, c, q, n))
  }

  /** Turning lets what waits above the low byte fall into place unchanged. */
  ghost predicate Falls<S(!new), B(!new)>(r: Register<S, B>, x: S, p: S, n: nat) {
    n < r.width && r.fits(p, n) ==> r.turn(r.mix(x, r.up(p))) == r.mix(r.turn(x), p)
  }

  ghost predicate Turns<S(!new), B(!new)>(r: Register<S, B>) {
    Injective(r.turn) && forall x, p, n: nat {:trigger Falls(r, x, p, n)} :: Falls(r, x, p, n)
  }

  /** A window packed into one state, first byte lowest. */
  function Packed<S(!new), B>(r: Register<S, B>, w: seq<B>): S
    decreases |w|
  {
    if w == [] then r.zero else r.mix(r.embed(w[0]), r.up(Packed(r, w[1..])))
  }

  lemma {:induction false} PackedFits<S(!new), B(!new)>(r: Register<S, B>, w: seq<B>)
    requires Packs(r) && |w| <= r.width
    ensures r.fits(Packed(r, w), |w|)
    decreases |w|
  {
    if w != [] {
      PackedFits(r, w[1..]);
      assert Grows(r, w[0], Packed(r, w[1..]), |w| - 1);
    }
  }

  lemma {:induction false} PackedInjective<S(!new), B(!new)>(r: Register<S, B>, w: seq<B>, w': seq<B>)
    requires Packs(r) && |w| == |w'| <= r.width && Packed(r, w) == Packed(r, w')
    ensures w == w'
    decreases |w|
  {
    if w != [] {
      PackedFits(r, w[1..]);
      PackedFits(r, w'[1..]);
      assert Unpacks(r, w[0], Packed(r, w[1..]), w'[0], Packed(r, w'[1..]), |w| - 1);
      PackedInjective(r, w[1..], w'[1..]);
      assert w == [w[0]] + w[1..] && w' == [w'[0]] + w'[1..];
    }
  }

  /** The first byte of a window: mixing the packed window and turning once is absorbing
      the byte and mixing the packed rest. */
  lemma {:induction false} FirstByte<S(!new), B(!new)>(r: Register<S, B>, s: S, b: B, p: S, n: nat)
    requires Mixes(r) && Turns(r) && n < r.width && r.fits(p, n)
    ensures r.turn(r.mix(s, r.mix(r.embed(b), r.up(p)))) == r.mix(r.turn(r.mix(s, r.embed(b))), p)
  {
    assert Associates(r, s, r.embed(b), r.up(p));
    assert Falls(r, r.mix(s, r.embed(b)), p, n);
  }

  /** A window that fits the register acts like one mix with the packed window,
      followed by the turns of all its bytes. */
  lemma {:induction false} WindowIsPacked<S(!new), B(!new)>(r: Register<S, B>, s: S, w: seq<B>)
    requires Mixes(r) && Packs(r) && Turns(r) && |w| <= r.width
    ensures Fold(Step(r), s, w) == Iter(r.turn, r.mix(s, Packed(r, w)), |w|)
    decreases |w|
  {
    if w == [] {
      assert Neutral(r, s);
    } else {
      var b, rest := w[0], w[1..];
      var p, n := Packed(r, rest), |rest|;
      PackedFits(r, rest);
      var s' := Step(r)(s, b);
      WindowIsPacked(r, s', rest);
      FirstByte(r, s, b, p, n);
      IterShiftIn(r.turn, r.mix(s, Packed(r, w)), n);
      FoldOne(Step(r), s, w);
    }
  }

  lemma {:induction false} FoldOne<S, B>(step: (S, B) -> S, s: S, w: seq<B>)
    requires w != []
    ensures Fold(step, s, w) == Fold(step, step(s, w[0]), w[1..])
  {
  }

  lemma {:induction false} WindowsDiffer<S(!new), B(!new)>(r: Register<S, B>, s: S, w: seq<B>, w': seq<B>)
    requires Mixes(r) && Packs(r) && Turns(r) && |w| == |w'| <= r.width
    requires Fold(Step(r), s, w) == Fold(Step(r), s, w')
    ensures w == w'
  {
    WindowIsPacked(r, s, w);
    WindowIsPacked(r, s, w');
    IterInjective(r.turn, |w|);
    assert r.mix(s, Packed(r, w)) == r.mix(s, Packed(r, w'));
    assert Cancels(r, Packed(r, w), Packed(r, w'), s);
    PackedInjective(r, w, w');
  }

  /** Any burst that fits the register is detected. */
  lemma {:induction false} BurstDetected<S(!new), B(!new)>(r: Register<S, B>, s: S, a: seq<B>, b: seq<B>, k: nat, n: nat)
    requires Mixes(r) && Packs(r) && Turns(r)
    requires n <= r.width && |a| == |b| && k + n <= |a|
    requires a[..k] == b[..k] && a[k + n..] == b[k + n..] && a != b
    ensures Fold(Step(r), s, a) != Fold(Step(r), s, b)
  {
    var step := Step(r);
    forall s, t, b | step(s, b) == step(t, b) ensures s == t {
      assert r.mix(s, r.embed(b)) == r.mix(t, r.embed(b));
      assert Cancels(r, s, t, r.embed(b));
    }
    forall t, w: seq<B>, w': seq<B> | |w| == n && |w'| == n && Fold(step, t, w) == Fold(step, t, w') ensures w == w' {
      WindowsDiffer(r, t, w, w');
    }
    WindowDetected(step, s, a, b, k, n);
  }
}

/**
  crc32_ansi (the CRC of section 8 of RFC 1952) and fnv64_1a. Every step of both
  is invertible, which is what makes short differences visible in the checksum.
 */
module Checksums {
  import opened Folding

  // CRC-32.

  const ONES: bv32 := 0xFFFFFFFF

  /** One shift step. */
  function Shift(crc: bv32): bv32 {
    if crc & 1 == 1 then (crc >> 1) ^ 0xEDB88320 else crc >> 1
  }

  /** The shift step can be undone: the top bit tells which branch was taken. */
  function Unshift(crc: bv32): bv32 {
    if crc & 0x80000000 != 0 then ((crc ^ 0xEDB88320) << 1) | 1 else crc << 1
  }

  function Xor(x: bv32, y: bv32): bv32 {
    x ^ y
  }

  function Widen(b: bv8): bv32 {
    b as bv32
  }

  function Up(x: bv32): bv32 {
    x << 8
  }

  function Fits(x: bv32, n: nat): bool {
    if n == 0 then x == 0
    else if n == 1 then x < 0x100
    else if n == 2 then x < 0x10000
    else n > 3 || x < 0x1000000
  }

  /** Eight shifts, the work done per message byte. */
  function Shift8(crc: bv32): bv32 {
    Iter(Shift, crc, 8)
  }

  /** One message byte: mixed into the low bits, then eight shifts. */
  function Absorb(crc: bv32, b: bv8): bv32 {
    Shift8(Xor(crc, Widen(b)))
  }

  function Crc32(msg: seq<bv8>): bv32 {
    Xor(Fold(Absorb, ONES, msg), ONES)
  }

  lemma {:induction false} ShiftBack(x: bv32)
    ensures Unshift(Shift(x)) == x
  {
  }

  lemma {:induction false} ShiftInjective()
    ensures Injective(Shift)
  {
    forall x, y | Shift(x) == Shift(y) ensures x == y {
      ShiftBack(x);
      ShiftBack(y);
    }
  }

  lemma {:induction false} XorParts(x: bv32, y: bv32)
    ensures (x ^ y) >> 1 == (x >> 1) ^ (y >> 1)
    ensures (x ^ y) & 1 == (x & 1) ^ (y & 1)
    ensures x & 1 == 0 || x & 1 == 1
    ensures y & 1 == 0 || y & 1 == 1
  {
  }

  lemma {:induction false} XorAround(x: bv32, y: bv32, p: bv32)
    ensures (x ^ p) ^ (y ^ p) == x ^ y
    ensures (x ^ p) ^ y == (x ^ y) ^ p
    ensures x ^ (y ^ p) == (x ^ y) ^ p
  {
  }

  lemma {:induction false} ShiftOfXor(x: bv32, y: bv32)
    ensures Shift(Xor(x, y)) == Xor(Shift(x), Shift(y))
  {
    XorParts(x, y);
    XorAround(x >> 1, y >> 1, 0xEDB88320);
  }

  /** Shifting is linear over exclusive or. */
  lemma {:induction false} ShiftLinear()
    ensures Linear(Shift, Xor)
  {
    forall x, y ensures Shift(Xor(x, y)) == Xor(Shift(x), Shift(y)) {
      ShiftOfXor(x, y);
    }
  }

  lemma {:induction false} IterEight<T>(f: T -> T, x: T)
    ensures Iter(f, x, 8) == f(f(f(f(f(f(f(f(x))))))))
  {
    assert Iter(f, x, 4) == f(f(f(f(x))));
  }

  lemma {:induction false} EightEvenShifts(p: bv32)
    requires p < 0x1000000
    ensures Shift(Shift(Shift(Shift(Shift(Shift(Shift(Shift(p << 8)))))))) == p
  {
  }

  /** What waits above the low byte is just moved down. */
  lemma {:induction false} Shift8Moves(p: bv32)
    requires p < 0x1000000
    ensures Shift8(Up(p)) == p
  {
    EightEvenShifts(p);
    IterEight(Shift, Up(p));
  }

  lemma {:induction false} Shift8Ahead(x: bv32, p: bv32)
    requires p < 0x1000000
    ensures Shift8(Xor(x, Up(p))) == Xor(Shift8(x), p)
  {
    Shift8Moves(p);
    ShiftLinear();
    IterLinear(Shift, Xor, x, Up(p), 8);
  }

  lemma {:induction false} XorMixes(x: bv32, y: bv32, z: bv32)
    ensures Xor(x, Xor(y, z)) == Xor(Xor(x, y), z)
    ensures Xor(x, 0) == x
    ensures Xor(z, x) == Xor(z, y) ==> x == y
    ensures Xor(x, z) == Xor(y, z) ==> x == y
  {
  }

  lemma {:induction false} PackFits(b: bv8, p: bv32, n: nat)
    requires n < 4 && Fits(p, n)
    ensures Fits(Xor(Widen(b), Up(p)), n + 1)
  {
  }

  lemma {:induction false} PackInjective(b: bv8, p: bv32, c: bv8, q: bv32)
    requires p < 0x1000000 && q < 0x1000000
    requires Xor(Widen(b), Up(p)) == Xor(Widen(c), Up(q))
    ensures b == c && p == q
  {
  }

  lemma {:induction false} FitsBound(p: bv32, n: nat)
    requires n < 4 && Fits(p, n)
    ensures p < 0x1000000
  {
  }

  function CrcRegister(): Register<bv32, bv8> {
    Register(Xor, 0, Widen, Up, Shift8, Fits, 4)
  }

  lemma {:induction false} CrcMixes()
    ensures Mixes(CrcRegister())
  {
    var r := CrcRegister();
    forall x, y, z ensures Associates(r, x, y, z) && Cancels(r, x, y, z) {
      XorMixes(x, y, z);
    }
    forall x ensures Neutral(r, x) {
      XorMixes(x, x, x);
    }
  }

  lemma {:induction false} CrcPacks()
    ensures Packs(CrcRegister())
  {
    var r := CrcRegister();
    forall b, p, n: nat ensures Grows(r, b, p, n) {
      if n < 4 && Fits(p, n) {
        PackFits(b, p, n);
      }
    }
    forall b, p, c, q, n: nat ensures Unpacks(r, b, p, c, q, n) {
      if n < 4 && Fits(p, n) && Fits(q, n) && Xor(Widen(b), Up(p)) == Xor(Widen(c), Up(q)) {
        FitsBound(p, n);
        FitsBound(q, n);
        PackInjective(b, p, c, q);
      }
    }
  }

  lemma {:induction false} CrcTurns()
    ensures Turns(CrcRegister())
  {
    var r := CrcRegister();
    ShiftInjective();
    IterInjective(Shift, 8);
    forall x, y | Shift8(x) == Shift8(y) ensures x == y {
    }
    forall x, p, n: nat ensures Falls(r, x, p, n) {
      if n < 4 && Fits(p, n) {
        FitsBound(p, n);
        Shift8Ahead(x, p);
      }
    }
  }

  /** crc32_ansi as the kernel runs it. */
  method ComputeCrc32(msg: seq<bv8>) returns (r: bv32)
    ensures r == Crc32(msg)
  {
    var crc := ONES;
    var k := 0;
    while k < |msg|
      invariant 0 <= k <= |msg|
      invariant crc == Fold(Absorb, ONES, msg[..k])
    {
      FoldNext(Absorb, ONES, msg, k);
      crc := crc ^ (msg[k] as bv32);
      crc := ShiftOut(crc);
      k := k + 1;
    }
    assert msg[..k] == msg;
    r := crc ^ ONES;
  }

  /** The inner loop: eight conditional shifts. */
  method ShiftOut(start: bv32) returns (crc: bv32)
    ensures crc == Shift8(start)
  {
    crc := start;
    var i := 0;
    while i < 8
      invariant 0 <= i <= 8
      invariant crc == Iter(Shift, start, i)
    {
      if crc & 1 == 1 {
        crc := (crc >> 1) ^ 0xEDB88320;
      } else {
        crc := crc >> 1;
      }
      i := i + 1;
    }
  }

  lemma {:induction false} CrcStep()
    ensures forall s, msg :: Fold(Step(CrcRegister()), s, msg) == Fold(Absorb, s, msg)
  {
    forall s, msg ensures Fold(Step(CrcRegister()), s, msg) == Fold(Absorb, s, msg) {
      SameFold(Step(CrcRegister()), Absorb, s, msg);
    }
  }

  lemma {:induction false} SameFold<S(!new), B(!new)>(f: (S, B) -> S, g: (S, B) -> S, s: S, msg: seq<B>)
    requires forall t, b :: f(t, b) == g(t, b)
    ensures Fold(f, s, msg) == Fold(g, s, msg)
    decreases |msg|
  {
    if msg != [] {
      SameFold(f, g, f(s, msg[0]), msg[1..]);
    }
  }

  /** Messages of equal length that differ only inside one window of at most four
      consecutive bytes have different checksums. */
  lemma {:induction false} Crc32DetectsBurst(a: seq<bv8>, b: seq<bv8>, k: nat, n: nat)
    requires |a| == |b| && n <= 4 && k + n <= |a|
    requires a[..k] == b[..k] && a[k + n..] == b[k + n..] && a != b
    ensures Crc32(a) != Crc32(b)
  {
    CrcMixes();
    CrcPacks();
    CrcTurns();
    BurstDetected(CrcRegister(), ONES, a, b, k, n);
    CrcStep();
    XorMixes(Fold(Absorb, ONES, a), Fold(Absorb, ONES, b), ONES);
  }

  // FNV-1a. A uint64_t is a number below 2^64, and its product wraps around.

  const WORD: nat := 0x1_0000_0000_0000_0000
  type Word = h: nat | h < WORD
  type Octet = b: nat | b < 256
  const FNV_BASIS: Word := 0xcbf29ce484222325

  /** Exclusive or of two numbers, bit by bit. */
  function BitXor(x: nat, y: nat): nat
    decreases x + y
  {
    if x == 0 && y == 0 then 0 else (x + y) % 2 + 2 * BitXor(x / 2, y / 2)
  }

  lemma {:induction false} BitXorBound(x: nat, y: nat, n: nat)
    requires x < Pow2(n) && y < Pow2(n)
    ensures BitXor(x, y) < Pow2(n)
    decreases n
  {
    if n > 0 {
      BitXorBound(x / 2, y / 2, n - 1);
    }
  }

  function Pow2(n: nat): (r: nat)
    ensures r > 0
  {
    if n == 0 then 1 else 2 * Pow2(n - 1)
  }

  lemma {:induction false} Pow2Plus4(n: nat)
    ensures Pow2(n + 4) == 16 * Pow2(n)
  {
    assert Pow2(n + 2) == 4 * Pow2(n);
  }

  lemma {:induction false} Pow2Plus16(n: nat)
    ensures Pow2(n + 16) == 0x10000 * Pow2(n)
  {
    Pow2Plus4(n);
    Pow2Plus4(n + 4);
    Pow2Plus4(n + 8);
    Pow2Plus4(n + 12);
  }

  lemma {:induction false} WordIsPow2()
    ensures Pow2(64) == WORD
  {
    Pow2Plus16(0);
    Pow2Plus16(16);
    Pow2Plus16(32);
    Pow2Plus16(48);
  }

  lemma {:induction false} BitXorInjective(x: nat, y: nat, b: nat, c: nat)
    requires BitXor(x, b) == BitXor(y, c) && (x == y || b == c)
    ensures x == y && b == c
    decreases x + y + b + c
  {
    if x + y + b + c > 0 {
      BitXorHalves(x, b);
      BitXorHalves(y, c);
      SplitParity((x + b) % 2, BitXor(x / 2, b / 2), (y + c) % 2, BitXor(y / 2, c / 2));
      BitXorInjective(x / 2, y / 2, b / 2, c / 2);
      ParityCancels(x, y, b, c);
    }
  }

  lemma {:induction false} SplitParity(u: nat, v: nat, u': nat, v': nat)
    requires u < 2 && u' < 2 && u + 2 * v == u' + 2 * v'
    ensures u == u' && v == v'
  {
  }

  lemma {:induction false} ParityCancels(x: nat, y: nat, b: nat, c: nat)
    requires (x + b) % 2 == (y + c) % 2 && x / 2 == y / 2 && b / 2 == c / 2 && (x == y || b == c)
    ensures x == y && b == c
  {
  }

  lemma {:induction false} BitXorHalves(x: nat, y: nat)
    ensures BitXor(x, y) == (x + y) % 2 + 2 * BitXor(x / 2, y / 2)
  {
  }

  function FnvMix(h: Word, b: Octet): Word {
    WordIsPow2();
    BitXorBound(h, b, 64);
    BitXor(h, b)
  }

  function FnvTimes(h: Word): Word {
    (h * 0x100000001b3) % WORD
  }

  function FnvStep(h: Word, b: Octet): Word {
    FnvTimes(FnvMix(h, b))
  }

  function Fnv64(msg: seq<Octet>): Word {
    Fold(FnvStep, FNV_BASIS, msg)
  }

  /** fnv64_1a as the kernel runs it. */
  method ComputeFnv64(msg: seq<Octet>) returns (h: Word)
    ensures h == Fnv64(msg)
  {
    h := FNV_BASIS;
    var i := 0;
    while i < |msg|
      invariant 0 <= i <= |msg|
      invariant h == Fold(FnvStep, FNV_BASIS, msg[..i])
    {
      FoldNext(FnvStep, FNV_BASIS, msg, i);
      h := FnvMix(h, msg[i]);
      h := (h * 0x100000001b3) % WORD;
      i := i + 1;
    }
    assert msg[..i] == msg;
  }

  /** What mixing in a byte adds. */
  function Delta(h: Word, b: Octet): int {
    FnvMix(h, b) - h
  }

  /** It changes the low byte only, so it adds or takes away less than 256. */
  lemma {:induction false} MixIsSmall(x: nat, y: nat, n: nat)
    requires y < Pow2(n)
    ensures BitXor(x, y) < x + Pow2(n) && x < BitXor(x, y) + Pow2(n)
    decreases n
  {
    if n == 0 {
      XorZero(x);
    } else {
      MixIsSmall(x / 2, y / 2, n - 1);
      BitXorHalves(x, y);
    }
  }

  lemma {:induction false} XorZero(x: nat)
    ensures BitXor(x, 0) == x
  {
    if x > 0 {
      XorZero(x / 2);
    }
  }

  function Prime(n: nat): nat {
    if n == 0 then 1 else Prime(n - 1) * 0x100000001b3
  }

  /** The bytes' contributions, each times as many powers of the prime as bytes follow, and
      one more. */
  function Contributions(msg: seq<Octet>): int
    decreases |msg|
  {
    if msg == [] then 0
    else
      var n := |msg| - 1;
      (Contributions(msg[..n]) + Delta(Fnv64(msg[..n]), msg[n])) * 0x100000001b3
  }

  /** The hash is the offset basis times a power of the prime plus what the bytes
      contribute, modulo 2^64. */
  lemma {:induction false} FnvIsSum(msg: seq<Octet>)
    ensures Fnv64(msg) == (0xcbf29ce484222325 * Prime(|msg|) + Contributions(msg)) % WORD
    decreases |msg|
  {
    if msg != [] {
      var n := |msg| - 1;
      var rest, b := msg[..n], msg[n];
      FnvIsSum(rest);
      FoldNext(FnvStep, FNV_BASIS, msg, n);
      assert msg[..n + 1] == msg;
      var h, total := Fnv64(rest), 0xcbf29ce484222325 * Prime(n) + Contributions(rest);
      TimesModulo(total, h, Delta(h, b));
      Distribute(0xcbf29ce484222325, Prime(n), Contributions(rest), Delta(h, b), 0x100000001b3);
    }
  }

  lemma {:induction false} Distribute(b: int, p: int, c: int, d: int, q: int)
    ensures b * (p * q) + (c + d) * q == (b * p + c + d) * q
  {
    assert b * (p * q) == b * p * q;
  }

  lemma {:induction false} TimesModulo(total: int, h: Word, d: int)
    requires h == total % WORD && 0 <= h + d
    ensures ((h + d) * 0x100000001b3) % WORD == ((total + d) * 0x100000001b3) % WORD
  {
    var q := total / WORD;
    assert total == q * WORD + h;
    Multiples((h + d) * 0x100000001b3, q * 0x100000001b3);
    assert (total + d) * 0x100000001b3 == (h + d) * 0x100000001b3 + q * 0x100000001b3 * WORD;
  }

  lemma {:induction false} Multiples(x: int, k: int)
    ensures (x + k * WORD) % WORD == x % WORD
  {
    var a, r := x / WORD, x % WORD;
    assert x + k * WORD == (a + k) * WORD + r;
  }

  /** The prime is odd, so it has an inverse modulo 2^64 and multiplying by it
      loses nothing. */
  lemma {:induction false} FnvTimesInjective(x: Word, y: Word)
    requires FnvTimes(x) == FnvTimes(y)
    ensures x == y
  {
    var d := x - y;
    var k := (x * 0x100000001b3) / WORD - (y * 0x100000001b3) / WORD;
    assert d * 0x100000001b3 == k * WORD;
    var c := (0x100000001b3 * 0xce965057aff6957b) / WORD;
    assert 0x100000001b3 * 0xce965057aff6957b == 1 + c * WORD;
    var e := k * 0xce965057aff6957b - d * c;
    assert d == WORD * e;
  }

  lemma {:induction false} FnvStepInjective(x: Word, y: Word, b: Octet, c: Octet)
    requires FnvStep(x, b) == FnvStep(y, c) && (x == y || b == c)
    ensures x == y && b == c
  {
    FnvTimesInjective(FnvMix(x, b), FnvMix(y, c));
    BitXorInjective(x, y, b, c);
  }

  ghost predicate ByteInjective<S(!new), B(!new)>(step: (S, B) -> S) {
    forall s, b, c :: step(s, b) == step(s, c) ==> b == c
  }

  lemma {:induction false} FnvInjective()
    ensures StepInjective(FnvStep) && ByteInjective(FnvStep)
  {
    forall s, t, b | FnvStep(s, b) == FnvStep(t, b) ensures s == t {
      FnvStepInjective(s, t, b, b);
    }
    forall s, b, c | FnvStep(s, b) == FnvStep(s, c) ensures b == c {
      FnvStepInjective(s, s, b, c);
    }
  }

  lemma {:induction false} ByteDetected<S(!new), B(!new)>(step: (S, B) -> S, s: S, a: seq<B>, b: seq<B>, k: nat)
    requires StepInjective(step) && ByteInjective(step)
    requires |a| == |b| && k < |a| && a[..k] == b[..k] && a[k + 1..] == b[k + 1..] && a[k] != b[k]
    ensures Fold(step, s, a) != Fold(step, s, b)
  {
    forall t, w: seq<B>, w': seq<B> | |w| == 1 && |w'| == 1 && Fold(step, t, w) == Fold(step, t, w') ensures w == w' {
      assert w == [w[0]] && w' == [w'[0]];
      assert Fold(step, t, w) == step(t, w[0]) && Fold(step, t, w') == step(t, w'[0]);
    }
    WindowDetected(step, s, a, b, k, 1);
  }

  /** Messages that differ in exactly one byte have different hashes. */
  lemma {:induction false} Fnv64DetectsByte(a: seq<Octet>, b: seq<Octet>, k: nat)
    requires |a| == |b| && k < |a| && a[..k] == b[..k] && a[k + 1..] == b[k + 1..] && a[k] != b[k]
    ensures Fnv64(a) != Fnv64(b)
  {
    FnvInjective();
    ByteDetected(FnvStep, FNV_BASIS, a, b, k);
  }
}
