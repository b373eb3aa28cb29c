/**
  Polynomials over the field of two elements, as the sets of the exponents that have
  coefficient 1, and divisibility by a generator g.
 */
module Polynomials {

  type Poly = set<nat>

  function Plus(p: Poly, q: Poly): (r: Poly)
    ensures forall e {:trigger e in r} :: e in r <==> ((e in p) != (e in q))
  {
    (p - q) + (q - p)
  }

  /** p times x^k. */
  function Raised(p: Poly, k: nat): (r: Poly)
    ensures forall e {:trigger e in r} :: e in r <==> e >= k && e - k in p
  {
    var r := set e | e in p :: e + k;
    assert forall e {:trigger e in r} :: e >= k && e - k in p ==> e in r by {
      forall e: nat | e >= k && e - k in p ensures e in r {
        var d := e - k;
        assert d in p && d + k == e;
      }
    }
    r
  }

  /** 1 + x + ... + x^(n-1). */
  function Below(n: nat): (r: Poly)
    ensures forall e :: e in r <==> 0 <= e < n
  {
    if n == 0 then {} else Below(n - 1) + {n - 1}
  }

  lemma {:induction false} PlusLaws(p: Poly, q: Poly, r: Poly)
    ensures Plus(Plus(p, q), r) == Plus(p, Plus(q, r)) && Plus(p, q) == Plus(q, p) && Plus(p, p) == {}
  {
  }

  lemma {:induction false} PlusNothing(p: Poly)
    ensures Plus(p, {}) == p && Plus({}, p) == p && Plus(p, p) == {}
  {
  }

  lemma {:induction false} RaisedNothing(p: Poly, k: nat)
    ensures Raised(p, 0) == p && Raised({}, k) == {}
  {
  }

  lemma {:induction false} RaisedPlus(p: Poly, q: Poly, k: nat)
    ensures Raised(Plus(p, q), k) == Plus(Raised(p, k), Raised(q, k))
  {
  }

  lemma {:induction false} RaisedTwice(p: Poly, j: nat, k: nat)
    ensures Raised(Raised(p, j), k) == Raised(p, j + k)
  {
  }

  /** The generator times the term x^n of q. */
  function Term(g: Poly, q: Poly, n: nat): Poly {
    if n in q then Raised(g, n) else {}
  }

  /** The generator times the part of q below x^n. */
  function Product(g: Poly, q: Poly, n: nat): Poly {
    if n == 0 then {} else Plus(Term(g, q, n - 1), Product(g, q, n - 1))
  }

  /** p is a multiple of the generator. */
  ghost predicate Divisible(g: Poly, p: Poly) {
    exists q, n :: p == Product(g, q, n)
  }

  lemma {:induction false} ProductPlus(g: Poly, q: Poly, r: Poly, n: nat)
    ensures Product(g, Plus(q, r), n) == Plus(Product(g, q, n), Product(g, r, n))
  {
    if n > 0 {
      ProductPlus(g, q, r, n - 1);
      FourSum(Term(g, q, n - 1), Product(g, q, n - 1), Term(g, r, n - 1), Product(g, r, n - 1));
      PlusNothing(Raised(g, n - 1));
      assert Term(g, Plus(q, r), n - 1) == Plus(Term(g, q, n - 1), Term(g, r, n - 1));
    }
  }

  lemma {:induction false} FourSum(a: Poly, b: Poly, c: Poly, d: Poly)
    ensures Plus(Plus(a, c), Plus(b, d)) == Plus(Plus(a, b), Plus(c, d))
  {
  }

  lemma {:induction false} NothingBelow(g: Poly, q: Poly, n: nat)
    requires forall e :: e in q ==> e >= n
    ensures Product(g, q, n) == {}
  {
    if n > 0 {
      NothingBelow(g, q, n - 1);
    }
  }

  lemma {:induction false} TermRaised(g: Poly, q: Poly, n: nat, k: nat)
    ensures Raised(Term(g, q, n), k) == Term(g, Raised(q, k), n + k)
  {
    RaisedTwice(g, n, k);
  }

  lemma {:induction false} ProductRaised(g: Poly, q: Poly, n: nat, k: nat)
    ensures Raised(Product(g, q, n), k) == Product(g, Raised(q, k), n + k)
  {
    if n == 0 {
      NothingBelow(g, Raised(q, k), k);
      RaisedNothing({}, k);
    } else {
      ProductRaised(g, q, n - 1, k);
      var m := n - 1;
      RaisedPlus(Term(g, q, m), Product(g, q, m), k);
      TermRaised(g, q, m, k);
      assert n + k - 1 == m + k;
      assert Product(g, Raised(q, k), n + k) == Plus(Term(g, Raised(q, k), m + k), Product(g, Raised(q, k), m + k));
    }
  }

  lemma {:induction false} DivisibleRaised(g: Poly, p: Poly, k: nat)
    requires Divisible(g, p)
    ensures Divisible(g, Raised(p, k))
  {
    var q, n :| p == Product(g, q, n);
    ProductRaised(g, q, n, k);
  }

  /** Products do not look at higher powers. */
  lemma {:induction false} ProductBelow(g: Poly, q: Poly, r: Poly, n: nat, m: nat)
    requires n <= m && forall e :: e in r <==> e in q && e < n
    ensures Product(g, r, m) == Product(g, q, n)
    decreases m
  {
    if m > n {
      ProductBelow(g, q, r, n, m - 1);
    } else if n > 0 {
      var r' := r - {n - 1};
      ProductBelow(g, q, r', n - 1, n - 1);
      ProductBelow(g, r, r', n - 1, n - 1);
    }
  }

  lemma {:induction false} DivisiblePlus(g: Poly, p: Poly, p': Poly)
    requires Divisible(g, p) && Divisible(g, p')
    ensures Divisible(g, Plus(p, p'))
  {
    var q, n :| p == Product(g, q, n);
    var q', n' :| p' == Product(g, q', n');
    var m := n + n';
    var r, r' := q * Below(n), q' * Below(n');
    ProductBelow(g, q, r, n, m);
    ProductBelow(g, q', r', n', m);
    ProductPlus(g, r, r', m);
  }

  lemma {:induction false} GeneratorDivides(g: Poly)
    ensures Divisible(g, g) && Divisible(g, {})
  {
    assert Product(g, {}, 0) == {};
    assert Product(g, {0}, 1) == Plus(Raised(g, 0), Product(g, {0}, 0));
    RaisedNothing(g, 0);
    PlusNothing(g);
  }

  /** A multiple of the generator is zero or has degree 32 at least. */
  lemma {:induction false} ProductTop(g: Poly, q: Poly, n: nat)
    requires 32 in g && forall e :: e in g ==> e <= 32
    ensures forall e :: e in Product(g, q, n) ==> e < n + 32
    ensures Product(g, q, n) == {} || exists e :: e in Product(g, q, n) && e >= 32
  {
    if n > 0 {
      ProductTop(g, q, n - 1);
      PlusNothing(Product(g, q, n - 1));
      if n - 1 in q {
        assert n + 31 in Raised(g, n - 1) && n + 31 !in Product(g, q, n - 1);
        assert n + 31 in Product(g, q, n);
      }
    }
  }

  /** Remainders are unique. */
  lemma {:induction false} RemainderUnique(g: Poly, t: Poly, p: Poly, q: Poly)
    requires 32 in g && forall e :: e in g ==> e <= 32
    requires (forall e :: e in p ==> e < 32) && (forall e :: e in q ==> e < 32)
    requires Divisible(g, Plus(t, p)) && Divisible(g, Plus(t, q))
    ensures p == q
  {
    DivisiblePlus(g, Plus(t, p), Plus(t, q));
    assert Plus(Plus(t, p), Plus(t, q)) == Plus(p, q);
    var r, n :| Plus(p, q) == Product(g, r, n);
    ProductTop(g, r, n);
    assert forall e :: e in Plus(p, q) ==> e < 32;
    assert forall e :: (e in p) == (e in q);
  }
}

/**
  Shift registers that divide polynomials: the word in the register is the remainder,
  its lowest bit the coefficient of the highest power.
 */
module Remainders {
  import opened Polynomials
  import opened Folding

  /** Words of `width` bits with their exclusive or, what is mixed in when a 1 is shifted
      out, and bytes of `bits` bits. */
  datatype Divider<!W(!new), !B(!new)> = Divider(low: W -> bool, half: W -> W, xor: (W, W) -> W, zero: W, gen: W, widen: B -> W, width: nat, bits: nat)

  /** The low n bits of a word, the lowest one for x^(n-1). */
  function Reflected<W(!new), B(!new)>(m: Divider<W, B>, x: W, n: nat): (p: Poly)
    ensures forall e :: e in p ==> 0 <= e < n
    decreases n
  {
    if n == 0 then {} else (if m.low(x) then {n - 1} else {}) + Reflected(m, m.half(x), n - 1)
  }

  function Reg<W(!new), B(!new)>(m: Divider<W, B>, x: W): Poly {
    Reflected(m, x, m.width)
  }

  /** x^width plus the bits of `gen`. */
  function GeneratorOf<W(!new), B(!new)>(m: Divider<W, B>): Poly {
    Plus({m.width}, Reg(m, m.gen))
  }

  /** x has no bit at n or above. */
  ghost predicate Short<W(!new), B(!new)>(m: Divider<W, B>, x: W, n: nat)
    decreases n
  {
    if n == 0 then x == m.zero else Short(m, m.half(x), n - 1)
  }

  /** One shift step. */
  function Shifted<W(!new), B(!new)>(m: Divider<W, B>, x: W): W {
    if m.low(x) then m.xor(m.half(x), m.gen) else m.half(x)
  }

  // The laws of words, one predicate per instance.

  ghost predicate XorOK<W(!new), B(!new)>(m: Divider<W, B>, x: W, y: W) {
    m.low(m.xor(x, y)) == (m.low(x) != m.low(y)) && m.half(m.xor(x, y)) == m.xor(m.half(x), m.half(y))
  }

  ghost predicate HalfOK<W(!new), B(!new)>(m: Divider<W, B>, x: W) {
    m.width > 0 && Short(m, m.half(x), m.width - 1)
  }

  ghost predicate ByteOK<W(!new), B(!new)>(m: Divider<W, B>, b: B) {
    Short(m, m.widen(b), m.bits)
  }

  ghost predicate Lawful<W(!new), B(!new)>(m: Divider<W, B>) {
    && m.bits <= m.width && !m.low(m.zero) && m.half(m.zero) == m.zero
    && (forall x, y {:trigger XorOK(m, x, y)} :: XorOK(m, x, y))
    && (forall x {:trigger HalfOK(m, x)} :: HalfOK(m, x))
    && (forall b {:trigger ByteOK(m, b)} :: ByteOK(m, b))
  }

  // Words as polynomials.

  lemma {:induction false} TopPlus(a: bool, b: bool, p: Poly, q: Poly, n: nat)
    requires n !in p && n !in q
    ensures (if a != b then {n} else {}) + Plus(p, q) == Plus((if a then {n} else {}) + p, (if b then {n} else {}) + q)
  {
  }

  lemma {:induction false} ReflectedXor<W(!new), B(!new)>(m: Divider<W, B>, x: W, y: W, n: nat)
    requires Lawful(m)
    ensures Reflected(m, m.xor(x, y), n) == Plus(Reflected(m, x, n), Reflected(m, y, n))
    decreases n
  {
    if n > 0 {
      assert XorOK(m, x, y);
      ReflectedXor(m, m.half(x), m.half(y), n - 1);
      TopPlus(m.low(x), m.low(y), Reflected(m, m.half(x), n - 1), Reflected(m, m.half(y), n - 1), n - 1);
    } else {
      PlusNothing({});
    }
  }

  lemma {:induction false} ReflectedZero<W(!new), B(!new)>(m: Divider<W, B>, n: nat)
    requires Lawful(m)
    ensures Reflected(m, m.zero, n) == {}
  {
    if n > 0 {
      ReflectedZero(m, n - 1);
    }
  }

  lemma {:induction false} RaisedTop(low: bool, p: Poly, n: nat, k: nat)
    ensures Raised((if low then {n} else {}) + p, k) == (if low then {n + k} else {}) + Raised(p, k)
  {
  }

  /** A short word read with k more bits. */
  lemma {:induction false} ReflectedShort<W(!new), B(!new)>(m: Divider<W, B>, x: W, n: nat, k: nat)
    requires Lawful(m) && Short(m, x, n)
    ensures Reflected(m, x, n + k) == Raised(Reflected(m, x, n), k)
    decreases n
  {
    if n == 0 {
      ReflectedZero(m, k);
      RaisedNothing({}, k);
    } else {
      ReflectedShort(m, m.half(x), n - 1, k);
      RaisedTop(m.low(x), Reflected(m, m.half(x), n - 1), n - 1, k);
    }
  }

  // The steps of the computation.

  /** The register r holds the remainder of t. */
  ghost predicate Remains<W(!new), B(!new)>(m: Divider<W, B>, t: Poly, r: W) {
    Divisible(GeneratorOf(m), Plus(t, Reg(m, r)))
  }

  lemma {:induction false} TopIsPlus(low: bool, p: Poly, n: nat)
    requires n !in p
    ensures (if low then {n} else {}) + p == Plus(if low then {n} else {}, p)
  {
  }

  /** A word times x: the low bit leaves the register. */
  lemma {:induction false} ReflectedTimesX<W(!new), B(!new)>(m: Divider<W, B>, x: W)
    requires Lawful(m)
    ensures Raised(Reg(m, x), 1) == Plus(if m.low(x) then {m.width} else {}, Reg(m, m.half(x)))
  {
    assert HalfOK(m, x);
    var n := m.width - 1;
    ReflectedShort(m, m.half(x), n, 1);
    RaisedTop(m.low(x), Reflected(m, m.half(x), n), n, 1);
    TopIsPlus(m.low(x), Reg(m, m.half(x)), m.width);
  }

  lemma {:induction false} MiddleCancels(a: Poly, p: Poly, b: Poly)
    ensures Plus(Plus(a, p), Plus(p, b)) == Plus(a, b) && Plus(Plus(a, p), p) == a
  {
  }

  lemma {:induction false} ShiftReflected<W(!new), B(!new)>(m: Divider<W, B>, x: W)
    requires Lawful(m)
    ensures Plus(Raised(Reg(m, x), 1), Reg(m, Shifted(m, x))) == if m.low(x) then GeneratorOf(m) else {}
  {
    ReflectedTimesX(m, x);
    var p := Reg(m, m.half(x));
    if m.low(x) {
      ReflectedXor(m, m.half(x), m.gen, m.width);
      MiddleCancels({m.width}, p, Reg(m, m.gen));
    } else {
      PlusNothing(p);
    }
  }

  /** A shift step divides by one more power of x. */
  lemma {:induction false} ShiftRemains<W(!new), B(!new)>(m: Divider<W, B>, t: Poly, r: W)
    requires Lawful(m) && Remains(m, t, r)
    ensures Remains(m, Raised(t, 1), Shifted(m, r))
  {
    var g, p, p' := GeneratorOf(m), Reg(m, r), Reg(m, Shifted(m, r));
    DivisibleRaised(g, Plus(t, p), 1);
    RaisedPlus(t, p, 1);
    ShiftReflected(m, r);
    GeneratorDivides(g);
    DivisiblePlus(g, Plus(Raised(t, 1), Raised(p, 1)), Plus(Raised(p, 1), p'));
    MiddleCancels(Raised(t, 1), Raised(p, 1), p');
  }

  lemma {:induction false} ShiftsRemain<W(!new), B(!new)>(m: Divider<W, B>, shift: W -> W, t: Poly, r: W, n: nat)
    requires Lawful(m) && Remains(m, t, r) && forall x :: shift(x) == Shifted(m, x)
    ensures Remains(m, Raised(t, n), Iter(shift, r, n))
  {
    if n == 0 {
      RaisedNothing(t, 0);
    } else {
      ShiftsRemain(m, shift, t, r, n - 1);
      ShiftRemains(m, Raised(t, n - 1), Iter(shift, r, n - 1));
      RaisedTwice(t, n - 1, 1);
    }
  }

  /** The bits of a byte, low first. */
  function BytePoly<W(!new), B(!new)>(m: Divider<W, B>, b: B): Poly {
    Reflected(m, m.widen(b), m.bits)
  }

  lemma {:induction false} ByteMixed<W(!new), B(!new)>(m: Divider<W, B>, t: Poly, r: W, b: B, byte: Poly)
    requires Lawful(m) && Remains(m, t, r) && byte == BytePoly(m, b)
    ensures Remains(m, Plus(t, Raised(byte, m.width - m.bits)), m.xor(r, m.widen(b)))
  {
    assert ByteOK(m, b);
    ReflectedShort(m, m.widen(b), m.bits, m.width - m.bits);
    ReflectedXor(m, r, m.widen(b), m.width);
    var p, q := Reg(m, r), Raised(byte, m.width - m.bits);
    PlusLaws(p, q, q);
    MiddleCancels(t, q, p);
  }

  lemma {:induction false} AbsorbRemains<W(!new), B(!new)>(m: Divider<W, B>, shift: W -> W, t: Poly, r: W, b: B, byte: Poly)
    requires Lawful(m) && Remains(m, t, r) && byte == BytePoly(m, b) && forall x :: shift(x) == Shifted(m, x)
    ensures Remains(m, Plus(Raised(t, m.bits), Raised(byte, m.width)), Iter(shift, m.xor(r, m.widen(b)), m.bits))
  {
    ByteMixed(m, t, r, b, byte);
    ShiftsRemain(m, shift, Plus(t, Raised(byte, m.width - m.bits)), m.xor(r, m.widen(b)), m.bits);
    RaisedPlus(t, Raised(byte, m.width - m.bits), m.bits);
    RaisedTwice(byte, m.width - m.bits, m.bits);
  }

  // Whole messages.

  /** The bits of a message, first byte first. */
  function Message<W(!new), B(!new)>(m: Divider<W, B>, msg: seq<B>): Poly {
    if msg == [] then {} else Plus(Raised(Message(m, msg[..|msg| - 1]), m.bits), BytePoly(m, msg[|msg| - 1]))
  }

  /** The message times x^width, with its first `width` bits complemented. */
  function Dividend<W(!new), B(!new)>(m: Divider<W, B>, msg: seq<B>): Poly {
    Plus(Raised(Message(m, msg), m.width), Raised(Below(m.width), m.bits * |msg|))
  }

  lemma {:induction false} DividendNext<W(!new), B(!new)>(m: Divider<W, B>, rest: seq<B>, b: B, byte: Poly)
    requires byte == BytePoly(m, b)
    ensures Dividend(m, rest + [b]) == Plus(Raised(Dividend(m, rest), m.bits), Raised(byte, m.width))
  {
    var msg, p, ones, k := rest + [b], Message(m, rest), Below(m.width), m.bits * |rest|;
    assert msg[..|msg| - 1] == rest;
    assert m.bits * |msg| == k + m.bits;
    RaisedPlus(Raised(p, m.bits), byte, m.width);
    RaisedTwice(p, m.bits, m.width);
    RaisedPlus(Raised(p, m.width), Raised(ones, k), m.bits);
    RaisedTwice(p, m.width, m.bits);
    RaisedTwice(ones, k, m.bits);
    LastTwo(Raised(p, m.width + m.bits), Raised(byte, m.width), Raised(ones, k + m.bits));
  }

  lemma {:induction false} LastTwo(a: Poly, c: Poly, d: Poly)
    ensures Plus(Plus(a, c), d) == Plus(Plus(a, d), c)
  {
  }

  /** The register holds the remainder of what was absorbed, if it started with ones. */
  lemma {:induction false} FoldRemains<W(!new), B(!new)>(m: Divider<W, B>, shift: W -> W, step: (W, B) -> W, ones: W, msg: seq<B>)
    requires Lawful(m) && Reg(m, ones) == Below(m.width) && (forall x :: shift(x) == Shifted(m, x))
    requires forall r, b :: step(r, b) == Iter(shift, m.xor(r, m.widen(b)), m.bits)
    ensures Remains(m, Dividend(m, msg), Fold(step, ones, msg))
    decreases |msg|
  {
    if msg == [] {
      RaisedNothing(Below(m.width), m.width);
      PlusNothing(Below(m.width));
      GeneratorDivides(GeneratorOf(m));
    } else {
      var n := |msg| - 1;
      var rest, b := msg[..n], msg[n];
      var r := Fold(step, ones, rest);
      FoldRemains(m, shift, step, ones, rest);
      AbsorbRemains(m, shift, Dividend(m, rest), r, b, BytePoly(m, b));
      DividendNext(m, rest, b, BytePoly(m, b));
      FoldNext(step, ones, msg, n);
      assert msg[..n + 1] == msg == rest + [b];
    }
  }

  /** The complemented word as a polynomial. */
  function Complemented<W(!new), B(!new)>(m: Divider<W, B>, x: W): Poly {
    Plus(Reg(m, x), Below(m.width))
  }

  /** The complement of the register at the end is a word that complements to the remainder. */
  lemma {:induction false} ChecksumRemains<W(!new), B(!new)>(m: Divider<W, B>, shift: W -> W, step: (W, B) -> W, ones: W, msg: seq<B>)
    requires Lawful(m) && Reg(m, ones) == Below(m.width) && (forall x :: shift(x) == Shifted(m, x))
    requires forall r, b :: step(r, b) == Iter(shift, m.xor(r, m.widen(b)), m.bits)
    ensures Divisible(GeneratorOf(m), Plus(Dividend(m, msg), Complemented(m, m.xor(Fold(step, ones, msg), ones))))
  {
    FoldRemains(m, shift, step, ones, msg);
    var r := Fold(step, ones, msg);
    ReflectedXor(m, r, ones, m.width);
    MiddleCancels(Reg(m, r), Below(m.width), {});
  }

  lemma {:induction false} ComplementUnique<W(!new), B(!new)>(m: Divider<W, B>, g: Poly, t: Poly, x: W, y: W)
    requires m.width == 32 && 32 in g && forall e :: e in g ==> e <= 32
    requires Divisible(g, Plus(t, Complemented(m, x))) && Divisible(g, Plus(t, Complemented(m, y)))
    ensures Reg(m, x) == Reg(m, y)
  {
    RemainderUnique(g, t, Complemented(m, x), Complemented(m, y));
    MiddleCancels(Reg(m, x), Below(m.width), {});
    MiddleCancels(Reg(m, y), Below(m.width), {});
  }

  /** A word without a bit is zero. */
  ghost predicate ZeroOK<W(!new), B(!new)>(m: Divider<W, B>, x: W) {
    !m.low(x) && m.half(x) == m.zero ==> x == m.zero
  }

  lemma {:induction false} EmptyIsZero<W(!new), B(!new)>(m: Divider<W, B>, x: W, n: nat)
    requires Short(m, x, n) && Reflected(m, x, n) == {} && forall y {:trigger ZeroOK(m, y)} :: ZeroOK(m, y)
    ensures x == m.zero
    decreases n
  {
    if n > 0 {
      assert n - 1 !in Reflected(m, x, n);
      EmptyIsZero(m, m.half(x), n - 1);
      assert ZeroOK(m, x);
    }
  }

  lemma {:induction false} ShortHalf<W(!new), B(!new)>(m: Divider<W, B>, x: W, n: nat)
    requires n > 0
    ensures Short(m, x, n) <==> Short(m, m.half(x), n - 1)
  {
  }
}

/**
  What CRC-32 computes (section 8 of RFC 1952): the remainder of the message, read as a
  polynomial, modulo the generator.
 */
module CrcPoly {
  import opened Wrappers
  import opened Polynomials
  import opened Folding
  import opened Remainders
  import opened Checksums

  /** x^32 + x^26 + x^23 + x^22 + x^16 + x^12 + x^11 + x^10 + x^8 + x^7 + x^5 + x^4 + x^2 + x + 1. */
  const Generator: Poly := {32, 26, 23, 22, 16, 12, 11, 10, 8, 7, 5, 4, 2, 1, 0}

  function Low(x: bv32): bool {
    x & 1 == 1
  }

  function Half(x: bv32): bv32 {
    x >> 1
  }

  function CrcDivider(): Divider<bv32, bv8> {
    Divider(Low, Half, Xor, 0, 0xEDB88320, Widen, 32, 8)
  }

  // The laws of 32-bit words.

  lemma {:induction false} XorLow(x: bv32, y: bv32)
    ensures ((x ^ y) & 1 == 1) == ((x & 1 == 1) != (y & 1 == 1))
  {
  }

  lemma {:induction false} XorHalf(x: bv32, y: bv32)
    ensures (x ^ y) >> 1 == (x >> 1) ^ (y >> 1)
  {
  }

  lemma {:induction false} TwoHalves(m: Divider<bv32, bv8>, x: bv32, n: nat)
    requires m == CrcDivider() && n >= 2
    ensures Short(m, x, n) <==> Short(m, x >> 2, n - 2)
  {
    ShortHalf(m, x, n);
    ShortHalf(m, x >> 1, n - 1);
    assert (x >> 1) >> 1 == x >> 2;
  }

  lemma {:induction false} Shifts(x: bv32)
    ensures (x >> 2) >> 2 == x >> 4 && (x >> 4) >> 4 == x >> 8 && (x >> 8) >> 8 == x >> 16
  {
  }

  lemma {:induction false} FourHalves(m: Divider<bv32, bv8>, x: bv32, n: nat)
    requires m == CrcDivider() && n >= 4
    ensures Short(m, x, n) <==> Short(m, x >> 4, n - 4)
  {
    TwoHalves(m, x, n);
    TwoHalves(m, x >> 2, n - 2);
    Shifts(x);
  }

  lemma {:induction false} EightHalves(m: Divider<bv32, bv8>, x: bv32, n: nat)
    requires m == CrcDivider() && n >= 8
    ensures Short(m, x, n) <==> Short(m, x >> 8, n - 8)
  {
    FourHalves(m, x, n);
    FourHalves(m, x >> 4, n - 4);
    Shifts(x);
  }

  lemma {:induction false} WordsFit(m: Divider<bv32, bv8>, x: bv32, n: nat)
    requires m == CrcDivider() && n == 32
    ensures Short(m, x, n)
  {
    EightHalves(m, x, n);
    EightHalves(m, x >> 8, n - 8);
    assert (x >> 8) >> 8 == x >> 16;
    EightHalves(m, x >> 16, n - 16);
    assert (x >> 16) >> 8 == x >> 24;
    EightHalves(m, x >> 24, n - 24);
    assert (x >> 24) >> 8 == 0;
  }

  lemma {:induction false} HalvesFit(m: Divider<bv32, bv8>, x: bv32, n: nat)
    requires m == CrcDivider() && n == 31
    ensures Short(m, m.half(x), n)
  {
    WordsFit(m, x, n + 1);
    ShortHalf(m, x, n + 1);
  }

  lemma {:induction false} BytesFit(m: Divider<bv32, bv8>, b: bv8, n: nat)
    requires m == CrcDivider() && n == 8
    ensures Short(m, m.widen(b), n)
  {
    EightHalves(m, Widen(b), n);
    assert Widen(b) >> 8 == 0;
  }

  lemma {:induction false} WordsAreLawful(m: Divider<bv32, bv8>)
    requires m == CrcDivider()
    ensures Lawful(m)
  {
    forall x, y ensures XorOK(m, x, y) {
      XorLow(x, y);
      XorHalf(x, y);
    }
    forall x ensures HalfOK(m, x) {
      HalvesFit(m, x, 31);
    }
    forall b ensures ByteOK(m, b) {
      BytesFit(m, b, 8);
    }
  }

  // The constants of the code as polynomials, bit by bit.

  lemma {:induction false} NextBit(x: bv32, h: bv32, n: nat)
    requires h == x >> 1
    ensures Reflected(CrcDivider(), x, n + 1) == if x & 1 == 1 then {n} + Reflected(CrcDivider(), h, n) else Reflected(CrcDivider(), h, n)
  {
  }

  lemma {:induction false} GeneratorBits8()
    ensures Reflected(CrcDivider(), 0xED, 8) == {7, 5, 4, 2, 1, 0}
  {
    NextBit(0x1, 0x0, 0);
    NextBit(0x3, 0x1, 1);
    NextBit(0x7, 0x3, 2);
    NextBit(0xE, 0x7, 3);
    NextBit(0x1D, 0xE, 4);
    NextBit(0x3B, 0x1D, 5);
    NextBit(0x76, 0x3B, 6);
    NextBit(0xED, 0x76, 7);
  }

  lemma {:induction false} GeneratorBits16()
    ensures Reflected(CrcDivider(), 0xEDB8, 16) == {12, 11, 10, 8, 7, 5, 4, 2, 1, 0}
  {
    GeneratorBits8();
    NextBit(0x1DB, 0xED, 8);
    NextBit(0x3B6, 0x1DB, 9);
    NextBit(0x76D, 0x3B6, 10);
    NextBit(0xEDB, 0x76D, 11);
    NextBit(0x1DB7, 0xEDB, 12);
    NextBit(0x3B6E, 0x1DB7, 13);
    NextBit(0x76DC, 0x3B6E, 14);
    NextBit(0xEDB8, 0x76DC, 15);
  }

  lemma {:induction false} GeneratorBits24()
    ensures Reflected(CrcDivider(), 0xEDB883, 24) == {23, 22, 16, 12, 11, 10, 8, 7, 5, 4, 2, 1, 0}
  {
    GeneratorBits16();
    NextBit(0x1DB71, 0xEDB8, 16);
    NextBit(0x3B6E2, 0x1DB71, 17);
    NextBit(0x76DC4, 0x3B6E2, 18);
    NextBit(0xEDB88, 0x76DC4, 19);
    NextBit(0x1DB710, 0xEDB88, 20);
    NextBit(0x3B6E20, 0x1DB710, 21);
    NextBit(0x76DC41, 0x3B6E20, 22);
    NextBit(0xEDB883, 0x76DC41, 23);
  }

  lemma {:induction false} GeneratorBits32()
    ensures Reflected(CrcDivider(), 0xEDB88320, 32) == {26, 23, 22, 16, 12, 11, 10, 8, 7, 5, 4, 2, 1, 0}
  {
    GeneratorBits24();
    NextBit(0x1DB7106, 0xEDB883, 24);
    NextBit(0x3B6E20C, 0x1DB7106, 25);
    NextBit(0x76DC419, 0x3B6E20C, 26);
    NextBit(0xEDB8832, 0x76DC419, 27);
    NextBit(0x1DB71064, 0xEDB8832, 28);
    NextBit(0x3B6E20C8, 0x1DB71064, 29);
    NextBit(0x76DC4190, 0x3B6E20C8, 30);
    NextBit(0xEDB88320, 0x76DC4190, 31);
  }

  lemma {:induction false} Ones8()
    ensures Reflected(CrcDivider(), 0xFF, 8) == Below(8)
  {
    NextBit(0x1, 0x0, 0);
    NextBit(0x3, 0x1, 1);
    NextBit(0x7, 0x3, 2);
    NextBit(0xF, 0x7, 3);
    NextBit(0x1F, 0xF, 4);
    NextBit(0x3F, 0x1F, 5);
    NextBit(0x7F, 0x3F, 6);
    NextBit(0xFF, 0x7F, 7);
  }

  lemma {:induction false} Ones16()
    ensures Reflected(CrcDivider(), 0xFFFF, 16) == Below(16)
  {
    Ones8();
    NextBit(0x1FF, 0xFF, 8);
    NextBit(0x3FF, 0x1FF, 9);
    NextBit(0x7FF, 0x3FF, 10);
    NextBit(0xFFF, 0x7FF, 11);
    NextBit(0x1FFF, 0xFFF, 12);
    NextBit(0x3FFF, 0x1FFF, 13);
    NextBit(0x7FFF, 0x3FFF, 14);
    NextBit(0xFFFF, 0x7FFF, 15);
  }

  lemma {:induction false} Ones24()
    ensures Reflected(CrcDivider(), 0xFFFFFF, 24) == Below(24)
  {
    Ones16();
    NextBit(0x1FFFF, 0xFFFF, 16);
    NextBit(0x3FFFF, 0x1FFFF, 17);
    NextBit(0x7FFFF, 0x3FFFF, 18);
    NextBit(0xFFFFF, 0x7FFFF, 19);
    NextBit(0x1FFFFF, 0xFFFFF, 20);
    NextBit(0x3FFFFF, 0x1FFFFF, 21);
    NextBit(0x7FFFFF, 0x3FFFFF, 22);
    NextBit(0xFFFFFF, 0x7FFFFF, 23);
  }

  lemma {:induction false} Ones32()
    ensures Reflected(CrcDivider(), 0xFFFFFFFF, 32) == Below(32)
  {
    Ones24();
    NextBit(0x1FFFFFF, 0xFFFFFF, 24);
    NextBit(0x3FFFFFF, 0x1FFFFFF, 25);
    NextBit(0x7FFFFFF, 0x3FFFFFF, 26);
    NextBit(0xFFFFFFF, 0x7FFFFFF, 27);
    NextBit(0x1FFFFFFF, 0xFFFFFFF, 28);
    NextBit(0x3FFFFFFF, 0x1FFFFFFF, 29);
    NextBit(0x7FFFFFFF, 0x3FFFFFFF, 30);
    NextBit(0xFFFFFFFF, 0x7FFFFFFF, 31);
  }

  lemma {:induction false} GeneratorIsGenerator()
    ensures GeneratorOf(CrcDivider()) == Generator
  {
    GeneratorBits32();
  }

  /** m is the divider of CRC-32. Only those who mention the key see it, so that nobody
      computes with its 32 bits. */
  ghost predicate ForCrc32(m: Divider<bv32, bv8>) {
    forall key {:trigger Opened(key)} :: Opened(key) ==> m == CrcDivider()
  }

  lemma {:induction false} CrcFacts(m: Divider<bv32, bv8>)
    requires ForCrc32(m)
    ensures Lawful(m) && GeneratorOf(m) == Generator && Reg(m, ONES) == Below(m.width) && m.width == 32
  {
    assert Opened(true);
    WordsAreLawful(m);
    GeneratorIsGenerator();
    Ones32();
  }

  lemma {:induction false} CrcSteps(m: Divider<bv32, bv8>)
    requires ForCrc32(m)
    ensures forall x :: Shift(x) == Shifted(m, x)
    ensures forall r, b :: Absorb(r, b) == Iter(Shift, m.xor(r, m.widen(b)), m.bits)
    ensures forall x, y :: m.xor(x, y) == Xor(x, y)
  {
    assert Opened(true);
  }

  /** The complement of the checksum is the remainder of the message modulo the generator,
      for every message. */
  lemma {:induction false} CrcIsRemainder(m: Divider<bv32, bv8>, msg: seq<bv8>)
    requires ForCrc32(m)
    ensures Divisible(Generator, Plus(Dividend(m, msg), Complemented(m, Crc32(msg))))
  {
    CrcFacts(m);
    CrcSteps(m);
    ChecksumRemains(m, Shift, Absorb, ONES, msg);
  }

  lemma {:induction false} SameBits(m: Divider<bv32, bv8>, x: bv32, y: bv32)
    requires ForCrc32(m) && Reg(m, x) == Reg(m, y)
    ensures x == y
  {
    CrcFacts(m);
    ReflectedXor(m, x, y, m.width);
    PlusNothing(Reg(m, x));
    NoBits(m, x, y);
  }

  lemma {:induction false} NoBits(m: Divider<bv32, bv8>, x: bv32, y: bv32)
    requires ForCrc32(m) && Reg(m, m.xor(x, y)) == {}
    ensures x == y
  {
    assert Opened(true);
    WordsFit(m, Xor(x, y), m.width);
    forall z ensures ZeroOK(m, z) {
    }
    EmptyIsZero(m, Xor(x, y), m.width);
    assert x ^ y == 0 ==> x == y;
  }

  /** So it is the only word with that property. */
  lemma {:induction false} CrcIsUnique(m: Divider<bv32, bv8>, msg: seq<bv8>, crc: bv32)
    requires ForCrc32(m) && Divisible(Generator, Plus(Dividend(m, msg), Complemented(m, crc)))
    ensures crc == Crc32(msg)
  {
    CrcFacts(m);
    CrcIsRemainder(m, msg);
    ComplementUnique(m, Generator, Dividend(m, msg), crc, Crc32(msg));
    SameBits(m, crc, Crc32(msg));
  }
}
