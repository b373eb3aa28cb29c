/**
  The initial stack of a new process, as section 3.4.1 of the System V x86-64 psABI
  lays it out: how the loader builds it, and how a program reads it back.
 */
module ElfImage {
  import opened Wrappers

  type Byte = b: nat | b < 256
  type Text = seq<Byte>

  const TOP: nat := 0x8000_0000_0000
  const SIZE: nat := 0x8000
  const BASE: nat := 0x7FFF_FFFF_8000

  // Little-endian words.

  function Bytes(v: nat, n: nat): (r: seq<Byte>)
    ensures |r| == n
  {
    if n == 0 then [] else [v % 256] + Bytes(v / 256, n - 1)
  }

  function Value(bs: seq<Byte>): nat {
    if bs == [] then 0 else bs[0] + 256 * Value(bs[1..])
  }

  function Limit(n: nat): (r: nat)
    ensures r > 0
  {
    if n == 0 then 1 else 256 * Limit(n - 1)
  }

  const WORD: nat := 0x1_0000_0000_0000_0000

  lemma {:induction false} WordLimit()
    ensures Limit(8) == WORD
  {
    assert Limit(4) == 0x1_0000_0000;
  }

  lemma {:induction false} ValueOfBytes(v: nat, n: nat)
    requires v < Limit(n)
    ensures Value(Bytes(v, n)) == v
  {
    if n > 0 {
      ValueOfBytes(v / 256, n - 1);
      assert Bytes(v, n)[1..] == Bytes(v / 256, n - 1);
    }
  }

  function Words(ws: seq<nat>): (r: seq<Byte>)
    ensures |r| == 8 * |ws|
  {
    if ws == [] then [] else Bytes(ws[0], 8) + Words(ws[1..])
  }

  lemma {:induction false} WordsAppend(a: seq<nat>, b: seq<nat>)
    ensures Words(a + b) == Words(a) + Words(b)
    decreases |a|
  {
    if a == [] {
      assert a + b == b;
    } else {
      assert (a + b)[1..] == a[1..] + b;
      WordsAppend(a[1..], b);
    }
  }

  // Memory: the stack pages [BASE, TOP).

  ghost predicate Holds(m: seq<Byte>, a: nat, bs: seq<Byte>) {
    && |m| == SIZE && BASE <= a && a + |bs| <= TOP
    && (forall i {:trigger bs[i]} :: 0 <= i < |bs| ==> m[a - BASE + i] == bs[i])
  }

  lemma {:induction false} HoldsBoth(m: seq<Byte>, a: nat, x: seq<Byte>, y: seq<Byte>)
    ensures Holds(m, a, x + y) <==> Holds(m, a, x) && Holds(m, a + |x|, y)
  {
    if Holds(m, a, x + y) {
      forall i | 0 <= i < |x| ensures m[a - BASE + i] == x[i] {
        assert (x + y)[i] == x[i];
      }
      forall i | 0 <= i < |y| ensures m[a + |x| - BASE + i] == y[i] {
        assert (x + y)[|x| + i] == y[i];
      }
    }
  }

  function Word(m: seq<Byte>, a: nat): nat
    requires |m| == SIZE && BASE <= a <= TOP - 8
  {
    Value(m[a - BASE..a - BASE + 8])
  }

  lemma {:induction false} WordHeld(m: seq<Byte>, a: nat, v: nat)
    requires Holds(m, a, Bytes(v, 8)) && v < WORD
    ensures Word(m, a) == v
  {
    assert m[a - BASE..a - BASE + 8] == Bytes(v, 8);
    WordLimit();
    ValueOfBytes(v, 8);
  }

  /** Memory holds a sequence of words. */
  ghost predicate HoldsWords(m: seq<Byte>, a: nat, ws: seq<nat>) {
    && |m| == SIZE && BASE <= a && a + 8 * |ws| <= TOP
    && (forall i {:trigger Entry(m, a, ws, i)} :: Entry(m, a, ws, i))
  }

  ghost predicate Entry(m: seq<Byte>, a: nat, ws: seq<nat>, i: int)
    requires |m| == SIZE && BASE <= a && a + 8 * |ws| <= TOP
  {
    0 <= i < |ws| && ws[i] < WORD ==> Word(m, a + 8 * i) == ws[i]
  }

  lemma {:induction false} WordsHeld(m: seq<Byte>, a: nat, ws: seq<nat>)
    requires Holds(m, a, Words(ws))
    ensures HoldsWords(m, a, ws)
    decreases |ws|
  {
    if ws != [] {
      HoldsBoth(m, a, Bytes(ws[0], 8), Words(ws[1..]));
      if ws[0] < WORD {
        WordHeld(m, a, ws[0]);
      }
      WordsHeld(m, a + 8, ws[1..]);
      forall i ensures Entry(m, a, ws, i) {
        assert Entry(m, a + 8, ws[1..], i - 1);
      }
    }
  }

  lemma {:induction false} WordsBehind(m: seq<Byte>, a: nat, xs: seq<nat>, ys: seq<nat>)
    requires HoldsWords(m, a, xs + ys)
    ensures HoldsWords(m, a, xs) && HoldsWords(m, a + 8 * |xs|, ys)
  {
    forall i ensures Entry(m, a, xs, i) {
      assert Entry(m, a, xs + ys, i);
    }
    var b := a + 8 * |xs|;
    forall i ensures Entry(m, b, ys, i) {
      assert Entry(m, a, xs + ys, |xs| + i);
    }
  }

  // Reading it back.

  /** The words from address a up to a null word. */
  function Pointers(m: seq<Byte>, a: nat): Option<seq<nat>>
    requires |m| == SIZE
    decreases TOP - a
  {
    if a < BASE || a > TOP - 8 then None
    else if Word(m, a) == 0 then Some([])
    else match Pointers(m, a + 8)
      case None => None
      case Some(rest) => Some([Word(m, a)] + rest)
  }

  /** The characters from address a up to a null byte. */
  function CString(m: seq<Byte>, a: nat): Option<Text>
    requires |m| == SIZE
    decreases TOP - a
  {
    if a < BASE || a >= TOP then None
    else if m[a - BASE] == 0 then Some([])
    else match CString(m, a + 1)
      case None => None
      case Some(rest) => Some([m[a - BASE]] + rest)
  }

  function Strings(m: seq<Byte>, ptrs: seq<nat>): Option<seq<Text>>
    requires |m| == SIZE
    decreases |ptrs|
  {
    if ptrs == [] then Some([])
    else match (CString(m, ptrs[0]), Strings(m, ptrs[1..]))
      case (Some(s), Some(rest)) => Some([s] + rest)
      case _ => None
  }

  /** The auxiliary vector from address a up to an AT_NULL entry. */
  function Auxiliary(m: seq<Byte>, a: nat): Option<seq<(nat, nat)>>
    requires |m| == SIZE
    decreases TOP - a
  {
    if a < BASE || a > TOP - 16 then None
    else if Word(m, a) == 0 then Some([])
    else match Auxiliary(m, a + 16)
      case None => None
      case Some(rest) => Some([(Word(m, a), Word(m, a + 8))] + rest)
  }

  datatype Image = Image(argc: nat, argv: seq<Text>, envp: seq<Text>, auxv: seq<(nat, nat)>)

  /** What a program finds at its initial stack pointer. */
  function Parse(m: seq<Byte>, rsp: nat): Option<Image>
    requires |m| == SIZE
  {
    if rsp < BASE || rsp > TOP - 8 then None
    else match Pointers(m, rsp + 8)
      case None => None
      case Some(args) =>
        var envAt := rsp + 8 + 8 * |args| + 8;
        match Pointers(m, envAt)
        case None => None
        case Some(envs) =>
          match (Strings(m, args), Strings(m, envs), Auxiliary(m, envAt + 8 * |envs| + 8))
          case (Some(argv), Some(envp), Some(auxv)) => Some(Image(Word(m, rsp), argv, envp, auxv))
          case _ => None
  }

  // What the loader puts there.

  ghost predicate Terminated(strs: seq<Text>) {
    forall i :: 0 <= i < |strs| ==> 0 !in strs[i]
  }

  /** The strings in the order the loader stores them: last one first. */
  function Blob(strs: seq<Text>): seq<Byte> {
    if strs == [] then [] else Blob(strs[1..]) + strs[0] + [0]
  }

  /** Where each of them then starts. */
  function Starts(strs: seq<Text>, at: nat): (r: seq<nat>)
    ensures |r| == |strs|
  {
    if strs == [] then [] else [at + |Blob(strs[1..])|] + Starts(strs[1..], at)
  }

  lemma {:induction false} StringHeld(m: seq<Byte>, a: nat, s: Text)
    requires Holds(m, a, s + [0]) && 0 !in s
    ensures CString(m, a) == Some(s)
    decreases |s|
  {
    assert m[a - BASE + 0] == (s + [0])[0];
    if s != [] {
      assert s + [0] == [s[0]] + (s[1..] + [0]);
      HoldsBoth(m, a, [s[0]], s[1..] + [0]);
      StringHeld(m, a + 1, s[1..]);
      assert [s[0]] + s[1..] == s;
    }
  }

  lemma {:induction false} StringsCons(m: seq<Byte>, p: nat, ps: seq<nat>, s: Text, rest: seq<Text>)
    requires |m| == SIZE && CString(m, p) == Some(s) && Strings(m, ps) == Some(rest)
    ensures Strings(m, [p] + ps) == Some([s] + rest)
  {
    assert ([p] + ps)[1..] == ps;
  }

  lemma {:induction false} PointersCons(m: seq<Byte>, a: nat, p: nat, ps: seq<nat>)
    requires |m| == SIZE && BASE <= a <= TOP - 8 && Word(m, a) == p != 0 && Pointers(m, a + 8) == Some(ps)
    ensures Pointers(m, a) == Some([p] + ps)
  {
  }

  lemma {:induction false} StringsHeld(m: seq<Byte>, a: nat, strs: seq<Text>)
    requires Holds(m, a, Blob(strs)) && Terminated(strs)
    ensures Strings(m, Starts(strs, a)) == Some(strs)
    decreases |strs|
  {
    if strs != [] {
      var rest, s := strs[1..], strs[0];
      assert Blob(strs) == Blob(rest) + (s + [0]);
      HoldsBoth(m, a, Blob(rest), s + [0]);
      StringsHeld(m, a, rest);
      StringHeld(m, a + |Blob(rest)|, s);
      StringsCons(m, a + |Blob(rest)|, Starts(rest, a), s, rest);
      assert [s] + rest == strs;
    }
  }

  lemma {:induction false} PointersHeld(m: seq<Byte>, a: nat, ptrs: seq<nat>)
    requires HoldsWords(m, a, ptrs + [0]) && forall i :: 0 <= i < |ptrs| ==> 0 < ptrs[i] < WORD
    ensures Pointers(m, a) == Some(ptrs)
    decreases |ptrs|
  {
    var all := ptrs + [0];
    assert Entry(m, a, all, 0);
    if ptrs != [] {
      var p, rest := ptrs[0], ptrs[1..];
      assert all == [p] + (rest + [0]);
      WordsBehind(m, a, [p], rest + [0]);
      PointersHeld(m, a + 8, rest);
      PointersCons(m, a, p, rest);
      assert [p] + rest == ptrs;
    }
  }

  /** The words of an auxiliary vector, with its AT_NULL entry. */
  function AuxWords(aux: seq<(nat, nat)>): (r: seq<nat>)
    ensures |r| == 2 * |aux| + 2
  {
    if aux == [] then [0, 0] else [aux[0].0, aux[0].1] + AuxWords(aux[1..])
  }

  lemma {:induction false} AuxiliaryCons(m: seq<Byte>, a: nat, e: (nat, nat), rest: seq<(nat, nat)>)
    requires |m| == SIZE && BASE <= a <= TOP - 16 && Word(m, a) == e.0 != 0 && Word(m, a + 8) == e.1
    requires Auxiliary(m, a + 16) == Some(rest)
    ensures Auxiliary(m, a) == Some([e] + rest)
  {
  }

  lemma {:induction false} AuxiliaryHeld(m: seq<Byte>, a: nat, aux: seq<(nat, nat)>)
    requires HoldsWords(m, a, AuxWords(aux))
    requires forall i :: 0 <= i < |aux| ==> 0 < aux[i].0 < WORD && aux[i].1 < WORD
    ensures Auxiliary(m, a) == Some(aux)
    decreases |aux|
  {
    var all := AuxWords(aux);
    assert Entry(m, a, all, 0) && Entry(m, a, all, 1);
    if aux != [] {
      var e, rest := aux[0], aux[1..];
      WordsBehind(m, a, [e.0, e.1], AuxWords(rest));
      AuxiliaryHeld(m, a + 16, rest);
      AuxiliaryCons(m, a, e, rest);
      assert [e] + rest == aux;
    }
  }

  /** The words between the stack pointer and the strings. */
  function StackWords(args: seq<nat>, envs: seq<nat>, aux: seq<(nat, nat)>, random: seq<nat>): seq<nat> {
    [|args|] + (args + [0]) + (envs + [0]) + AuxWords(aux) + random
  }

  ghost predicate PointersOK(ptrs: seq<nat>) {
    forall i :: 0 <= i < |ptrs| ==> 0 < ptrs[i] < WORD
  }

  ghost predicate AuxOK(aux: seq<(nat, nat)>) {
    forall i :: 0 <= i < |aux| ==> 0 < aux[i].0 < WORD && aux[i].1 < WORD
  }

  /** The five sections of the stack words. */
  lemma {:induction false} Sections(m: seq<Byte>, rsp: nat, n: seq<nat>, args: seq<nat>, envs: seq<nat>, aux: seq<nat>, random: seq<nat>)
    requires HoldsWords(m, rsp, n + args + envs + aux + random)
    ensures HoldsWords(m, rsp, n) && HoldsWords(m, rsp + 8 * |n|, args)
    ensures HoldsWords(m, rsp + 8 * |n| + 8 * |args|, envs)
    ensures HoldsWords(m, rsp + 8 * |n| + 8 * |args| + 8 * |envs|, aux)
  {
    WordsBehind(m, rsp, n + args + envs + aux, random);
    WordsBehind(m, rsp, n + args + envs, aux);
    WordsBehind(m, rsp, n + args, envs);
    WordsBehind(m, rsp, n, args);
  }

  lemma {:induction false} ParseOf(m: seq<Byte>, rsp: nat, args: seq<nat>, envs: seq<nat>, aux: seq<(nat, nat)>, argv: seq<Text>, envp: seq<Text>)
    requires |m| == SIZE && BASE <= rsp <= TOP - 8 && Word(m, rsp) == |args|
    requires Pointers(m, rsp + 8) == Some(args) && Pointers(m, rsp + 8 + 8 * |args| + 8) == Some(envs)
    requires Auxiliary(m, rsp + 8 + 8 * |args| + 8 + 8 * |envs| + 8) == Some(aux)
    requires Strings(m, args) == Some(argv) && Strings(m, envs) == Some(envp)
    ensures Parse(m, rsp) == Some(Image(|args|, argv, envp, aux))
  {
  }

  lemma {:induction false} StackSections(m: seq<Byte>, rsp: nat, args: seq<nat>, envs: seq<nat>, aux: seq<(nat, nat)>, random: seq<nat>)
    requires HoldsWords(m, rsp, StackWords(args, envs, aux, random)) && |args| < WORD
    requires PointersOK(args) && PointersOK(envs) && AuxOK(aux)
    ensures BASE <= rsp <= TOP - 8 && Word(m, rsp) == |args|
    ensures Pointers(m, rsp + 8) == Some(args) && Pointers(m, rsp + 8 + 8 * |args| + 8) == Some(envs)
    ensures Auxiliary(m, rsp + 8 + 8 * |args| + 8 + 8 * |envs| + 8) == Some(aux)
  {
    var argAt := rsp + 8;
    var envAt := argAt + 8 * |args| + 8;
    var auxAt := envAt + 8 * |envs| + 8;
    assert HoldsWords(m, rsp, [|args|]) && HoldsWords(m, argAt, args + [0]) && HoldsWords(m, envAt, envs + [0])
        && HoldsWords(m, auxAt, AuxWords(aux)) by {
      Sections(m, rsp, [|args|], args + [0], envs + [0], AuxWords(aux), random);
    }
    assert Entry(m, rsp, [|args|], 0);
    PointersHeld(m, argAt, args);
    PointersHeld(m, envAt, envs);
    AuxiliaryHeld(m, auxAt, aux);
  }

  /** A stack with these words, and pointers to these strings, parses to them. */
  lemma {:induction false} StackParses(m: seq<Byte>, rsp: nat, args: seq<nat>, envs: seq<nat>, aux: seq<(nat, nat)>, random: seq<nat>,
                                       argv: seq<Text>, envp: seq<Text>)
    requires HoldsWords(m, rsp, StackWords(args, envs, aux, random)) && |args| < WORD
    requires PointersOK(args) && PointersOK(envs) && AuxOK(aux)
    requires Strings(m, args) == Some(argv) && Strings(m, envs) == Some(envp)
    ensures Parse(m, rsp) == Some(Image(|args|, argv, envp, aux))
  {
    StackSections(m, rsp, args, envs, aux, random);
    ParseOf(m, rsp, args, envs, aux, argv, envp);
  }
}

/**
  The loader's side: strings are copied upwards, words are pushed downwards.
 */
module ElfStack {
  import opened Wrappers
  import opened ElfImage

  /** `m'` is `m` with `bs` written at address a. */
  ghost predicate Writes(m: seq<Byte>, a: nat, bs: seq<Byte>, m': seq<Byte>) {
    && |m| == SIZE && Holds(m', a, bs)
    && (forall k {:trigger m'[k]} :: 0 <= k < SIZE && (k < a - BASE || a - BASE + |bs| <= k) ==> m'[k] == m[k])
  }

  lemma {:induction false} WritesApart(m: seq<Byte>, a: nat, bs: seq<Byte>, m': seq<Byte>, b: nat, cs: seq<Byte>)
    requires Writes(m, a, bs, m') && Holds(m, b, cs)
    requires a + |bs| <= b || b + |cs| <= a
    ensures Holds(m', b, cs)
  {
  }

  method StoreWord(mem: array<Byte>, a: nat, v: nat)
    requires mem.Length == SIZE && BASE <= a && a + 8 <= TOP
    modifies mem
    ensures Writes(old(mem[..]), a, Bytes(v, 8), mem[..])
  {
    var bs := Bytes(v, 8);
    forall i | 0 <= i < 8 {
      mem[a - BASE + i] := bs[i];
    }
  }

  /** kstpcpy: copies a string with its terminator and returns the terminator's place. */
  method CopyString(mem: array<Byte>, a: nat, s: Text) returns (end: nat)
    requires mem.Length == SIZE && BASE <= a && a + |s| + 1 <= TOP
    modifies mem
    ensures end == a + |s| && Writes(old(mem[..]), a, s + [0], mem[..])
  {
    var i := 0;
    while i < |s|
      invariant 0 <= i <= |s|
      invariant forall k :: 0 <= k < i ==> mem[a - BASE + k] == s[k]
      invariant forall k :: 0 <= k < SIZE && (k < a - BASE || a - BASE + i <= k) ==> mem[k] == old(mem[k])
    {
      mem[a - BASE + i] := s[i];
      i := i + 1;
    }
    mem[a - BASE + i] := 0;
    end := a + i;
  }

  /** Words ending at `hi`, and strings starting there. */
  ghost predicate Frame(m: seq<Byte>, sb: nat, ws: seq<nat>, hi: nat, high: seq<Byte>) {
    Holds(m, sb, Words(ws)) && sb + 8 * |ws| == hi && Holds(m, hi, high)
  }

  lemma {:induction false} PushKeepsFrame(m: seq<Byte>, sb: nat, ws: seq<nat>, hi: nat, high: seq<Byte>, v: nat, m': seq<Byte>)
    requires Frame(m, sb, ws, hi, high) && BASE + 8 <= sb && Writes(m, sb - 8, Bytes(v, 8), m')
    ensures Frame(m', sb - 8, [v] + ws, hi, high)
  {
    WritesApart(m, sb - 8, Bytes(v, 8), m', sb, Words(ws));
    WritesApart(m, sb - 8, Bytes(v, 8), m', hi, high);
    HoldsBoth(m', sb - 8, Bytes(v, 8), Words(ws));
    assert ([v] + ws)[1..] == ws;
  }

  lemma {:induction false} CopyKeepsFrame(m: seq<Byte>, sb: nat, ws: seq<nat>, hi: nat, high: seq<Byte>, s: seq<Byte>, m': seq<Byte>)
    requires Frame(m, sb, ws, hi, high) && Writes(m, hi + |high|, s, m')
    ensures Frame(m', sb, ws, hi, high + s)
  {
    WritesApart(m, hi + |high|, s, m', sb, Words(ws));
    WritesApart(m, hi + |high|, s, m', hi, high);
    HoldsBoth(m', hi, high, s);
  }

  method Push(mem: array<Byte>, sb: nat, v: nat, ghost ws: seq<nat>, ghost hi: nat, ghost high: seq<Byte>) returns (sb': nat)
    requires mem.Length == SIZE && Frame(mem[..], sb, ws, hi, high) && BASE + 8 <= sb
    modifies mem
    ensures sb' == sb - 8 && Frame(mem[..], sb', [v] + ws, hi, high)
  {
    sb' := sb - 8;
    StoreWord(mem, sb', v);
    PushKeepsFrame(old(mem[..]), sb, ws, hi, high, v, mem[..]);
  }

  lemma {:induction false} OneMore(strs: seq<Text>, i: nat, at: nat)
    requires 0 < i <= |strs|
    ensures Blob(strs[i - 1..]) == Blob(strs[i..]) + (strs[i - 1] + [0])
    ensures Starts(strs[i - 1..], at) == [at + |Blob(strs[i..])|] + Starts(strs[i..], at)
  {
    assert strs[i - 1..][1..] == strs[i..] && strs[i - 1..][0] == strs[i - 1];
    assert Blob(strs[i..]) + strs[i - 1] + [0] == Blob(strs[i..]) + (strs[i - 1] + [0]);
  }

  /** The loop over envp or argv: each string is copied behind the ones before, and
      its address pushed. */
  method PushStrings(mem: array<Byte>, sb: nat, data: nat, strs: seq<Text>, ghost ws: seq<nat>, ghost hi: nat, ghost high: seq<Byte>)
    returns (sb': nat, data': nat)
    requires mem.Length == SIZE && Frame(mem[..], sb, ws, hi, high) && data == hi + |high|
    requires BASE + 8 * |strs| <= sb && data + |Blob(strs)| <= TOP
    modifies mem
    ensures sb' == sb - 8 * |strs| && data' == data + |Blob(strs)|
    ensures Frame(mem[..], sb', Starts(strs, data) + ws, hi, high + Blob(strs))
  {
    sb', data' := sb, data;
    var i := |strs|;
    Nothing(strs, data, ws, high);
    while i > 0
      invariant 0 <= i <= |strs| && sb' == sb - 8 * (|strs| - i) && data' == data + |Blob(strs[i..])| && |Blob(strs[i..])| <= |Blob(strs)|
      invariant Frame(mem[..], sb', Starts(strs[i..], data) + ws, hi, high + Blob(strs[i..]))
    {
      OneMore(strs, i, data);
      BlobGrows(strs, i - 1);
      ghost var ws', high' := Starts(strs[i..], data) + ws, high + Blob(strs[i..]);
      ghost var m := mem[..];
      var next := CopyString(mem, data', strs[i - 1]);
      CopyKeepsFrame(m, sb', ws', hi, high', strs[i - 1] + [0], mem[..]);
      sb' := Push(mem, sb', data', ws', hi, high' + (strs[i - 1] + [0]));
      Regroup(data', Starts(strs[i..], data), ws, high, Blob(strs[i..]), strs[i - 1] + [0]);
      data' := next + 1;
      i := i - 1;
    }
    assert strs[0..] == strs;
  }

  lemma {:induction false} Nothing(strs: seq<Text>, at: nat, ws: seq<nat>, high: seq<Byte>)
    ensures strs[|strs|..] == [] && Blob(strs[|strs|..]) == []
    ensures Starts(strs[|strs|..], at) + ws == ws && high + Blob(strs[|strs|..]) == high
  {
    assert strs[|strs|..] == [];
  }

  lemma {:induction false} Regroup(v: nat, ps: seq<nat>, ws: seq<nat>, high: seq<Byte>, blob: seq<Byte>, s: seq<Byte>)
    ensures [v] + (ps + ws) == [v] + ps + ws && high + blob + s == high + (blob + s)
  {
  }

  lemma {:induction false} BlobGrows(strs: seq<Text>, i: nat)
    requires i <= |strs|
    ensures |Blob(strs[i..])| <= |Blob(strs)|
    decreases i
  {
    if i == 0 {
      assert strs[0..] == strs;
    } else {
      BlobGrows(strs, i - 1);
      OneMore(strs, i, 0);
    }
  }

  // The auxiliary vector.

  /** What the loader provides, in its order. */
  function Vector(phdr: nat, phent: nat, phnum: nat, random: nat): seq<(nat, nat)> {
    [(3, phdr), (4, phent), (5, phnum), (6, 4096), (11, 0), (12, 0), (13, 0), (14, 0), (23, 0), (25, random), (17, 100)]
  }

  /** getauxval: the value of the first entry of a type. */
  function ValueOf(aux: seq<(nat, nat)>, kind: nat): Option<nat> {
    if aux == [] then None else if aux[0].0 == kind then Some(aux[0].1) else ValueOf(aux[1..], kind)
  }

  /** What a program finds in the vector (section 3.4.3 of the System V psABI for AMD64):
      the program headers, the page size, no privileges, the random bytes, the clock. */
  ghost predicate Described(aux: seq<(nat, nat)>, phdr: nat, phent: nat, phnum: nat, random: nat) {
    && ValueOf(aux, 3) == Some(phdr) && ValueOf(aux, 4) == Some(phent) && ValueOf(aux, 5) == Some(phnum)
    && ValueOf(aux, 6) == Some(4096) && ValueOf(aux, 25) == Some(random) && ValueOf(aux, 17) == Some(100)
    && (forall kind :: 11 <= kind <= 14 || kind == 23 ==> ValueOf(aux, kind) == Some(0))
  }

  /** The random bytes are at this address. */
  ghost predicate RandomAt(m: seq<Byte>, a: int, r0: nat, r1: nat) {
    |m| == SIZE && BASE <= a <= TOP - 16 && Word(m, a) == r0 && Word(m, a + 8) == r1
  }

  lemma {:induction false} Skip(e: (nat, nat), rest: seq<(nat, nat)>, kind: nat)
    ensures ValueOf([e] + rest, kind) == if e.0 == kind then Some(e.1) else ValueOf(rest, kind)
  {
    assert ([e] + rest)[1..] == rest;
  }

  lemma {:induction false} Skip4(a: (nat, nat), b: (nat, nat), c: (nat, nat), d: (nat, nat), rest: seq<(nat, nat)>, kind: nat)
    ensures ValueOf([a] + ([b] + ([c] + ([d] + rest))), kind)
         == if a.0 == kind then Some(a.1) else if b.0 == kind then Some(b.1) else if c.0 == kind then Some(c.1)
            else if d.0 == kind then Some(d.1) else ValueOf(rest, kind)
  {
    Skip(a, [b] + ([c] + ([d] + rest)), kind);
    Skip(b, [c] + ([d] + rest), kind);
    Skip(c, [d] + rest, kind);
    Skip(d, rest, kind);
  }

  lemma {:induction false} VectorHas(phdr: nat, phent: nat, phnum: nat, random: nat, kind: nat)
    ensures ValueOf(Vector(phdr, phent, phnum, random), kind)
         == if kind == 3 then Some(phdr) else if kind == 4 then Some(phent) else if kind == 5 then Some(phnum)
            else if kind == 6 then Some(4096) else if 11 <= kind <= 14 || kind == 23 then Some(0)
            else if kind == 25 then Some(random) else if kind == 17 then Some(100) else None
  {
    var t8 := [(23, 0)] + ([(25, random)] + ([(17, 100)] + []));
    var t4 := [(11, 0)] + ([(12, 0)] + ([(13, 0)] + ([(14, 0)] + t8)));
    assert Vector(phdr, phent, phnum, random) == [(3, phdr)] + ([(4, phent)] + ([(5, phnum)] + ([(6, 4096)] + t4)));
    Skip4((3, phdr), (4, phent), (5, phnum), (6, 4096), t4, kind);
    Skip4((11, 0), (12, 0), (13, 0), (14, 0), t8, kind);
    Skip((23, 0), [(25, random)] + ([(17, 100)] + []), kind);
    Skip((25, random), [(17, 100)] + [], kind);
    Skip((17, 100), [], kind);
  }

  lemma {:induction false} VectorDescribes(phdr: nat, phent: nat, phnum: nat, random: nat)
    ensures Described(Vector(phdr, phent, phnum, random), phdr, phent, phnum, random)
  {
    VectorHas(phdr, phent, phnum, random, 3);
    VectorHas(phdr, phent, phnum, random, 4);
    VectorHas(phdr, phent, phnum, random, 5);
    VectorHas(phdr, phent, phnum, random, 6);
    VectorHas(phdr, phent, phnum, random, 25);
    VectorHas(phdr, phent, phnum, random, 17);
    forall kind: nat | 11 <= kind <= 14 || kind == 23 ensures ValueOf(Vector(phdr, phent, phnum, random), kind) == Some(0) {
      VectorHas(phdr, phent, phnum, random, kind);
    }
  }

  /** Changing the value of one entry changes one word. */
  lemma {:induction false} AuxEntry(aux: seq<(nat, nat)>, k: nat, v: nat)
    requires k < |aux|
    ensures AuxWords(aux[k := (aux[k].0, v)]) == AuxWords(aux)[2 * k + 1 := v]
    decreases |aux|
  {
    var aux' := aux[k := (aux[k].0, v)];
    if k == 0 {
      assert aux'[1..] == aux[1..];
    } else {
      assert aux'[1..] == aux[1..][k - 1 := (aux[k].0, v)];
      AuxEntry(aux[1..], k - 1, v);
    }
  }

  /** Replacing the middle of three pieces. */
  lemma {:induction false} WriteMiddle(m: seq<Byte>, a: nat, l: seq<Byte>, x: seq<Byte>, r: seq<Byte>, y: seq<Byte>, m': seq<Byte>)
    requires Holds(m, a, l + (x + r)) && |y| == |x| && Writes(m, a + |l|, y, m')
    ensures Holds(m', a, l + (y + r))
  {
    HoldsBoth(m, a, l, x + r);
    HoldsBoth(m, a + |l|, x, r);
    WritesApart(m, a + |l|, y, m', a, l);
    WritesApart(m, a + |l|, y, m', a + |l| + |y|, r);
    HoldsBoth(m', a + |l|, y, r);
    HoldsBoth(m', a, l, y + r);
  }

  lemma {:induction false} WriteInside(m: seq<Byte>, a: nat, ws: seq<nat>, k: nat, v: nat, m': seq<Byte>)
    requires Holds(m, a, Words(ws)) && k < |ws| && Writes(m, a + 8 * k, Bytes(v, 8), m')
    ensures Holds(m', a, Words(ws[k := v]))
  {
    var l, r := ws[..k], ws[k + 1..];
    assert ws == l + ([ws[k]] + r) && ws[k := v] == l + ([v] + r);
    WordsCons(l, ws[k], r);
    WordsCons(l, v, r);
    WriteMiddle(m, a, Words(l), Bytes(ws[k], 8), Words(r), Bytes(v, 8), m');
  }

  lemma {:induction false} WriteBehind(m: seq<Byte>, a: nat, ws: seq<nat>, k: nat, m': seq<Byte>)
    requires k < |ws| && Holds(m, a, Words(ws[..k])) && Writes(m, a + 8 * k, Bytes(ws[k], 8), m')
    ensures Holds(m', a, Words(ws[..k + 1]))
  {
    WritesApart(m, a + 8 * k, Bytes(ws[k], 8), m', a, Words(ws[..k]));
    HoldsBoth(m', a, Words(ws[..k]), Bytes(ws[k], 8));
    assert ws[..k + 1] == ws[..k] + ([ws[k]] + []);
    WordsCons(ws[..k], ws[k], []);
  }

  lemma {:induction false} WordsCons(l: seq<nat>, v: nat, r: seq<nat>)
    ensures Words(l + ([v] + r)) == Words(l) + (Bytes(v, 8) + Words(r))
  {
    WordsAppend(l, [v] + r);
    assert ([v] + r)[1..] == r;
  }

  /** Overwriting the value of auxiliary entry k. */
  method SetAux(mem: array<Byte>, a: nat, k: nat, v: nat, ghost aux: seq<(nat, nat)>, ghost tail: seq<nat>)
    requires mem.Length == SIZE && k < |aux| && Holds(mem[..], a, Words(AuxWords(aux) + tail))
    modifies mem
    ensures Holds(mem[..], a, Words(AuxWords(aux[k := (aux[k].0, v)]) + tail))
  {
    ghost var ws := AuxWords(aux) + tail;
    StoreWord(mem, a + 8 * (2 * k + 1), v);
    WriteInside(old(mem[..]), a, ws, 2 * k + 1, v, mem[..]);
    AuxEntry(aux, k, v);
    assert ws[2 * k + 1 := v] == AuxWords(aux)[2 * k + 1 := v] + tail;
  }

  /** kmemcpy of whole words. */
  method CopyWords(mem: array<Byte>, a: nat, ws: seq<nat>)
    requires mem.Length == SIZE && BASE <= a && a + 8 * |ws| <= TOP
    modifies mem
    ensures Holds(mem[..], a, Words(ws))
  {
    var i := 0;
    assert ws[..0] == [];
    while i < |ws|
      invariant 0 <= i <= |ws| && Holds(mem[..], a, Words(ws[..i]))
    {
      ghost var m := mem[..];
      StoreWord(mem, a + 8 * i, ws[i]);
      WriteBehind(m, a, ws, i, mem[..]);
      i := i + 1;
    }
    assert ws[..i] == ws;
  }

  /** Filling in the entries that differ from process to process. */
  method FillAux(mem: array<Byte>, a: nat, phdr: nat, phent: nat, phnum: nat, random: nat, ghost aux: seq<(nat, nat)>, ghost tail: seq<nat>)
    requires mem.Length == SIZE && |aux| == 11 && Holds(mem[..], a, Words(AuxWords(aux) + tail))
    modifies mem
    ensures Holds(mem[..], a, Words(AuxWords(Filled(aux, phdr, phent, phnum, random)) + tail))
  {
    SetAux(mem, a, 0, phdr, aux, tail);
    ghost var aux1 := aux[0 := (aux[0].0, phdr)];
    SetAux(mem, a, 1, phent, aux1, tail);
    ghost var aux2 := aux1[1 := (aux1[1].0, phent)];
    SetAux(mem, a, 2, phnum, aux2, tail);
    ghost var aux3 := aux2[2 := (aux2[2].0, phnum)];
    SetAux(mem, a, 9, random, aux3, tail);
    assert Filled(aux, phdr, phent, phnum, random) == aux3[9 := (aux3[9].0, random)];
  }

  function Filled(aux: seq<(nat, nat)>, phdr: nat, phent: nat, phnum: nat, random: nat): seq<(nat, nat)>
    requires |aux| == 11
  {
    aux[0 := (aux[0].0, phdr)][1 := (aux[1].0, phent)][2 := (aux[2].0, phnum)][9 := (aux[9].0, random)]
  }

  /** The default vector, the random bytes behind it, and the entries filled in. */
  method WriteAux(mem: array<Byte>, a: nat, defaults: seq<(nat, nat)>, phdr: nat, phent: nat, phnum: nat, random: nat, r0: nat, r1: nat)
    requires mem.Length == SIZE && BASE <= a && a + 208 <= TOP && |defaults| == 11
    modifies mem
    ensures Holds(mem[..], a, Words(AuxWords(Filled(defaults, phdr, phent, phnum, random)) + [r0, r1]))
  {
    var ws := AuxWords(defaults) + [r0, r1];
    CopyWords(mem, a, ws);
    FillAux(mem, a, phdr, phent, phnum, random, defaults, [r0, r1]);
  }

  // The whole image.

  /** Where the strings start. */
  function EnvAddr(argv: seq<Text>, envp: seq<Text>): int {
    var e := TOP - |Blob(argv)| - |Blob(envp)|;
    e - e % 16 - if (|argv| + |envp|) % 2 == 0 then 8 else 0
  }

  /** The initial stack pointer. */
  function StackPointer(argv: seq<Text>, envp: seq<Text>): int {
    EnvAddr(argv, envp) - 208 - 8 * (|argv| + |envp| + 3)
  }

  /** The stack pointer is 16-byte aligned whatever the numbers of strings are, and
      the strings end below the top. */
  lemma {:induction false} StackPointerAligned(argv: seq<Text>, envp: seq<Text>)
    ensures StackPointer(argv, envp) % 16 == 0
    ensures TOP - 24 < EnvAddr(argv, envp) + |Blob(envp)| + |Blob(argv)| <= TOP
    ensures StackPointer(argv, envp) == EnvAddr(argv, envp) - 208 - 8 * (|argv| + |envp| + 3)
  {
    var n := |argv| + |envp|;
    var e := TOP - |Blob(argv)| - |Blob(envp)|;
    assert (e - e % 16) % 16 == 0;
    if n % 2 == 0 {
      assert n == 2 * (n / 2);
    } else {
      assert n == 2 * (n / 2) + 1;
    }
  }

  /** The loop that adds up string lengths with their terminators. */
  method TotalLength(strs: seq<Text>) returns (n: nat)
    ensures n == |Blob(strs)|
  {
    n := 0;
    var i := 0;
    assert strs[0..] == strs;
    while i < |strs|
      invariant 0 <= i <= |strs| && n + |Blob(strs[i..])| == |Blob(strs)|
    {
      OneMore(strs, i + 1, 0);
      n := n + |strs[i]| + 1;
      i := i + 1;
    }
    assert strs[i..] == [];
  }

  lemma {:induction false} StartsOK(strs: seq<Text>, at: nat)
    requires 0 < at && at + |Blob(strs)| < WORD
    ensures PointersOK(Starts(strs, at))
    decreases |strs|
  {
    if strs != [] {
      StartsOK(strs[1..], at);
    }
  }

  /** The stack that the loader leaves parses to what it was given. */
  lemma {:induction false} BuiltStackParses(m: seq<Byte>, rsp: nat, hi: nat, argv: seq<Text>, envp: seq<Text>, aux: seq<(nat, nat)>, random: seq<nat>)
    requires Terminated(argv) && Terminated(envp) && AuxOK(aux) && |argv| < WORD
    requires Frame(m, rsp, StackWords(Starts(argv, hi + |Blob(envp)|), Starts(envp, hi), aux, random), hi, Blob(envp) + Blob(argv))
    ensures Parse(m, rsp) == Some(Image(|argv|, argv, envp, aux))
  {
    var envAt, argAt := hi, hi + |Blob(envp)|;
    HoldsBoth(m, hi, Blob(envp), Blob(argv));
    StringsHeld(m, envAt, envp);
    StringsHeld(m, argAt, argv);
    StartsOK(envp, envAt);
    StartsOK(argv, argAt);
    WordsHeld(m, rsp, StackWords(Starts(argv, argAt), Starts(envp, envAt), aux, random));
    StackParses(m, rsp, Starts(argv, argAt), Starts(envp, envAt), aux, random, argv, envp);
  }

  lemma {:induction false} VectorOK(phdr: nat, phent: nat, phnum: nat, random: nat)
    requires phdr < WORD && phent < WORD && phnum < WORD && random < WORD
    ensures AuxOK(Vector(phdr, phent, phnum, random)) && |Vector(phdr, phent, phnum, random)| == 11
    ensures Filled(Vector(0, 0, 0, 0), phdr, phent, phnum, random) == Vector(phdr, phent, phnum, random)
  {
  }

  /** The loader: builds the stack of a new process and returns its stack pointer.
      The vector's values and the two random words come from elsewhere. */
  method Build(mem: array<Byte>, argv: seq<Text>, envp: seq<Text>, phdr: nat, phent: nat, phnum: nat, r0: nat, r1: nat) returns (rsp: nat)
    requires mem.Length == SIZE && Terminated(argv) && Terminated(envp)
    requires phdr < WORD && phent < WORD && phnum < WORD
    requires BASE <= StackPointer(argv, envp)
    modifies mem
    ensures rsp == StackPointer(argv, envp) && rsp % 16 == 0
    ensures Parse(mem[..], rsp) == Some(Image(|argv|, argv, envp, Vector(phdr, phent, phnum, EnvAddr(argv, envp) - 16)))
    ensures r0 < WORD && r1 < WORD ==> RandomAt(mem[..], EnvAddr(argv, envp) - 16, r0, r1)
  {
    StackPointerAligned(argv, envp);
    var env := PlaceStrings(argv, envp);
    rsp := BuildAbove(mem, env, argv, envp, phdr, phent, phnum, r0, r1);
  }

  method BuildAbove(mem: array<Byte>, env: nat, argv: seq<Text>, envp: seq<Text>, phdr: nat, phent: nat, phnum: nat, r0: nat, r1: nat)
    returns (rsp: nat)
    requires mem.Length == SIZE && Terminated(argv) && Terminated(envp)
    requires phdr < WORD && phent < WORD && phnum < WORD
    requires env + |Blob(envp)| + |Blob(argv)| <= TOP && BASE + 208 + 8 * (|argv| + |envp| + 3) <= env
    modifies mem
    ensures rsp == env - 208 - 8 * (|argv| + |envp| + 3)
    ensures Parse(mem[..], rsp) == Some(Image(|argv|, argv, envp, Vector(phdr, phent, phnum, env - 16)))
    ensures r0 < WORD && r1 < WORD ==> RandomAt(mem[..], env - 16, r0, r1)
  {
    VectorOK(phdr, phent, phnum, env - 16);
    rsp := BuildAt(mem, env, argv, envp, Vector(0, 0, 0, 0), phdr, phent, phnum, r0, r1);
  }

  /** The address of the strings: room for all of them, aligned, and shifted by a word
      when the number of pointers is even. */
  method PlaceStrings(argv: seq<Text>, envp: seq<Text>) returns (env: int)
    ensures env == EnvAddr(argv, envp)
  {
    var argvLen := TotalLength(argv);
    var envpLen := TotalLength(envp);
    env := TOP - argvLen - envpLen;
    env := env - env % 16;
    if (|argv| + |envp|) % 2 == 0 {
      env := env - 8;
    }
  }

  /** The part below the strings' address. */
  method BuildAt(mem: array<Byte>, env: nat, argv: seq<Text>, envp: seq<Text>, defaults: seq<(nat, nat)>, phdr: nat, phent: nat, phnum: nat, r0: nat, r1: nat)
    returns (rsp: nat)
    requires mem.Length == SIZE && Terminated(argv) && Terminated(envp) && |defaults| == 11 && |argv| < WORD
    requires env + |Blob(envp)| + |Blob(argv)| <= TOP && BASE + 208 + 8 * (|argv| + |envp| + 3) <= env
    requires AuxOK(Filled(defaults, phdr, phent, phnum, env - 16))
    modifies mem
    ensures rsp == env - 208 - 8 * (|argv| + |envp| + 3)
    ensures Parse(mem[..], rsp) == Some(Image(|argv|, argv, envp, Filled(defaults, phdr, phent, phnum, env - 16)))
    ensures r0 < WORD && r1 < WORD ==> RandomAt(mem[..], env - 16, r0, r1)
  {
    var random := env - 16;
    var aux := random - 192;
    ghost var vector := Filled(defaults, phdr, phent, phnum, random);
    WriteAux(mem, aux, defaults, phdr, phent, phnum, random, r0, r1);
    rsp := PushAll(mem, aux, env, argv, envp, vector, [r0, r1]);
    BuiltStackParses(mem[..], rsp, env, argv, envp, vector, [r0, r1]);
    RandomHeld(mem[..], rsp, Starts(argv, env + |Blob(envp)|), Starts(envp, env), vector, env, Blob(envp) + Blob(argv), r0, r1);
  }

  /** The last two words below the strings. */
  lemma {:induction false} RandomHeld(m: seq<Byte>, rsp: nat, args: seq<nat>, envs: seq<nat>, aux: seq<(nat, nat)>, hi: nat, high: seq<Byte>, r0: nat, r1: nat)
    requires Frame(m, rsp, StackWords(args, envs, aux, [r0, r1]), hi, high)
    ensures r0 < WORD && r1 < WORD ==> RandomAt(m, hi - 16, r0, r1)
  {
    LastWords(m, rsp, StackWords(args, envs, aux, [r0, r1]), hi, high);
  }

  lemma {:induction false} LastWords(m: seq<Byte>, rsp: nat, ws: seq<nat>, hi: nat, high: seq<Byte>)
    requires Frame(m, rsp, ws, hi, high) && |ws| >= 2
    ensures var k := |ws| - 2; ws[k] < WORD && ws[k + 1] < WORD ==> RandomAt(m, hi - 16, ws[k], ws[k + 1])
  {
    var k := |ws| - 2;
    WordsHeld(m, rsp, ws);
    assert Entry(m, rsp, ws, k) && Entry(m, rsp, ws, k + 1);
  }

  /** Everything below the auxiliary vector, and the strings. */
  method PushAll(mem: array<Byte>, aux: nat, env: nat, argv: seq<Text>, envp: seq<Text>, ghost vector: seq<(nat, nat)>, ghost random: seq<nat>)
    returns (rsp: nat)
    requires mem.Length == SIZE && Holds(mem[..], aux, Words(AuxWords(vector) + random))
    requires aux + 8 * |AuxWords(vector) + random| == env && env + |Blob(envp)| + |Blob(argv)| <= TOP
    requires BASE + 8 * (|argv| + |envp| + 3) <= aux
    modifies mem
    ensures rsp == aux - 8 * (|argv| + |envp| + 3)
    ensures Frame(mem[..], rsp, StackWords(Starts(argv, env + |Blob(envp)|), Starts(envp, env), vector, random), env, Blob(envp) + Blob(argv))
  {
    ghost var ws := AuxWords(vector) + random;
    var data: nat;
    rsp := Push(mem, aux, 0, ws, env, []);
    rsp, data := PushStrings(mem, rsp, env, envp, [0] + ws, env, []);
    ghost var high := Blob(envp);
    assert [] + Blob(envp) == high;
    ghost var es := Starts(envp, env) + ([0] + ws);
    rsp := Push(mem, rsp, 0, es, env, high);
    rsp, data := PushStrings(mem, rsp, data, argv, [0] + es, env, high);
    ghost var args := Starts(argv, env + |Blob(envp)|);
    rsp := Push(mem, rsp, |argv|, args + ([0] + es), env, high + Blob(argv));
    Assemble(args, Starts(envp, env), AuxWords(vector), random);
  }

  lemma {:induction false} Assemble(args: seq<nat>, envs: seq<nat>, aux: seq<nat>, random: seq<nat>)
    ensures [|args|] + (args + ([0] + (envs + ([0] + (aux + random))))) == [|args|] + (args + [0]) + (envs + [0]) + aux + random
  {
  }
}
