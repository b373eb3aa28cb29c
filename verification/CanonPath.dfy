/**
  Path canonicalisation in find_mount: one right-to-left scan that writes the clean
  path backwards into a buffer, dropping "." and "..", repeated and trailing
  slashes, against left-to-right resolution with a stack of components.
 */
module CanonPath {
  import opened Wrappers

  type Text = seq<char>

  /** The pieces between slashes, empty ones included. */
  function Split(p: Text): (r: seq<Text>)
    ensures r != []
  {
    if p == [] then [[]]
    else if p[0] == '/' then [[]] + Split(p[1..])
    else [[p[0]] + Split(p[1..])[0]] + Split(p[1..])[1..]
  }

  predicate Neutral(c: Text) {
    c == "" || c == "."
  }

  // Left-to-right resolution: the reference (section 4.13 of the Base Definitions
  // of POSIX.1-2017, without symbolic links).

  /** One component against the stack of directories entered so far. */
  function Enter(stack: seq<Text>, c: Text): seq<Text> {
    if Neutral(c) then stack
    else if c == ".." then DropLast(stack, 1)
    else stack + [c]
  }

  function DropLast(stack: seq<Text>, n: nat): seq<Text> {
    if n >= |stack| then [] else stack[..|stack| - n]
  }

  function Walk(cs: seq<Text>): seq<Text>
    decreases |cs|
  {
    if cs == [] then [] else Enter(Walk(cs[..|cs| - 1]), cs[|cs| - 1])
  }

  /** The components an absolute path resolves to. */
  function Resolve(p: Text): seq<Text> {
    Walk(Split(p))
  }

  /** Where the first slash is; |p| without one. */
  function FirstSlash(p: Text): (r: nat)
    ensures r <= |p| && (forall k :: 0 <= k < r ==> p[k] != '/') && (r < |p| ==> p[r] == '/')
  {
    if p == [] || p[0] == '/' then 0 else FirstSlash(p[1..]) + 1
  }

  /** The clean path. What stands in front of the first slash is kept as it is, so that
      only absolute paths are resolved to their root. */
  function Canonical(p: Text): Text {
    var i := FirstSlash(p);
    if i == 0 then Joined(Resolve(p)) else p[..i] + Slashed(Resolve(p[i..]))
  }

  // Right-to-left resolution with a skip counter: the kernel's way.

  function Back(cs: seq<Text>, skip: nat): seq<Text>
    decreases |cs|
  {
    if cs == [] then []
    else
      var c, rest := cs[|cs| - 1], cs[..|cs| - 1];
      if Neutral(c) then Back(rest, skip)
      else if c == ".." then Back(rest, skip + 1)
      else if skip > 0 then Back(rest, skip - 1)
      else Back(rest, 0) + [c]
  }

  /** The skip counter stands for the directories still to be left. */
  lemma {:induction false} BackIsWalk(cs: seq<Text>, skip: nat)
    ensures Back(cs, skip) == DropLast(Walk(cs), skip)
    decreases |cs|
  {
    if cs != [] {
      var c, rest := cs[|cs| - 1], cs[..|cs| - 1];
      var w := Walk(rest);
      BackIsWalk(rest, skip);
      BackIsWalk(rest, skip + 1);
      BackIsWalk(rest, if skip > 0 then skip - 1 else 0);
      if !Neutral(c) && c != ".." && skip > 0 {
        assert DropLast(w + [c], skip) == DropLast(w, skip - 1);
      }
    }
  }

  // Rendering.

  /** Components with a slash in front of each. */
  function Slashed(cs: seq<Text>): Text {
    if cs == [] then [] else ['/'] + cs[0] + Slashed(cs[1..])
  }

  /** Components separated by slashes. */
  function Joined(cs: seq<Text>): Text {
    if cs == [] then [] else cs[0] + Slashed(cs[1..])
  }

  ghost predicate NoSlash(c: Text) {
    '/' !in c
  }

  /** Taking the last component off a path. */
  lemma {:induction false} SplitLast(a: Text, c: Text)
    requires NoSlash(c)
    ensures Split(a + ['/'] + c) == Split(a) + [c]
    decreases |a|
  {
    var p := a + ['/'] + c;
    if a == [] {
      assert p[1..] == c;
      SplitPlain(c);
    } else {
      assert p[1..] == a[1..] + ['/'] + c;
      SplitLast(a[1..], c);
    }
  }

  lemma {:induction false} SplitPlain(c: Text)
    requires NoSlash(c)
    ensures Split(c) == [c]
  {
    if c != [] {
      assert NoSlash(c[1..]);
      SplitPlain(c[1..]);
      assert [c[0]] + c[1..] == c;
    }
  }

  // The scan.

  ghost predicate DotsOnly(c: Text) {
    forall i :: 0 <= i < |c| ==> c[i] == '.'
  }

  lemma {:induction false} DotComponents(c: Text)
    ensures DotsOnly(c) && |c| == 1 <==> c == "."
    ensures DotsOnly(c) && |c| == 2 <==> c == ".."
  {
  }

  lemma {:induction false} LongerComponent(x: char, c: Text)
    requires x != '/' && NoSlash(c)
    ensures NoSlash([x] + c) && (DotsOnly([x] + c) <==> x == '.' && DotsOnly(c))
  {
    assert ([x] + c)[0] == x;
    assert forall i :: 0 <= i < |c| ==> ([x] + c)[i + 1] == c[i];
  }

  /** The skip counter and the kept components after a complete component c. */
  ghost function SkipAfter(c: Text, skip: nat): nat {
    if Neutral(c) then skip else if c == ".." then skip + 1 else if skip > 0 then skip - 1 else 0
  }

  ghost function KeptAfter(c: Text, skip: nat, kept: seq<Text>): seq<Text> {
    if Neutral(c) || c == ".." || skip > 0 then kept else [c] + kept
  }

  /** A slash does not change the outcome, only how much of it is already decided. */
  lemma {:induction false} BackStep(a: Text, c: Text, skip: nat, kept: seq<Text>)
    requires NoSlash(c)
    ensures Back(Split(a + ['/'] + c), skip) + kept == Back(Split(a), SkipAfter(c, skip)) + KeptAfter(c, skip, kept)
  {
    SplitLast(a, c);
    var cs := Split(a) + [c];
    assert cs[..|cs| - 1] == Split(a);
    assert Back(Split(a), 0) + [c] + kept == Back(Split(a), 0) + ([c] + kept);
  }

  /** The buffer from index w + 1 on: the component being copied, then the kept ones. */
  ghost predicate Holds(buf: seq<char>, w: int, cur: Text, kept: seq<Text>) {
    -1 <= w < |buf| && buf[w + 1..] == cur + Slashed(kept) + ['\0']
  }

  lemma {:induction false} HoldsEnd(buf: seq<char>, w: int, cur: Text, kept: seq<Text>)
    requires Holds(buf, w, cur, kept)
    ensures w + 1 < |buf| && buf[|buf| - 1] == '\0'
  {
    var tail := buf[w + 1..];
    assert tail[|tail| - 1] == '\0';
  }

  /** Copying one character of a component. */
  method Copy(buf: array<char>, w: int, c: char, ghost cur: Text, ghost kept: seq<Text>)
    requires 0 <= w < buf.Length && Holds(buf[..], w, cur, kept)
    modifies buf
    ensures Holds(buf[..], w - 1, [c] + cur, kept)
  {
    ghost var tail := buf[..][w + 1..];
    buf[w] := c;
    assert buf[..][w..] == [c] + tail;
    assert [c] + (cur + Slashed(kept) + ['\0']) == [c] + cur + Slashed(kept) + ['\0'];
  }

  /** Giving up the component just copied. */
  lemma {:induction false} Forget(buf: seq<char>, w: int, cur: Text, kept: seq<Text>)
    requires Holds(buf, w, cur, kept)
    ensures Holds(buf, w + |cur|, [], kept)
  {
    assert |buf| - (w + 1) == |cur| + |Slashed(kept)| + 1;
    assert buf[w + 1 + |cur|..] == buf[w + 1..][|cur|..];
    assert (cur + Slashed(kept) + ['\0'])[|cur|..] == [] + Slashed(kept) + ['\0'];
  }

  /** Keeping it, with a slash in front. */
  lemma {:induction false} Keep(buf: seq<char>, w: int, cur: Text, kept: seq<Text>)
    requires Holds(buf, w, ['/'] + cur, kept)
    ensures Holds(buf, w, [], [cur] + kept)
  {
    assert ([cur] + kept)[1..] == kept;
    assert Slashed([cur] + kept) == ['/'] + cur + Slashed(kept);
  }

  /** The scan at a slash. */
  method AtSlash(buf: array<char>, w: int, num: nat, skip: nat, dots: bool, ghost cur: Text, ghost kept: seq<Text>)
    returns (w': int, skip': nat)
    requires 0 <= w < buf.Length && Holds(buf[..], w, cur, kept) && num == |cur| && (dots <==> DotsOnly(cur))
    modifies buf
    ensures w - 1 <= w' && Holds(buf[..], w', [], KeptAfter(cur, skip, kept)) && skip' == SkipAfter(cur, skip)
  {
    w', skip' := w, skip;
    DotComponents(cur);
    Forget(buf[..], w, cur, kept);
    if dots && num == 1 {
      w' := w + num;
    } else if dots && num == 2 {
      skip' := skip + 1;
      w' := w + num;
    } else if num > 0 {
      if skip > 0 {
        w' := w + num;
        skip' := skip - 1;
      } else {
        Copy(buf, w, '/', cur, kept);
        w' := w - 1;
        Keep(buf[..], w', cur, kept);
      }
    }
  }

  /** The start of an absolute path: what is kept is the whole outcome. */
  lemma {:induction false} BackOfNothing(skip: nat)
    ensures Back(Split(""), skip) == []
  {
    assert Back([""], skip) == Back([], skip);
  }

  /** Where the scan stands: path[..r + 1] is unread, `cur` is the component being
      read, and what is decided so far leaves the outcome unchanged. */
  ghost predicate Reading(path: Text, r: int, cur: Text, skip: nat, kept: seq<Text>) {
    && -1 <= r && r + 1 + |cur| <= |path| && cur == path[r + 1..r + 1 + |cur|] && NoSlash(cur)
    && FirstSlash(path) <= r + 1 + |cur|
    && Back(Split(path[FirstSlash(path)..r + 1 + |cur|]), skip) + kept == Back(Split(path[FirstSlash(path)..]), 0)
    && (r + 1 < |path| && path[r + 1] == '/' ==> cur == [])
  }

  lemma {:induction false} ReadSlash(path: Text, r: int, cur: Text, skip: nat, kept: seq<Text>)
    requires 0 <= r && Reading(path, r, cur, skip, kept) && path[r] == '/'
    ensures Reading(path, r - 1, [], SkipAfter(cur, skip), KeptAfter(cur, skip, kept))
  {
    var i := FirstSlash(path);
    assert path[i..r + 1 + |cur|] == path[i..r] + ['/'] + cur;
    BackStep(path[i..r], cur, skip, kept);
  }

  lemma {:induction false} ReadChar(path: Text, r: int, cur: Text, skip: nat, kept: seq<Text>)
    requires 0 <= r && Reading(path, r, cur, skip, kept) && path[r] != '/'
    ensures Reading(path, r - 1, [path[r]] + cur, skip, kept)
  {
    LongerComponent(path[r], cur);
  }

  /** The variables of the scan, and the buffer, agree with where it stands. Only those
      who mention the key see how, so that the loop itself does not unfold it. */
  ghost predicate Scanning(path: Text, buf: seq<char>, r: int, w: int, num: int, skip: nat, dots: bool, cur: Text, kept: seq<Text>) {
    && |buf| == |path| + 1 && -1 <= r <= w < |path| && num == |cur|
    && (forall key {:trigger Opened(key)} :: Opened(key) ==>
          Holds(buf, w, cur, kept) && (dots <==> DotsOnly(cur)) && Reading(path, r, cur, skip, kept))
  }

  /** One turn of the loop at a character that is not a slash. */
  method AtChar(path: Text, buf: array<char>, r: int, w: int, num: int, skip: nat, dots: bool, ghost cur: Text, ghost kept: seq<Text>)
    returns (num': int, dots': bool)
    requires 0 <= r && Scanning(path, buf[..], r, w, num, skip, dots, cur, kept) && path[r] != '/'
    modifies buf
    ensures Scanning(path, buf[..], r - 1, w - 1, num', skip, dots', [path[r]] + cur, kept)
  {
    assert Opened(true);
    ReadChar(path, r, cur, skip, kept);
    LongerComponent(path[r], cur);
    dots' := dots;
    if path[r] != '.' {
      dots' := false;
    }
    num' := num + 1;
    Copy(buf, w, path[r], cur, kept);
  }

  /** One turn of the loop at a slash. */
  method TurnAtSlash(path: Text, buf: array<char>, r: int, w: int, num: int, skip: nat, dots: bool, ghost cur: Text, ghost kept: seq<Text>)
    returns (w': int, skip': nat)
    requires 0 <= r && Scanning(path, buf[..], r, w, num, skip, dots, cur, kept) && path[r] == '/'
    modifies buf
    ensures Scanning(path, buf[..], r - 1, w', 0, skip', true, [], KeptAfter(cur, skip, kept))
  {
    assert Opened(true);
    ReadSlash(path, r, cur, skip, kept);
    w', skip' := AtSlash(buf, w, num, skip, dots, cur, kept);
  }

  lemma {:induction false} SlashFree(path: Text, cur: Text)
    requires |cur| <= |path| && cur == path[..|cur|] && NoSlash(cur)
    ensures forall k :: 0 <= k < |cur| ==> path[k] != '/'
  {
    assert forall k :: 0 <= k < |cur| ==> cur[k] == path[k];
  }

  lemma {:induction false} Begin(path: Text, buf: seq<char>)
    requires |buf| == |path| + 1 && buf[|path|] == '\0'
    ensures Scanning(path, buf, |path| - 1, |path| - 1, 0, 0, true, [], [])
  {
    var i := FirstSlash(path);
    assert path[i..|path|] == path[i..];
  }

  /** The loop: w is the last free index in front of what was written. */
  method Scan(path: Text, buf: array<char>) returns (w: int, num: int, skip: nat, dots: bool, ghost cur: Text, ghost kept: seq<Text>)
    requires buf.Length == |path| + 1 && buf[|path|] == '\0'
    modifies buf
    ensures Scanning(path, buf[..], -1, w, num, skip, dots, cur, kept)
  {
    var r := |path| - 1;
    num, skip, dots, w := 0, 0, true, r;
    kept, cur := [], [];
    Begin(path, buf[..]);
    while r >= 0
      invariant Scanning(path, buf[..], r, w, num, skip, dots, cur, kept)
      decreases r
    {
      if path[r] == '/' {
        ghost var skip0 := skip;
        w, skip := TurnAtSlash(path, buf, r, w, num, skip, dots, cur, kept);
        kept := KeptAfter(cur, skip0, kept);
        num, dots, cur := 0, true, [];
      } else {
        num, dots := AtChar(path, buf, r, w, num, skip, dots, cur, kept);
        w := w - 1;
        cur := [path[r]] + cur;
      }
      r := r - 1;
    }
  }

  /** The canonicaliser. `start` is where the clean path begins in the buffer. */
  method Canonicalise(path: Text) returns (buf: array<char>, start: nat)
    requires '\0' !in path
    ensures fresh(buf) && buf.Length == |path| + 1 && start <= |path|
    ensures buf[start..] == Canonical(path) + ['\0']
  {
    var len := |path|;
    buf := new char[len + 1];
    buf[len] := '\0';
    var w, num, skip, dots, cur, kept := Scan(path, buf);
    start := w + 1;
    Finish(path, buf[..], w, num, skip, dots, cur, kept);
    if buf[start] == '/' {
      start := start + 1;
    }
  }

  lemma {:induction false} Finish(path: Text, buf: seq<char>, w: int, num: int, skip: nat, dots: bool, cur: Text, kept: seq<Text>)
    requires Scanning(path, buf, -1, w, num, skip, dots, cur, kept)
    ensures w + 1 <= |path|
    ensures var start := if buf[w + 1] == '/' then w + 2 else w + 1;
      start <= |path| && buf[start..] == Canonical(path) + ['\0']
  {
    assert Opened(true);
    HoldsEnd(buf, w, cur, kept);
    Decided(path, cur, skip, kept);
    Cleaned(buf, w, cur, kept);
    assert cur == [] ==> path[FirstSlash(path)..] == path;
  }

  /** At the end of the scan everything behind the first slash is decided. */
  lemma {:induction false} Decided(path: Text, cur: Text, skip: nat, kept: seq<Text>)
    requires Reading(path, -1, cur, skip, kept)
    ensures cur == path[..FirstSlash(path)] && kept == Resolve(path[FirstSlash(path)..])
  {
    var i := FirstSlash(path);
    SlashFree(path, cur);
    assert path[i..i] == [];
    BackOfNothing(skip);
    BackIsWalk(Split(path[i..]), 0);
  }

  /** A leading slash is not part of the clean path. */
  lemma {:induction false} Cleaned(buf: seq<char>, w: int, cur: Text, kept: seq<Text>)
    requires Holds(buf, w, cur, kept) && w + 1 < |buf| && (cur != [] ==> cur[0] != '/')
    ensures var start := if buf[w + 1] == '/' then w + 2 else w + 1;
      start <= |buf| && buf[start..] == (if cur == [] then Joined(kept) else cur + Slashed(kept)) + ['\0']
  {
    var tail := buf[w + 1..];
    assert tail[0] == buf[w + 1];
    if cur == [] && kept != [] {
      var rest := Joined(kept) + ['\0'];
      assert Slashed(kept) == ['/'] + Joined(kept);
      assert tail == ['/'] + rest;
      assert buf[w + 2..] == tail[1..] == rest;
    }
  }

  // Idempotence.

  /** A component that survives resolution. */
  ghost predicate Proper(c: Text) {
    NoSlash(c) && !Neutral(c) && c != ".."
  }

  lemma {:induction false} SplitPieces(p: Text, i: nat)
    requires i < |Split(p)|
    ensures NoSlash(Split(p)[i])
  {
    if p != [] {
      var rest := Split(p[1..]);
      if p[0] == '/' {
        if i > 0 {
          SplitPieces(p[1..], i - 1);
        }
      } else {
        SplitPieces(p[1..], i);
      }
    }
  }

  lemma {:induction false} WalkIsProper(cs: seq<Text>)
    requires forall i :: 0 <= i < |cs| ==> NoSlash(cs[i])
    ensures forall i :: 0 <= i < |Walk(cs)| ==> Proper(Walk(cs)[i])
    decreases |cs|
  {
    if cs != [] {
      WalkIsProper(cs[..|cs| - 1]);
    }
  }

  lemma {:induction false} WalkOfProper(cs: seq<Text>)
    requires forall i :: 0 <= i < |cs| ==> Proper(cs[i])
    ensures Walk([""] + cs) == cs
    decreases |cs|
  {
    if cs == [] {
      assert Walk([""]) == Enter(Walk([]), "");
    } else {
      var rest, c := cs[..|cs| - 1], cs[|cs| - 1];
      WalkOfProper(rest);
      assert ([""] + cs)[..|cs|] == [""] + rest;
      assert rest + [c] == cs;
    }
  }

  lemma {:induction false} SplitSlashed(cs: seq<Text>)
    requires forall i :: 0 <= i < |cs| ==> NoSlash(cs[i])
    ensures Split(Slashed(cs)) == [""] + cs
    decreases |cs|
  {
    if cs != [] {
      var rest, c := cs[..|cs| - 1], cs[|cs| - 1];
      SplitSlashed(rest);
      SlashedLast(rest, c);
      assert rest + [c] == cs;
      SplitLast(Slashed(rest), c);
    }
  }

  lemma {:induction false} SlashedLast(cs: seq<Text>, c: Text)
    ensures Slashed(cs + [c]) == Slashed(cs) + ['/'] + c
    decreases |cs|
  {
    if cs == [] {
      assert cs + [c] == [c];
      assert Slashed([c]) == ['/'] + c + Slashed([c][1..]);
    } else {
      assert (cs + [c])[1..] == cs[1..] + [c];
      SlashedLast(cs[1..], c);
    }
  }

  /** The outcome has no ".", "..", empty component or slash left in it. */
  lemma {:induction false} ResolveIsProper(p: Text)
    ensures forall i :: 0 <= i < |Resolve(p)| ==> Proper(Resolve(p)[i])
  {
    forall i | 0 <= i < |Split(p)| ensures NoSlash(Split(p)[i]) {
      SplitPieces(p, i);
    }
    WalkIsProper(Split(p));
  }

  /** Canonicalising a clean path changes nothing. */
  lemma {:induction false} CanonIsIdempotent(p: Text)
    ensures Resolve(['/'] + Joined(Resolve(p))) == Resolve(p)
  {
    var cs := Resolve(p);
    ResolveIsProper(p);
    if cs == [] {
      assert ['/'] + Joined(cs) == ['/'];
      assert ['/'][1..] == [];
      assert Split(['/']) == ["", ""];
      WalkOfProper([""][1..]);
      assert Walk(["", ""]) == Enter(Walk([""]), "");
    } else {
      assert ['/'] + Joined(cs) == Slashed(cs);
      SplitSlashed(cs);
      WalkOfProper(cs);
    }
  }
}
