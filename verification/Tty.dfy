/**
  The cooked terminal: what tty_queue_read and tty_read mean. A queue of committed
  bytes, and a line that is edited in overwrite mode until it is committed.
 */
module Terminal {

  type Byte = b: nat | b < 256

  const BS: Byte := 0x08
  const DEL: Byte := 0x7f
  const ESC: Byte := 0x1b
  const CR: Byte := 0x0d
  const NL: Byte := 0x0a
  const SPACE: Byte := 0x20
  const BRACKET: Byte := 0x5b
  const RIGHT: Byte := 0x43
  const LEFT: Byte := 0x44
  const RING: nat := 0x4000
  const MAX_CSI: nat := 32

  /** `params` are the bytes of the last control sequence. */
  datatype Term = Term(committed: seq<Byte>, line: seq<Byte>, cursor: nat, esc: bool, csi: bool, params: seq<Byte>)

  const Fresh: Term := Term([], [], 0, false, false, [])

  ghost predicate TermOK(t: Term) {
    && t.cursor <= |t.line| && |t.params| <= MAX_CSI
    && |t.committed| + |t.line| < RING
    && (|t.committed| + |t.line| == RING - 1 ==> t.cursor == |t.line|)
  }

  /** The ring has no slot left behind the cursor. */
  predicate Full(t: Term) {
    |t.committed| + t.cursor == RING - 1
  }

  function MoveCursor(t: Term, b: Byte): Term {
    if b == RIGHT && t.cursor != |t.line| then t.(cursor := t.cursor + 1)
    else if b == LEFT && t.cursor != 0 then t.(cursor := t.cursor - 1)
    else t
  }

  /** One byte of a control sequence; a final byte ends it. */
  function Control(t: Term, b: Byte): Term {
    if |t.params| == MAX_CSI then t.(csi := false)
    else
      var u := t.(params := t.params + [b]);
      if 0x40 <= b < 0x80 then MoveCursor(u.(csi := false), b) else u
  }

  /** Overwrite mode: a character replaces the one under the cursor. */
  function Overwrite(line: seq<Byte>, cursor: nat, b: Byte): seq<Byte>
    requires cursor <= |line|
  {
    if cursor < |line| then line[cursor := b] else line + [b]
  }

  function Wrote(t: Term, b: Byte): Term
    requires t.cursor <= |t.line|
  {
    t.(line := Overwrite(t.line, t.cursor, b), cursor := t.cursor + 1)
  }

  function Edit(t: Term, b: Byte): Term
    requires t.cursor <= |t.line|
  {
    if b == BS || b == DEL then
      if t.cursor == 0 then t else t.(cursor := t.cursor - 1, line := t.line[t.cursor - 1 := SPACE])
    else if b == CR || b == NL then
      t.(committed := t.committed + t.line + [NL], line := [], cursor := 0)
    else
      Wrote(t, b)
  }

  /** The terminal after one typed byte. */
  function Type(t: Term, b: Byte): Term
    requires t.cursor <= |t.line|
  {
    if b == 0 || Full(t) then t
    else if b == ESC then t.(esc := true)
    else if b == BRACKET && t.esc then t.(csi := true, params := [])
    else if t.csi then Control(t, b)
    else Edit(t.(esc := false), b)
  }

  /** What is echoed for it. */
  function Echo(t: Term, b: Byte): seq<Byte> {
    if b == 0 || Full(t) || b == ESC || (b == BRACKET && t.esc) then []
    else if t.csi then
      if |t.params| < MAX_CSI && ((b == RIGHT && t.cursor != |t.line|) || (b == LEFT && t.cursor != 0)) then [ESC, BRACKET, b] else []
    else if b == BS || b == DEL then (if t.cursor == 0 then [] else [BS, SPACE, BS])
    else if b == CR || b == NL then [CR, NL]
    else [b]
  }

  /** Whether the byte was taken. */
  predicate Accepted(t: Term, b: Byte) {
    !(b == 0 || Full(t))
    && (b == ESC || (b == BRACKET && t.esc)
        || (if t.csi then |t.params| < MAX_CSI else !((b == BS || b == DEL) && t.cursor == 0)))
  }

  /** A byte that is not taken leaves the line and the cursor alone; a plain one that is
      taken outside a control sequence is written. */
  lemma {:induction false} TakenOrNot(t: Term, b: Byte)
    requires TermOK(t)
    ensures !Accepted(t, b) ==> ScreenOf(Type(t, b)) == ScreenOf(t) && Type(t, b).committed == t.committed
    ensures Accepted(t, b) && Plain(b) && !t.csi && !(b == 0x5b && t.esc) ==> Type(t, b) == Wrote(t.(esc := false), b)
    ensures Accepted(t, b) && (b == 0x0d || b == 0x0a) && !t.csi ==> Type(t, b).committed == t.committed + t.line + [0x0a]
    ensures Accepted(t, b) && (b == 0x08 || b == 0x7f) && !t.csi ==> t.cursor > 0 && Type(t, b).cursor == t.cursor - 1
  {
  }

  /** Every typed byte keeps the invariant; in particular the ring can only be full
      with the cursor at the end of the line. */
  lemma {:induction false} TypeKeepsOK(t: Term, b: Byte)
    requires TermOK(t)
    ensures TermOK(Type(t, b))
  {
  }

  /** Typing only ever appends to the committed bytes, and only whole lines. */
  lemma {:induction false} TypeAppends(t: Term, b: Byte)
    requires TermOK(t)
    ensures Type(t, b).committed == t.committed + Commits(t, b)
  {
  }

  /** The line a typed byte commits, if any. */
  function Commits(t: Term, b: Byte): seq<Byte> {
    if !Full(t) && !t.csi && (b == CR || b == NL) then t.line + [NL] else []
  }

  /** How many bytes one locked pass of tty_read takes: up to `count`, and not past
      the first newline. */
  function Chunk(q: seq<Byte>, count: nat): (n: nat)
    ensures n <= |q| && n <= count
    ensures n < |q| && n < count ==> n > 0 && q[n - 1] == NL
    ensures forall i :: 0 <= i < n - 1 ==> q[i] != NL
    decreases |q|
  {
    if q == [] || count == 0 then 0
    else if q[0] == NL then 1
    else 1 + Chunk(q[1..], count - 1)
  }

  /** The terminal after such a pass. */
  function Taken(t: Term, count: nat): Term {
    t.(committed := t.committed[Chunk(t.committed, count)..])
  }

  lemma {:induction false} TakenKeepsOK(t: Term, count: nat)
    requires TermOK(t)
    ensures TermOK(Taken(t, count))
  {
  }

  // Whole runs.

  datatype Event = Typed(b: Byte) | Read(count: nat)

  /** The terminal after a run. */
  function After(t: Term, es: seq<Event>): (r: Term)
    requires TermOK(t)
    ensures TermOK(r)
    decreases |es|
  {
    if es == [] then t else After(Next(t, es[0]), es[1..])
  }

  function Next(t: Term, e: Event): (r: Term)
    requires TermOK(t)
    ensures TermOK(r)
  {
    match e
    case Typed(b) => TypeKeepsOK(t, b); Type(t, b)
    case Read(n) => TakenKeepsOK(t, n); Taken(t, n)
  }

  /** What a reader receives in one event, and what is committed in it. */
  function Reads(t: Term, e: Event): seq<Byte> {
    if e.Read? then t.committed[..Chunk(t.committed, e.count)] else []
  }

  function Adds(t: Term, e: Event): seq<Byte> {
    if e.Typed? then Commits(t, e.b) else []
  }

  /** Everything readers receive during a run. */
  function Received(t: Term, es: seq<Event>): seq<Byte>
    requires TermOK(t)
    decreases |es|
  {
    if es == [] then [] else Reads(t, es[0]) + Received(Next(t, es[0]), es[1..])
  }

  /** Everything committed during a run. */
  function Committed(t: Term, es: seq<Event>): seq<Byte>
    requires TermOK(t)
    decreases |es|
  {
    if es == [] then [] else Adds(t, es[0]) + Committed(Next(t, es[0]), es[1..])
  }

  lemma {:induction false} EventBalance(t: Term, e: Event)
    requires TermOK(t)
    ensures t.committed + Adds(t, e) == Reads(t, e) + Next(t, e).committed
  {
    match e
    case Typed(b) => TypeAppends(t, b);
    case Read(n) =>
  }

  lemma {:induction false} Balance(q: seq<Byte>, a: seq<Byte>, r: seq<Byte>, q': seq<Byte>, a': seq<Byte>, r': seq<Byte>, q'': seq<Byte>)
    requires q + a == r + q' && q' + a' == r' + q''
    ensures q + (a + a') == r + r' + q''
  {
    assert q + (a + a') == (q + a) + a';
    assert (r + q') + a' == r + (q' + a');
    assert r + (r' + q'') == r + r' + q'';
  }

  /** Readers receive exactly the committed bytes, in order, none lost or repeated. */
  lemma {:induction false} ReadersGetCommitted(t: Term, es: seq<Event>)
    requires TermOK(t)
    ensures t.committed + Committed(t, es) == Received(t, es) + After(t, es).committed
    decreases |es|
  {
    if es != [] {
      var u := Next(t, es[0]);
      EventBalance(t, es[0]);
      ReadersGetCommitted(u, es[1..]);
      Balance(t.committed, Adds(t, es[0]), Reads(t, es[0]), u.committed,
              Committed(u, es[1..]), Received(u, es[1..]), After(u, es[1..]).committed);
    }
  }

  /** A plain character: neither editing, nor end of line, nor an escape. */
  predicate Plain(b: Byte) {
    b != 0 && b != ESC && b != BS && b != DEL && b != CR && b != NL
  }

  function Keys(s: seq<Byte>): seq<Event> {
    seq(|s|, i requires 0 <= i < |s| => Typed(s[i]))
  }

  /** A terminal with the cursor behind `line` and no escape pending. */
  ghost predicate AtEnd(t: Term, line: seq<Byte>) {
    t.line == line && t.cursor == |line| && !t.esc && !t.csi
  }

  lemma {:induction false} TypePlain(t: Term, line: seq<Byte>, s: seq<Byte>)
    requires TermOK(t) && AtEnd(t, line) && |t.committed| + |line| + |s| < RING
    requires forall i :: 0 <= i < |s| ==> Plain(s[i])
    ensures var u := After(t, Keys(s)); AtEnd(u, line + s) && u.committed == t.committed
    decreases |s|
  {
    if s == [] {
      assert line + s == line;
    } else {
      var u := Next(t, Typed(s[0]));
      assert Keys(s)[1..] == Keys(s[1..]);
      TypePlain(u, line + [s[0]], s[1..]);
      assert line + [s[0]] + s[1..] == line + s;
    }
  }

  lemma {:induction false} AfterBoth(t: Term, es: seq<Event>, fs: seq<Event>)
    requires TermOK(t)
    ensures After(t, es + fs) == After(After(t, es), fs)
    decreases |es|
  {
    if es == [] {
      assert es + fs == fs;
    } else {
      assert (es + fs)[1..] == es[1..] + fs;
      AfterBoth(Next(t, es[0]), es[1..], fs);
    }
  }

  lemma {:induction false} KeysSplit(s: seq<Byte>, k: nat)
    requires k <= |s|
    ensures Keys(s) == Keys(s[..k]) + Keys(s[k..])
  {
  }

  /** A full ring takes no byte. */
  lemma {:induction false} FullStays(t: Term, es: seq<Event>)
    requires TermOK(t) && Full(t) && forall i :: 0 <= i < |es| ==> es[i].Typed?
    ensures After(t, es) == t
    decreases |es|
  {
    if es != [] {
      assert Next(t, es[0]) == t;
      FullStays(t, es[1..]);
    }
  }

  /** Typing more plain characters than fit fills the ring with the first ones and
      loses the others, whatever is typed after them. */
  lemma {:induction false} TypeTooMany(t: Term, s: seq<Byte>, es: seq<Event>)
    requires TermOK(t) && AtEnd(t, []) && |t.committed| + |s| >= RING - 1
    requires (forall i :: 0 <= i < |s| ==> Plain(s[i])) && forall i :: 0 <= i < |es| ==> es[i].Typed?
    ensures var u := After(t, Keys(s) + es);
      u.committed == t.committed && u.line == s[..RING - 1 - |t.committed|] && Full(u)
  {
    var k := RING - 1 - |t.committed|;
    TypePlain(t, [], s[..k]);
    assert [] + s[..k] == s[..k];
    var u := After(t, Keys(s[..k]));
    KeysSplit(s, k);
    assert Keys(s) + es == Keys(s[..k]) + (Keys(s[k..]) + es);
    AfterBoth(t, Keys(s[..k]), Keys(s[k..]) + es);
    FullStays(u, Keys(s[k..]) + es);
  }

  /** A line of plain characters and a return arrive as typed if and only if the ring
      has room for them. */
  lemma {:induction false} TypedLineArrivesIff(t: Term, s: seq<Byte>)
    requires TermOK(t) && AtEnd(t, []) && forall i :: 0 <= i < |s| ==> Plain(s[i])
    ensures After(t, Keys(s) + [Typed(0x0d)]).committed == t.committed + s + [0x0a] <==> |t.committed| + |s| < 0x3fff
  {
    if |t.committed| + |s| < RING - 1 {
      TypePlain(t, [], s);
      AfterBoth(t, Keys(s), [Typed(CR)]);
      assert [] + s == s;
      assert [Typed(CR)][1..] == [];
    } else {
      TypeTooMany(t, s, [Typed(CR)]);
    }
  }

  /** Typing RING - 1 or more plain characters into an empty terminal leaves it with a
      line that fills the ring and nothing to read. */
  lemma {:induction false} LongLineFillsRing(t: Term, s: seq<Byte>)
    requires TermOK(t) && AtEnd(t, []) && t.committed == [] && |s| >= RING - 1 && forall i :: 0 <= i < |s| ==> Plain(s[i])
    ensures var u := After(t, Keys(s)); u.committed == [] && |u.line| == RING - 1
  {
    TypeTooMany(t, s, []);
    assert Keys(s) + [] == Keys(s);
  }

  /** A line that fills the whole ring can neither be extended nor committed nor
      read: from then on nothing typed or read changes anything. */
  lemma {:induction false} FullLineWedges(t: Term, es: seq<Event>)
    requires TermOK(t) && t.committed == [] && |t.line| == RING - 1
    ensures After(t, es) == t && Received(t, es) == []
    decreases |es|
  {
    if es != [] {
      assert Next(t, es[0]) == t;
      FullLineWedges(t, es[1..]);
    }
  }

  /** Nothing that happens changes the terminal or gives a reader anything. */
  ghost predicate Wedged(t: Term)
    requires TermOK(t)
  {
    forall es :: After(t, es) == t && Received(t, es) == []
  }

  lemma {:induction false} OneEvent(t: Term, e: Event)
    requires TermOK(t) && Wedged(t)
    ensures Next(t, e) == t && Reads(t, e) == []
  {
    var es := [e];
    assert es[1..] == [];
    assert After(t, es) == Next(t, e) && Received(t, es) == Reads(t, e) + [];
    assert After(t, es) == t && Received(t, es) == [];
  }

  /** The terminal is wedged for good if and only if nothing is committed and the line
      fills the ring. */
  lemma {:induction false} WedgedIff(t: Term)
    requires TermOK(t)
    ensures Wedged(t) <==> t.committed == [] && |t.line| == 0x3fff
  {
    if t.committed == [] && |t.line| == RING - 1 {
      forall es ensures After(t, es) == t && Received(t, es) == [] {
        FullLineWedges(t, es);
      }
    }
    if Wedged(t) {
      OneEvent(t, Read(1));
      OneEvent(t, Typed(ESC));
      OneEvent(t, Typed(BRACKET));
      OneEvent(t, Typed(0x30));
      assert |t.params + [0x30]| == |t.params| + 1;
    }
  }

  // The escape flag.

  /** A typed '[' reaches the line if and only if the ring has room and no escape
      flag is set. */
  lemma {:induction false} BracketKeptIff(t: Term)
    requires TermOK(t)
    ensures Type(t, BRACKET) == Wrote(t.(esc := false), BRACKET) <==> !Full(t) && !t.esc && !t.csi
  {
    assert Wrote(t.(esc := false), BRACKET).cursor == t.cursor + 1;
  }

  /** Which bytes leave the escape flag set. */
  lemma {:induction false} EscapeSetIff(t: Term, b: Byte)
    requires TermOK(t)
    ensures Type(t, b).esc <==>
      if b == 0 || Full(t) then t.esc
      else b == ESC || (t.esc && (t.csi || b == BRACKET))
  {
    if !(b == 0 || Full(t)) && !t.esc && t.csi {
      assert !Control(t, b).esc;
    }
  }

  /** In every reachable state a control sequence is open only with the flag set. */
  lemma {:induction false} ControlHasEscape(t: Term, es: seq<Event>)
    requires TermOK(t) && (t.csi ==> t.esc)
    ensures After(t, es).csi ==> After(t, es).esc
    decreases |es|
  {
    if es != [] {
      ControlHasEscape(Next(t, es[0]), es[1..]);
    }
  }

  /** So every control sequence, however it ends, leaves the flag set, and the next '['
      opens another sequence instead of being typed. */
  lemma {:induction false} BracketAfterSequenceIsLost(es: seq<Event>, b: Byte)
    requires var t := After(Fresh, es); t.csi && !Type(t, b).csi && !Full(Type(t, b))
    ensures var u := Type(After(Fresh, es), b);
      u.esc && Type(u, BRACKET) == u.(csi := true, params := []) && Type(u, BRACKET) != Wrote(u.(esc := false), BRACKET)
  {
    ControlHasEscape(Fresh, es);
    TypeKeepsOK(After(Fresh, es), b);
    BracketKeptIff(Type(After(Fresh, es), b));
  }

  // What the user sees.

  /** The screen line with the cursor, on a display that knows the control characters and
      the two cursor movements of ECMA-48. */
  datatype Screen = Screen(text: seq<Byte>, column: nat)

  function Shown(s: Screen, b: Byte): Screen {
    if b == 0x08 then s.(column := if s.column > 0 then s.column - 1 else 0)
    else if b == 0x0d then s.(column := 0)
    else if b == 0x0a then s.(text := [])
    else if s.column < |s.text| then Screen(s.text[s.column := b], s.column + 1)
    else Screen(s.text + seq(s.column - |s.text|, _ => 0x20) + [b], s.column + 1)
  }

  function Display(s: Screen, out: seq<Byte>): Screen
    decreases |out|
  {
    if out == [] then s
    else if out[0] != 0x1b then Display(Shown(s, out[0]), out[1..])
    else if |out| < 3 || out[1] != 0x5b then s
    else if out[2] == 0x43 then Display(s.(column := s.column + 1), out[3..])
    else if out[2] == 0x44 then Display(s.(column := if s.column > 0 then s.column - 1 else 0), out[3..])
    else Display(s, out[3..])
  }

  function ScreenOf(t: Term): Screen {
    Screen(t.line, t.cursor)
  }

  lemma {:induction false} DisplayOne(s: Screen, b: Byte, rest: seq<Byte>)
    requires b != 0x1b
    ensures Display(s, [b] + rest) == Display(Shown(s, b), rest)
  {
    assert ([b] + rest)[1..] == rest;
  }

  lemma {:induction false} EraseShows(line: seq<Byte>, cursor: nat)
    requires 0 < cursor <= |line|
    ensures Display(Screen(line, cursor), [0x08, 0x20, 0x08]) == Screen(line[cursor - 1 := 0x20], cursor - 1)
  {
    var s0, s1, s2 := Screen(line, cursor), Screen(line, cursor - 1), Screen(line[cursor - 1 := 0x20], cursor);
    assert [0x08, 0x20, 0x08] == [0x08] + ([0x20] + ([0x08] + []));
    DisplayOne(s0, 0x08, [0x20] + ([0x08] + []));
    DisplayOne(s1, 0x20, [0x08] + []);
    DisplayOne(s2, 0x08, []);
  }

  lemma {:induction false} ReturnShows(line: seq<Byte>, cursor: nat)
    ensures Display(Screen(line, cursor), [0x0d, 0x0a]) == Screen([], 0)
  {
    assert [0x0d, 0x0a] == [0x0d] + ([0x0a] + []);
    DisplayOne(Screen(line, cursor), 0x0d, [0x0a] + []);
    DisplayOne(Screen(line, 0), 0x0a, []);
  }

  lemma {:induction false} CharShows(line: seq<Byte>, cursor: nat, b: Byte)
    requires cursor <= |line| && b != 0x08 && b != 0x0d && b != 0x0a && b != 0x1b
    ensures Display(Screen(line, cursor), [b]) == Screen(Overwrite(line, cursor, b), cursor + 1)
  {
    assert [b] == [b] + [];
    DisplayOne(Screen(line, cursor), b, []);
    if cursor == |line| {
      assert line + seq(0, _ => 0x20) + [b] == line + [b];
    }
  }

  /** The echo keeps the screen up to date: after every typed byte it shows the line as it
      is now, with the cursor where the next byte goes. */
  lemma {:induction false} EchoShowsLine(t: Term, b: Byte)
    requires TermOK(t)
    ensures Display(ScreenOf(t), Echo(t, b)) == ScreenOf(Type(t, b))
  {
    if b == 0 || Full(t) || b == ESC || (b == BRACKET && t.esc) {
    } else if t.csi {
      assert [ESC, BRACKET, b][3..] == [];
    } else if b == BS || b == DEL {
      if t.cursor > 0 {
        EraseShows(t.line, t.cursor);
      }
    } else if b == CR || b == NL {
      ReturnShows(t.line, t.cursor);
    } else {
      CharShows(t.line, t.cursor, b);
    }
  }

  // The editing keys.

  /** The terminal after these bytes. */
  ghost function AfterKeys(t: Term, s: seq<Byte>): (u: Term)
    requires TermOK(t)
    ensures TermOK(u)
  {
    After(t, Keys(s))
  }

  lemma {:induction false} OneKey(t: Term, b: Byte, rest: seq<Byte>)
    requires TermOK(t)
    ensures TermOK(Type(t, b)) && AfterKeys(t, [b] + rest) == AfterKeys(Type(t, b), rest)
  {
    TypeKeepsOK(t, b);
    var s := [b] + rest;
    assert s[1..] == rest && Keys(s)[1..] == Keys(rest) && Keys(s)[0] == Typed(b);
  }

  lemma {:induction false} MoreKeys(t: Term, a: seq<Byte>, b: seq<Byte>)
    requires TermOK(t)
    ensures AfterKeys(t, a + b) == AfterKeys(AfterKeys(t, a), b)
  {
    assert Keys(a + b) == Keys(a) + Keys(b);
    AfterBoth(t, Keys(a), Keys(b));
  }

  /** A cursor key is three bytes; it moves the cursor by one and leaves the rest alone. */
  lemma {:induction false} ArrowMoves(t: Term, b: Byte, rest: seq<Byte>)
    requires TermOK(t) && !Full(t) && !t.csi && (b == 0x43 || b == 0x44)
    ensures var k := if b == 0x44 then (if t.cursor > 0 then t.cursor - 1 else 0) else if t.cursor < |t.line| then t.cursor + 1 else t.cursor;
      var u := t.(cursor := k, esc := true, params := [b]);
      TermOK(u) && AfterKeys(t, [0x1b] + ([0x5b] + ([b] + rest))) == AfterKeys(u, rest)
  {
    var t1 := t.(esc := true);
    var t2 := t1.(csi := true, params := []);
    OneKey(t, 0x1b, [0x5b] + ([b] + rest));
    OneKey(t1, 0x5b, [b] + rest);
    OneKey(t2, b, rest);
    assert [] + [b] == [b];
  }

  /** A parameter or intermediate byte of a control sequence. */
  ghost predicate Parameter(b: Byte) {
    0 < b < 0x40 && b != 0x1b
  }

  lemma {:induction false} ParametersCollect(t: Term, ps: seq<Byte>, rest: seq<Byte>)
    requires TermOK(t) && !Full(t) && t.csi && |t.params| + |ps| <= 32 && forall i :: 0 <= i < |ps| ==> Parameter(ps[i])
    ensures AfterKeys(t, ps + rest) == AfterKeys(t.(params := t.params + ps), rest)
    decreases |ps|
  {
    if ps == [] {
      assert ps + rest == rest && t.params + ps == t.params;
    } else {
      var u := t.(params := t.params + [ps[0]]);
      assert Parameter(ps[0]);
      assert ps + rest == [ps[0]] + (ps[1..] + rest);
      OneKey(t, ps[0], ps[1..] + rest);
      ParametersCollect(u, ps[1..], rest);
      assert t.params + [ps[0]] + ps[1..] == t.params + ps;
    }
  }

  /** A cursor key with parameters is obeyed if they are at most 31 bytes; with 32 the
      final byte is dropped, and either way the sequence ends there. */
  lemma {:induction false} SequenceObeyedUpTo31(t: Term, ps: seq<Byte>, b: Byte)
    requires TermOK(t) && !Full(t) && 0x40 <= b < 0x80 && b != 0x5b && |ps| <= 32 && forall i :: 0 <= i < |ps| ==> Parameter(ps[i])
    ensures var u := AfterKeys(t, [0x1b] + ([0x5b] + (ps + ([b] + []))));
      && u.esc && !u.csi && u.line == t.line && u.committed == t.committed
      && u.cursor == if |ps| == 32 then t.cursor
                     else if b == 0x44 && t.cursor > 0 then t.cursor - 1
                     else if b == 0x43 && t.cursor < |t.line| then t.cursor + 1
                     else t.cursor
  {
    var t1 := t.(esc := true);
    var t2 := t1.(csi := true, params := []);
    OneKey(t, 0x1b, [0x5b] + (ps + ([b] + [])));
    OneKey(t1, 0x5b, ps + ([b] + []));
    ParametersCollect(t2, ps, [b] + []);
    assert [] + ps == ps;
    OneKey(t2.(params := ps), b, []);
    assert Keys([]) == [];
  }

  /** A line with room behind it that gets one more byte and a return. */
  lemma {:induction false} PutAndReturn(t: Term, c: Byte)
    requires TermOK(t) && |t.committed| + |t.line| < RING - 2 && !t.csi && Plain(c) && !(c == 0x5b && t.esc)
    ensures AfterKeys(t, [c] + ([0x0d] + [])).committed == t.committed + Overwrite(t.line, t.cursor, c) + [0x0a]
  {
    OneKey(t, c, [0x0d] + []);
    var u := Wrote(t.(esc := false), c);
    OneKey(u, 0x0d, []);
    assert Keys([]) == [];
  }

  /** Left: the next byte replaces the last one of the line. */
  lemma {:induction false} LeftReplacesLast(t: Term, s: seq<Byte>, c: Byte)
    requires TermOK(t) && AtEnd(t, []) && s != [] && |t.committed| + |s| < RING - 2 && Plain(c) && c != 0x5b
    requires forall i :: 0 <= i < |s| ==> Plain(s[i])
    ensures AfterKeys(t, s + ([0x1b] + ([0x5b] + ([0x44] + ([c] + ([0x0d] + [])))))).committed == t.committed + s[|s| - 1 := c] + [0x0a]
  {
    TypePlain(t, [], s);
    assert [] + s == s;
    var u := AfterKeys(t, s);
    MoreKeys(t, s, [0x1b] + ([0x5b] + ([0x44] + ([c] + ([0x0d] + [])))));
    ArrowMoves(u, 0x44, [c] + ([0x0d] + []));
    PutAndReturn(u.(cursor := |s| - 1, esc := true, params := [0x44]), c);
  }

  /** Left and right again: the next byte is appended. */
  lemma {:induction false} RightUndoesLeft(t: Term, s: seq<Byte>, c: Byte)
    requires TermOK(t) && AtEnd(t, []) && s != [] && |t.committed| + |s| < RING - 2 && Plain(c) && c != 0x5b
    requires forall i :: 0 <= i < |s| ==> Plain(s[i])
    ensures AfterKeys(t, s + ([0x1b] + ([0x5b] + ([0x44] + ([0x1b] + ([0x5b] + ([0x43] + ([c] + ([0x0d] + []))))))))).committed
         == t.committed + (s + [c]) + [0x0a]
  {
    TypePlain(t, [], s);
    assert [] + s == s;
    var u := AfterKeys(t, s);
    var rest := [0x1b] + ([0x5b] + ([0x43] + ([c] + ([0x0d] + []))));
    MoreKeys(t, s, [0x1b] + ([0x5b] + ([0x44] + rest)));
    ArrowMoves(u, 0x44, rest);
    var v := u.(cursor := |s| - 1, esc := true, params := [0x44]);
    ArrowMoves(v, 0x43, [c] + ([0x0d] + []));
    PutAndReturn(v.(cursor := |s|, params := [0x43]), c);
  }

  /** Backspace: the last byte becomes a space, and the next one replaces it. */
  lemma {:induction false} BackspaceReplacesLast(t: Term, s: seq<Byte>, b: Byte, c: Byte)
    requires TermOK(t) && AtEnd(t, []) && s != [] && |t.committed| + |s| < RING - 2 && Plain(c) && (b == 0x08 || b == 0x7f)
    requires forall i :: 0 <= i < |s| ==> Plain(s[i])
    ensures AfterKeys(t, s + ([b] + ([0x0d] + []))).committed == t.committed + s[|s| - 1 := 0x20] + [0x0a]
    ensures AfterKeys(t, s + ([b] + ([c] + ([0x0d] + [])))).committed == t.committed + s[|s| - 1 := c] + [0x0a]
  {
    TypePlain(t, [], s);
    assert [] + s == s;
    var u := AfterKeys(t, s);
    var v := u.(line := s[|s| - 1 := 0x20], cursor := |s| - 1);
    MoreKeys(t, s, [b] + ([0x0d] + []));
    OneKey(u, b, [0x0d] + []);
    OneKey(v, 0x0d, []);
    assert Keys([]) == [];
    MoreKeys(t, s, [b] + ([c] + ([0x0d] + [])));
    OneKey(u, b, [c] + ([0x0d] + []));
    PutAndReturn(v, c);
    assert s[|s| - 1 := 0x20][|s| - 1 := c] == s[|s| - 1 := c];
  }
}

/**
  The ring buffer that implements it: four indices into 2^14 slots.
 */
module TtyRing {
  import opened Terminal

  function Mask(i: int): (r: nat)
    ensures r < RING
  {
    i % 0x4000
  }

  /** Slots `from`, `from` + 1, ... of the ring hold `text`. */
  ghost predicate Spells(buf: seq<Byte>, from: nat, text: seq<Byte>) {
    |buf| == RING && forall i {:trigger text[i]} :: 0 <= i < |text| ==> buf[Mask(from + i)] == text[i]
  }

  lemma {:induction false} MaskApart(from: nat, i: nat, j: nat)
    requires i < RING && j < RING && i != j
    ensures Mask(from + i) != Mask(from + j)
  {
  }

  lemma {:induction false} MaskUp(x: nat)
    ensures Mask(Mask(x) + 1) == Mask(x + 1)
  {
  }

  lemma {:induction false} MaskDown(x: nat)
    ensures Mask(Mask(x) - 1) == Mask(x - 1)
  {
  }

  /** The comparisons of indices decide the comparisons of offsets. */
  lemma {:induction false} IndicesCompare(read: nat, ls: nat, write: nat, le: nat, t: Term)
    requires Indices(read, ls, write, le, t) && TermOK(t) && read < RING
    ensures write == le <==> t.cursor == |t.line|
    ensures write == ls <==> t.cursor == 0
    ensures read == ls <==> t.committed == []
    ensures Mask(write + 1) == read <==> Full(t)
  {
    var c := |t.committed|;
    if t.cursor != |t.line| {
      MaskApart(read, c + t.cursor, c + |t.line|);
    }
    if t.cursor != 0 {
      MaskApart(read, c + t.cursor, c);
    }
    if c != 0 {
      MaskApart(read, c, 0);
    }
    MaskUp(read + c + t.cursor);
    FullIndex(read, c + t.cursor);
  }

  lemma {:induction false} FullIndex(read: nat, n: nat)
    requires read < RING && n < RING
    ensures Mask(read + n + 1) == read <==> n == RING - 1
  {
  }

  /** Writing the slot of offset k. */
  lemma {:induction false} SpellsUpdated(buf: seq<Byte>, from: nat, text: seq<Byte>, k: nat, b: Byte)
    requires Spells(buf, from, text) && |text| < RING && k <= |text|
    ensures Spells(buf[Mask(from + k) := b], from, if k < |text| then text[k := b] else text + [b])
  {
    var buf', text' := buf[Mask(from + k) := b], if k < |text| then text[k := b] else text + [b];
    forall i | 0 <= i < |text'| ensures buf'[Mask(from + i)] == text'[i] {
      if i != k {
        MaskApart(from, i, k);
        assert text'[i] == text[i];
      }
    }
  }

  class Tty {
    const buf: array<Byte>
    const csi: array<Byte>
    var readIndex: nat
    var lsIndex: nat
    var writeIndex: nat
    var leIndex: nat
    var fEsc: bool
    var fCsi: bool
    var csiIndex: nat
    var output: seq<Byte>
    ghost var term: Term

    ghost predicate Valid()
      reads this, buf, csi
    {
      && buf.Length == RING && csi.Length == MAX_CSI && buf != csi
      && TermOK(term) && readIndex < RING
      && Indices(readIndex, lsIndex, writeIndex, leIndex, term)
      && Spells(buf[..], readIndex, term.committed + term.line)
      && fEsc == term.esc && fCsi == term.csi
      && csiIndex == |term.params| && csi[..csiIndex] == term.params
    }

    constructor ()
      ensures Valid() && term == Fresh && output == []
    {
      buf := new Byte[RING];
      csi := new Byte[MAX_CSI];
      readIndex, lsIndex, writeIndex, leIndex, csiIndex := 0, 0, 0, 0, 0;
      fEsc, fCsi := false, false;
      output := [];
      term := Fresh;
    }

    /** A cursor key inside a control sequence. */
    method Move(b: Byte)
      requires Valid() && !Full(term)
      modifies this`writeIndex, this`output, this`term
      ensures Valid() && term == MoveCursor(old(term), b)
      ensures output == old(output) + if term == old(term) then [] else [ESC, BRACKET, b]
    {
      IndicesCompare(readIndex, lsIndex, writeIndex, leIndex, term);
      MaskUp(readIndex + |term.committed| + term.cursor);
      MaskDown(readIndex + |term.committed| + term.cursor);
      if b == RIGHT {
        if writeIndex != leIndex {
          writeIndex := Mask(writeIndex + 1);
          output := output + [ESC, BRACKET, b];
          term := term.(cursor := term.cursor + 1);
        }
      } else if b == LEFT {
        if writeIndex != lsIndex {
          writeIndex := Mask(writeIndex - 1);
          output := output + [ESC, BRACKET, b];
          term := term.(cursor := term.cursor - 1);
        }
      }
    }

    /** One byte of a control sequence. */
    method QueueControl(b: Byte) returns (ret: bool)
      requires Valid() && !Full(term) && term.csi
      modifies this, csi
      ensures Valid() && term == Control(old(term), b) && ret == (|old(term).params| < MAX_CSI)
      ensures output == old(output) + if ret && term.cursor != old(term).cursor then [ESC, BRACKET, b] else []
    {
      if csiIndex == MAX_CSI {
        fCsi := false;
        term := term.(csi := false);
        return false;
      }
      csi[csiIndex] := b;
      csiIndex := csiIndex + 1;
      term := term.(params := term.params + [b]);
      if 0x40 <= b < 0x80 {
        fCsi := false;
        term := term.(csi := false);
        Move(b);
      }
      return true;
    }

    /** Backspace: the character before the cursor becomes a space. */
    method Erase() returns (ret: bool)
      requires Valid() && !Full(term)
      modifies this`writeIndex, this`term, this`output, buf
      ensures Valid() && term == Edit(old(term), BS) && ret == (old(term).cursor != 0)
      ensures output == old(output) + if ret then [BS, SPACE, BS] else []
    {
      IndicesCompare(readIndex, lsIndex, writeIndex, leIndex, term);
      if lsIndex == writeIndex {
        return false;
      }
      EraseRing(buf[..], readIndex, lsIndex, writeIndex, leIndex, term);
      output := output + [BS, SPACE, BS];
      writeIndex := Mask(writeIndex - 1);
      buf[writeIndex] := SPACE;
      assert buf[..] == old(buf[..])[writeIndex := SPACE];
      term := Edit(term, BS);
      return true;
    }

    /** End of line: the newline goes behind the whole line, which is committed. */
    method Commit()
      requires Valid() && !Full(term)
      modifies this`writeIndex, this`lsIndex, this`leIndex, this`term, this`output, buf
      ensures Valid() && term == Edit(old(term), NL) && output == old(output) + [CR, NL]
    {
      CommitRing(buf[..], readIndex, lsIndex, writeIndex, leIndex, term);
      output := output + [CR, NL];
      buf[leIndex] := NL;
      assert buf[..] == old(buf[..])[leIndex := NL];
      writeIndex := Mask(leIndex + 1);
      leIndex := writeIndex;
      lsIndex := leIndex;
      term := Edit(term, NL);
    }

    /** Any other character, in overwrite mode. */
    method Put(b: Byte)
      requires Valid() && !Full(term)
      modifies this`writeIndex, this`leIndex, this`term, this`output, buf
      ensures Valid() && output == old(output) + [b]
      ensures term == Wrote(old(term), b)
    {
      IndicesCompare(readIndex, lsIndex, writeIndex, leIndex, term);
      PutRing(buf[..], readIndex, lsIndex, writeIndex, leIndex, term, b);
      output := output + [b];
      buf[writeIndex] := b;
      assert buf[..] == old(buf[..])[writeIndex := b];
      if leIndex == writeIndex {
        leIndex := Mask(leIndex + 1);
      }
      writeIndex := Mask(writeIndex + 1);
      term := Wrote(term, b);
    }

    /** The editing half of tty_queue_read. */
    method QueueEdit(b: Byte) returns (ret: bool)
      requires Valid() && !Full(term)
      modifies this, buf
      ensures Valid() && term == Edit(old(term).(esc := false), b)
      ensures ret == !((b == BS || b == DEL) && old(term).cursor == 0)
      ensures output == old(output)
        + if b == BS || b == DEL then (if ret then [BS, SPACE, BS] else []) else if b == CR || b == NL then [CR, NL] else [b]
    {
      fEsc := false;
      term := term.(esc := false);
      if b == BS || b == DEL {
        ret := Erase();
      } else if b == CR || b == NL {
        Commit();
        ret := true;
      } else {
        Put(b);
        ret := true;
      }
    }

    /** tty_queue_read in cooked mode: one received byte. */
    method Queue(b: Byte) returns (ret: bool)
      requires Valid()
      modifies this, buf, csi
      ensures Valid() && term == Type(old(term), b)
      ensures ret == Accepted(old(term), b) && output == old(output) + Echo(old(term), b)
    {
      IndicesCompare(readIndex, lsIndex, writeIndex, leIndex, term);
      if b == 0 || Mask(writeIndex + 1) == readIndex {
        return false;
      }
      if b == ESC {
        fEsc := true;
        term := term.(esc := true);
        return true;
      }
      if b == BRACKET && fEsc {
        fCsi, csiIndex := true, 0;
        term := term.(csi := true, params := []);
        return true;
      }
      if fCsi {
        ret := QueueControl(b);
      } else {
        ret := QueueEdit(b);
      }
    }

    method More() returns (more: bool)
      requires Valid()
      ensures more <==> term.committed != []
    {
      IndicesCompare(readIndex, lsIndex, writeIndex, leIndex, term);
      more := readIndex != lsIndex;
    }

    /** One byte out of the ring. */
    method TakeByte() returns (b: Byte)
      requires Valid() && term.committed != []
      modifies this`readIndex, this`term
      ensures Valid() && b == old(term).committed[0] && term == old(term).(committed := old(term).committed[1..])
    {
      TakeOne(buf[..], readIndex, lsIndex, writeIndex, leIndex, term);
      b := buf[readIndex];
      readIndex := Mask(readIndex + 1);
      term := term.(committed := term.committed[1..]);
    }

    /** One locked pass of tty_read: up to `count` committed bytes, ending after a
        newline. */
    method Drain(count: nat) returns (out: seq<Byte>)
      requires Valid()
      modifies this`readIndex, this`term
      ensures Valid() && term == Taken(old(term), count)
      ensures out == old(term).committed[..Chunk(old(term).committed, count)]
    {
      ghost var t0 := term;
      out := [];
      var left: nat := count;
      var more := More();
      while left > 0 && more
        invariant Valid() && Drained(t0, out, term) && (more <==> term.committed != [])
        invariant |out| + Chunk(term.committed, left) == Chunk(t0.committed, count)
        decreases left
      {
        ChunkNext(term.committed, left);
        DrainOne(t0, out, term);
        var b := TakeByte();
        out := out + [b];
        left := if b == NL then 0 else left - 1;
        more := More();
      }
    }
  }

  /** `out` has left the queue of t0, which is now t. */
  ghost predicate Drained(t0: Term, out: seq<Byte>, t: Term) {
    t == t0.(committed := t.committed) && t0.committed == out + t.committed
  }

  lemma {:induction false} DrainOne(t0: Term, out: seq<Byte>, t: Term)
    requires Drained(t0, out, t) && t.committed != []
    ensures Drained(t0, out + [t.committed[0]], t.(committed := t.committed[1..]))
  {
    assert out + t.committed == out + [t.committed[0]] + t.committed[1..];
  }

  lemma {:induction false} EraseRing(buf: seq<Byte>, read: nat, ls: nat, write: nat, le: nat, t: Term)
    requires read < RING && TermOK(t) && Indices(read, ls, write, le, t) && Spells(buf, read, t.committed + t.line)
    requires t.cursor > 0
    ensures var t' := Edit(t, BS);
      && Indices(read, ls, Mask(write - 1), le, t')
      && Spells(buf[Mask(write - 1) := SPACE], read, t'.committed + t'.line)
  {
    var k := |t.committed| + t.cursor - 1;
    MaskDown(read + (k + 1));
    assert Mask(write - 1) == Mask(read + k);
    SpellsUpdated(buf, read, t.committed + t.line, k, SPACE);
    EraseBehind(t.committed, t.line, t.cursor - 1, SPACE);
  }

  lemma {:induction false} CommitRing(buf: seq<Byte>, read: nat, ls: nat, write: nat, le: nat, t: Term)
    requires read < RING && TermOK(t) && Indices(read, ls, write, le, t) && Spells(buf, read, t.committed + t.line)
    ensures var t' := Edit(t, NL);
      && Indices(read, Mask(le + 1), Mask(le + 1), Mask(le + 1), t')
      && Spells(buf[le := NL], read, t'.committed + t'.line)
  {
    var text := t.committed + t.line;
    MaskUp(read + |text|);
    SpellsUpdated(buf, read, text, |text|, NL);
    assert text + [NL] + [] == text + [NL];
  }

  lemma {:induction false} PutRing(buf: seq<Byte>, read: nat, ls: nat, write: nat, le: nat, t: Term, b: Byte)
    requires read < RING && TermOK(t) && Indices(read, ls, write, le, t) && Spells(buf, read, t.committed + t.line)
    ensures var t' := Wrote(t, b);
      && Indices(read, ls, Mask(write + 1), if t.cursor == |t.line| then Mask(le + 1) else le, t')
      && Spells(buf[write := b], read, t'.committed + t'.line)
  {
    PutIndices(read, ls, write, le, t, b);
    var text, k := t.committed + t.line, |t.committed| + t.cursor;
    assert write == Mask(read + k);
    SpellsUpdated(buf, read, text, k, b);
    OverwriteBehind(t.committed, t.line, t.cursor, b);
  }

  lemma {:induction false} PutIndices(read: nat, ls: nat, write: nat, le: nat, t: Term, b: Byte)
    requires TermOK(t) && Indices(read, ls, write, le, t)
    ensures Indices(read, ls, Mask(write + 1), if t.cursor == |t.line| then Mask(le + 1) else le, Wrote(t, b))
  {
    MaskUp(read + |t.committed| + t.cursor);
  }

  lemma {:induction false} OverwriteBehind(committed: seq<Byte>, line: seq<Byte>, cursor: nat, b: Byte)
    requires cursor <= |line|
    ensures committed + Overwrite(line, cursor, b) == Overwrite(committed + line, |committed| + cursor, b)
  {
  }

  lemma {:induction false} EraseBehind(committed: seq<Byte>, line: seq<Byte>, k: nat, b: Byte)
    requires k < |line|
    ensures committed + line[k := b] == (committed + line)[|committed| + k := b]
  {
  }

  lemma {:induction false} ChunkNext(q: seq<Byte>, left: nat)
    requires q != [] && left > 0
    ensures Chunk(q, left) == 1 + Chunk(q[1..], if q[0] == NL then 0 else left - 1)
  {
  }

  /** Reading the first committed byte moves the ring by one. */
  lemma {:induction false} TakeOne(buf: seq<Byte>, read: nat, ls: nat, write: nat, le: nat, t: Term)
    requires read < RING && Indices(read, ls, write, le, t) && t.committed != []
    requires Spells(buf, read, t.committed + t.line)
    ensures buf[read] == t.committed[0]
    ensures Indices(Mask(read + 1), ls, write, le, t.(committed := t.committed[1..]))
    ensures Spells(buf, Mask(read + 1), t.committed[1..] + t.line)
  {
    var text, rest := t.committed + t.line, t.committed[1..] + t.line;
    assert text[0] == t.committed[0];
    forall i | 0 <= i < |rest| ensures buf[Mask(Mask(read + 1) + i)] == rest[i] {
      assert rest[i] == text[i + 1];
      MaskShift(read, i);
    }
    MaskShift(read, |t.committed| - 1);
    MaskShift(read, |t.committed| - 1 + t.cursor);
    MaskShift(read, |t.committed| - 1 + |t.line|);
  }

  lemma {:induction false} MaskShift(read: nat, i: nat)
    ensures Mask(Mask(read + 1) + i) == Mask(read + (i + 1))
  {
  }

  /** read <= ls <= write <= le in ring order. */
  ghost predicate Indices(read: nat, ls: nat, write: nat, le: nat, t: Term) {
    && ls == Mask(read + |t.committed|)
    && write == Mask(read + |t.committed| + t.cursor)
    && le == Mask(read + |t.committed| + |t.line|)
  }
}
