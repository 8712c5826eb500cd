/**
  The console's in-place tokeniser (Process_Command in modules/console/qcli.c).

  `Tokenise` reads a line as a stream: the unread buffer contents `rest` and the number `left` of bytes that the
  C code still believes to be part of the line. Dropping an escape character moves only `left - 1` bytes, so the
  last byte of the line stays behind as a stale copy; `DropEscape` states exactly that. `Process` is the in-place
  algorithm on the array and is proved to compute `Tokenise`.
*/
module Tokeniser {
  import opened Bytes

  const COMMAND_STRING_LENGTH: nat := 256
  const MAX_PARAMETERS: nat := 17

  /** What becomes of a line: either it is rejected, or it is cut into parameters. */
  datatype Outcome = Rejected | Parameters(texts: seq<seq<byte>>)

  function Prepend(t: seq<byte>, o: Outcome): Outcome {
    match o
    case Rejected => Rejected
    case Parameters(ts) => Parameters([t] + ts)
  }

  function PrependAll(ts: seq<seq<byte>>, o: Outcome): Outcome {
    match o
    case Rejected => Rejected
    case Parameters(us) => Parameters(ts + us)
  }

  // ----- The streaming reading of the tokeniser -----

  /** Unread bytes end in the NUL that terminates the buffer. */
  predicate Terminated(rest: seq<byte>) {
    |rest| > 0 && rest[|rest| - 1] == NUL
  }

  predicate EndsParameter(c: byte, inside: bool) {
    c == NUL || c == QUOTE || (!inside && c == SPACE)
  }

  predicate Escapable(c: byte) {
    c == BACKSLASH || c == QUOTE
  }

  /** The move that consumes an escape character: `left - 1` bytes slide down by one, the rest stays. */
  function DropEscape(rest: seq<byte>, left: int): (r: seq<byte>)
    requires 1 < left <= |rest|
    ensures |r| == |rest|
  {
    rest[1..left] + rest[left - 1..]
  }

  /** One parameter: its text, what is left to read, and whether its escapes were legal. */
  datatype Cut = Cut(text: seq<byte>, rest: seq<byte>, left: int, ok: bool) {
    function Behind(x: seq<byte>): Cut {
      this.(text := x + text)
    }
  }

  function CutParameter(rest: seq<byte>, left: int, inside: bool): (r: Cut)
    requires Terminated(rest) && left < |rest|
    ensures Terminated(r.rest) && |r.text| + |r.rest| == |rest| && r.left < |r.rest|
    ensures r.ok ==> EndsParameter(r.rest[0], inside)
    ensures NUL !in r.text
    ensures !EndsParameter(rest[0], inside) ==> |r.text| > 0
    decreases |rest|
  {
    if EndsParameter(rest[0], inside) then
      Cut([], rest, left, true)
    else if rest[0] != BACKSLASH then
      CutParameter(rest[1..], left - 1, inside).Behind([rest[0]])
    else if 1 < left && Escapable(rest[1]) then
      var moved := DropEscape(rest, left);
      CutParameter(moved[1..], left - 2, inside).Behind([moved[0]])
    else
      Cut([rest[0]], rest[1..], left - 1, false)
  }

  function SkipSpaces(rest: seq<byte>): (r: seq<byte>)
    requires Terminated(rest)
    ensures Terminated(r) && |r| <= |rest| && r[0] != SPACE
    ensures rest[0] != SPACE ==> r == rest
    ensures rest[0] == SPACE ==> |r| < |rest|
    decreases |rest|
  {
    if rest[0] == SPACE then SkipSpaces(rest[1..]) else rest
  }

  /** A reading position: what is unread, how much of it is live, and whether a quote is open. */
  datatype Position = Position(rest: seq<byte>, left: int, inside: bool)

  /** Skips leading spaces and one opening quote. */
  function BeginParameter(p: Position): (r: Position)
    requires Terminated(p.rest) && p.left < |p.rest| && p.rest[0] != NUL
    ensures Terminated(r.rest) && r.left < |r.rest| <= |p.rest|
    ensures r.rest[0] == NUL || EndsParameter(r.rest[0], r.inside) ==> |r.rest| < |p.rest|
  {
    var s := SkipSpaces(p.rest);
    var left := p.left - (|p.rest| - |s|);
    if s[0] == QUOTE then Position(s[1..], left - 1, true) else Position(s, left, p.inside)
  }

  /** Steps over the character that ended a parameter; a quote toggles the flag. */
  function EndParameter(p: Position): (r: Position)
    requires Terminated(p.rest) && p.left < |p.rest|
    ensures Terminated(r.rest) && r.left < |r.rest| <= |p.rest|
    ensures p.rest[0] != NUL ==> |r.rest| < |p.rest|
  {
    if p.rest[0] == NUL then p
    else Position(p.rest[1..], p.left - 1, if p.rest[0] == QUOTE then !p.inside else p.inside)
  }

  function Tokenise(p: Position, count: nat): (r: Outcome)
    requires Terminated(p.rest) && p.left < |p.rest|
    decreases |p.rest|
  {
    if p.rest[0] == NUL || count > MAX_PARAMETERS then
      if p.inside then Rejected else Parameters([])
    else
      var b := BeginParameter(p);
      if b.rest[0] == NUL then Tokenise(b, count)
      else
        var c := CutParameter(b.rest, b.left, b.inside);
        if !c.ok then Rejected
        else Prepend(c.text, Tokenise(EndParameter(Position(c.rest, c.left, b.inside)), count + 1))
  }

  /** At most 18 parameters ever come out of a line, whatever the line holds. */
  lemma {:induction false} AtMostEighteen(p: Position, count: nat)
    requires Terminated(p.rest) && p.left < |p.rest| && count <= MAX_PARAMETERS + 1
    ensures var o := Tokenise(p, count);
            o.Parameters? ==> count + |o.texts| <= 18
    decreases |p.rest|
  {
    hide BeginParameter, CutParameter, EndParameter;
    if p.rest[0] != NUL && count <= MAX_PARAMETERS {
      var b := BeginParameter(p);
      if b.rest[0] == NUL {
        AtMostEighteen(b, count);
      } else {
        var c := CutParameter(b.rest, b.left, b.inside);
        if c.ok {
          AtMostEighteen(EndParameter(Position(c.rest, c.left, b.inside)), count + 1);
        }
      }
    }
  }

  // ----- Lines built from a list of arguments -----

  /** An argument as a user types it: after some spaces, quoted or bare, with escapes where needed. */
  datatype Piece = Piece(gap: nat, quoted: bool, text: seq<byte>)

  /** n copies of c in front of w. */
  function Pad(c: byte, n: nat, w: seq<byte>): (r: seq<byte>)
    ensures |r| == n + |w|
    ensures Terminated(w) ==> Terminated(r)
  {
    if n == 0 then w else [c] + Pad(c, n - 1, w)
  }

  /** The text with a backslash before every quote and backslash, in front of w. */
  function Escaped(x: seq<byte>, w: seq<byte>): (r: seq<byte>)
    ensures |r| >= |w| && (x != [] ==> r != [])
  {
    if x == [] then w
    else if Escapable(x[0]) then [BACKSLASH] + ([x[0]] + Escaped(x[1..], w))
    else [x[0]] + Escaped(x[1..], w)
  }

  function Escapes(x: seq<byte>): nat {
    if x == [] then 0 else (if Escapable(x[0]) then 1 else 0) + Escapes(x[1..])
  }

  function Body(p: Piece, w: seq<byte>): (r: seq<byte>) {
    if p.quoted then [QUOTE] + Escaped(p.text, [QUOTE] + w) else Escaped(p.text, w)
  }

  /** The line that spells out the arguments, in front of w. */
  function Line(ps: seq<Piece>, w: seq<byte>): seq<byte> {
    if ps == [] then w else Pad(SPACE, ps[0].gap, Body(ps[0], Line(ps[1..], w)))
  }

  function Texts(ps: seq<Piece>): seq<seq<byte>> {
    if ps == [] then [] else [ps[0].text] + Texts(ps[1..])
  }

  function TotalEscapes(ps: seq<Piece>): nat {
    if ps == [] then 0 else Escapes(ps[0].text) + TotalEscapes(ps[1..])
  }

  predicate LegalText(p: Piece) {
    NUL !in p.text && (p.quoted || (p.text != [] && SPACE !in p.text))
  }

  /** Bare arguments are non-empty, hold no space, and are followed by at least one space. */
  predicate Legal(ps: seq<Piece>) {
    && (forall i :: 0 <= i < |ps| ==> LegalText(ps[i]))
    && (forall i :: 0 < i < |ps| && !ps[i - 1].quoted ==> ps[i].gap > 0)
  }

  predicate EndsBare(ps: seq<Piece>) {
    ps != [] && !ps[|ps| - 1].quoted
  }

  // ----- Reading such a line back -----

  ghost predicate LastIs(x: seq<byte>, c: byte) {
    x != [] ==> x[|x| - 1] == c
  }

  /** A half-read line: live text, then stale copies of the line's last byte, then the terminator. */
  function Unread(live: seq<byte>, c: byte, j: nat, z: seq<byte>, inside: bool): (r: Position)
    requires Terminated(z)
    ensures Terminated(r.rest) && r.left < |r.rest|
  {
    Position(live + Pad(c, j, z), |live|, inside)
  }

  function CutAt(p: Position): Cut
    requires Terminated(p.rest) && p.left < |p.rest|
  {
    CutParameter(p.rest, p.left, p.inside)
  }

  lemma StepPlain(e: byte, live: seq<byte>, c: byte, j: nat, z: seq<byte>, inside: bool)
    requires Terminated(z) && !EndsParameter(e, inside) && e != BACKSLASH
    ensures CutAt(Unread([e] + live, c, j, z, inside)) == CutAt(Unread(live, c, j, z, inside)).Behind([e])
  {
    assert ([e] + live + Pad(c, j, z))[1..] == live + Pad(c, j, z);
  }

  /** One escape consumed: the escaped character is read, and one more stale byte has appeared. */
  lemma StepEscape(e: byte, live: seq<byte>, c: byte, j: nat, z: seq<byte>, inside: bool)
    requires Terminated(z) && Escapable(e) && LastIs([e] + live, c)
    ensures CutAt(Unread([BACKSLASH] + ([e] + live), c, j, z, inside))
         == CutAt(Unread(live, c, j + 1, z, inside)).Behind([e])
  {
    hide DropEscape, Pad, LastIs, Cut.Behind;
    var rest := [BACKSLASH] + ([e] + live) + Pad(c, j, z);
    EscapeSlides(e, live, c, j, z);
    CutEscape(rest, |live| + 2, inside);
  }

  /** The slide over an escape, as seen by the reader. */
  lemma EscapeSlides(e: byte, live: seq<byte>, c: byte, j: nat, z: seq<byte>)
    requires LastIs([e] + live, c)
    ensures var rest := [BACKSLASH] + ([e] + live) + Pad(c, j, z);
      && rest[0] == BACKSLASH && rest[1] == e && |rest| == |live| + 2 + j + |z|
      && DropEscape(rest, |live| + 2)[0] == e
      && DropEscape(rest, |live| + 2)[1..] == live + Pad(c, j + 1, z)
  {
    var pad, front := Pad(c, j, z), [e] + live;
    var rest, left := [BACKSLASH] + front + pad, |live| + 2;
    assert rest[left - 1] == front[left - 2] == c;
    assert rest[1..left] == front;
    assert rest[left - 1..] == [c] + pad;
    assert front[1..] == live;
  }

  lemma CutEscape(rest: seq<byte>, left: int, inside: bool)
    requires Terminated(rest) && 1 < left < |rest| && rest[0] == BACKSLASH && Escapable(rest[1])
    ensures var moved := DropEscape(rest, left);
      Terminated(moved[1..])
      && CutParameter(rest, left, inside) == CutParameter(moved[1..], left - 2, inside).Behind([moved[0]])
  {
  }

  /** Every escape in the text turns into one stale copy of the line's last byte. */
  lemma {:induction false} CutReadsEscaped(x: seq<byte>, t: seq<byte>, c: byte, j: nat, z: seq<byte>, inside: bool)
    requires NUL !in x && (inside || SPACE !in x)
    requires LastIs(Escaped(x, t), c) && Terminated(z)
    ensures CutAt(Unread(Escaped(x, t), c, j, z, inside))
         == CutAt(Unread(t, c, j + Escapes(x), z, inside)).Behind(x)
    decreases |x|
  {
    hide CutParameter, CutAt, Unread;
    if x == [] {
      var r := CutAt(Unread(t, c, j, z, inside));
      assert [] + r.text == r.text;
    } else {
      var e, y := x[0], x[1..];
      assert e in x;
      var last := CutAt(Unread(t, c, j + Escapes(x), z, inside));
      assert x + last.text == [e] + (y + last.text);
      if Escapable(e) {
        CutReadsEscaped(y, t, c, j + 1, z, inside);
        StepEscape(e, Escaped(y, t), c, j, z, inside);
      } else {
        CutReadsEscaped(y, t, c, j, z, inside);
        StepPlain(e, Escaped(y, t), c, j, z, inside);
      }
    }
  }

  /** Leading spaces are skipped, and only they. */
  lemma {:induction false} SkipGap(g: nat, live: seq<byte>, c: byte, j: nat, z: seq<byte>)
    requires Terminated(z) && live != [] && live[0] != SPACE
    ensures SkipSpaces(Unread(Pad(SPACE, g, live), c, j, z, false).rest) == Unread(live, c, j, z, false).rest
  {
    var rest := Pad(SPACE, g, live) + Pad(c, j, z);
    if g > 0 {
      assert rest[1..] == Pad(SPACE, g - 1, live) + Pad(c, j, z);
      SkipGap(g - 1, live, c, j, z);
    }
  }

  lemma {:induction false} LastOfPad(s: byte, g: nat, w: seq<byte>, c: byte)
    requires w != [] && LastIs(Pad(s, g, w), c)
    ensures LastIs(w, c)
  {
    if g > 0 {
      LastOfPad(s, g - 1, w, c);
    }
  }

  lemma {:induction false} LastOfEscaped(x: seq<byte>, w: seq<byte>, c: byte)
    requires w != [] && LastIs(Escaped(x, w), c)
    ensures LastIs(w, c)
  {
    if x != [] {
      assert LastIs(Escaped(x[1..], w), c);
      LastOfEscaped(x[1..], w, c);
    }
  }

  /** One parameter of a line: the tokeniser's outcome is that parameter, then the outcome of what follows. */
  lemma ReadStep(p: Position, count: nat, b: Position, c: Cut)
    requires Terminated(p.rest) && p.left < |p.rest| && p.rest[0] != NUL && count <= MAX_PARAMETERS
    requires b == BeginParameter(p) && b.rest[0] != NUL && c == CutAt(b) && c.ok
    ensures Terminated(c.rest) && c.left < |c.rest|
    ensures Tokenise(p, count) == Prepend(c.text, Tokenise(EndParameter(Position(c.rest, c.left, b.inside)), count + 1))
  {
  }

  /** A parameter ends at the first unescaped quote. */
  lemma CutStopsAtQuote(x: seq<byte>, w: seq<byte>, c: byte, j: nat, z: seq<byte>, inside: bool)
    requires NUL !in x && (inside || SPACE !in x) && Terminated(z) && LastIs(Escaped(x, [QUOTE] + w), c)
    ensures CutAt(Unread(Escaped(x, [QUOTE] + w), c, j, z, inside))
         == Cut(x, [QUOTE] + (w + Pad(c, j + Escapes(x), z)), |w| + 1, true)
  {
    var after := Unread([QUOTE] + w, c, j + Escapes(x), z, inside);
    assert after.rest == [QUOTE] + (w + Pad(c, j + Escapes(x), z));
    assert CutAt(after) == Cut([], after.rest, after.left, true);
    assert x + [] == x;
    hide CutParameter, CutAt;
    CutReadsEscaped(x, [QUOTE] + w, c, j, z, inside);
  }

  /** A bare parameter ends at the first space. */
  lemma CutStopsAtSpace(x: seq<byte>, w: seq<byte>, c: byte, j: nat, z: seq<byte>)
    requires NUL !in x && SPACE !in x && Terminated(z) && LastIs(Escaped(x, [SPACE] + w), c)
    ensures CutAt(Unread(Escaped(x, [SPACE] + w), c, j, z, false))
         == Cut(x, [SPACE] + (w + Pad(c, j + Escapes(x), z)), |w| + 1, true)
  {
    var after := Unread([SPACE] + w, c, j + Escapes(x), z, false);
    assert after.rest == [SPACE] + (w + Pad(c, j + Escapes(x), z));
    assert CutAt(after) == Cut([], after.rest, after.left, true);
    assert x + [] == x;
    hide CutParameter, CutAt;
    CutReadsEscaped(x, [SPACE] + w, c, j, z, false);
  }

  lemma BeginQuoted(g: nat, content: seq<byte>, c: byte, j: nat, z: seq<byte>)
    requires Terminated(z) && content != [] && content[0] != NUL
    ensures var start := Unread(Pad(SPACE, g, [QUOTE] + content), c, j, z, false);
            start.rest[0] != NUL && BeginParameter(start) == Unread(content, c, j, z, true)
  {
    var start := Unread(Pad(SPACE, g, [QUOTE] + content), c, j, z, false);
    SkipGap(g, [QUOTE] + content, c, j, z);
    assert ([QUOTE] + content + Pad(c, j, z))[1..] == content + Pad(c, j, z);
  }

  lemma BeginBare(g: nat, content: seq<byte>, c: byte, j: nat, z: seq<byte>)
    requires Terminated(z) && content != [] && content[0] !in {NUL, QUOTE, SPACE}
    ensures var start := Unread(Pad(SPACE, g, content), c, j, z, false);
            start.rest[0] != NUL && BeginParameter(start) == Unread(content, c, j, z, false)
  {
    SkipGap(g, content, c, j, z);
  }

  lemma ReadBad(p: Position, count: nat, b: Position)
    requires Terminated(p.rest) && p.left < |p.rest| && p.rest[0] != NUL && count <= MAX_PARAMETERS
    requires b == BeginParameter(p) && b.rest[0] != NUL && !CutAt(b).ok
    ensures Tokenise(p, count) == Rejected
  {
  }

  lemma ReadEnd(p: Position, count: nat, b: Position)
    requires Terminated(p.rest) && p.left < |p.rest| && p.rest[0] != NUL && count <= MAX_PARAMETERS
    requires b == BeginParameter(p) && b.rest[0] == NUL
    ensures Tokenise(p, count) == if b.inside then Rejected else Parameters([])
  {
    assert Tokenise(p, count) == Tokenise(b, count);
  }

  lemma ReadDone(p: Position, count: nat)
    requires Terminated(p.rest) && p.left < |p.rest| && (p.rest[0] == NUL || count > MAX_PARAMETERS)
    ensures Tokenise(p, count) == if p.inside then Rejected else Parameters([])
  {
  }

  lemma LastOfCons(e: byte, v: seq<byte>, c: byte)
    requires LastIs([e] + v, c)
    ensures LastIs(v, c)
  {
  }

  lemma EscapedFirst(x: seq<byte>, w: seq<byte>)
    requires NUL !in x && w != [] && w[0] != NUL
    ensures Escaped(x, w)[0] != NUL
  {
    if x != [] {
      assert x[0] in x;
    }
  }

  lemma BareFirst(p: Piece, w: seq<byte>)
    requires !p.quoted && LegalText(p)
    ensures Escaped(p.text, w)[0] !in {NUL, QUOTE, SPACE}
  {
    assert p.text[0] in p.text;
  }

  /** Reading one quoted argument. */
  lemma ReadQuoted(p: Piece, w: seq<byte>, c: byte, j: nat, z: seq<byte>, count: nat)
    requires p.quoted && LegalText(p) && Terminated(z) && count <= MAX_PARAMETERS
    requires LastIs(Pad(SPACE, p.gap, Body(p, w)), c)
    ensures Tokenise(Unread(Pad(SPACE, p.gap, Body(p, w)), c, j, z, false), count)
         == Prepend(p.text, Tokenise(Unread(w, c, j + Escapes(p.text), z, false), count + 1))
  {
    hide Tokenise, CutAt, CutParameter, BeginParameter, Pad, Escaped, LastIs, Escapes;
    var content := Escaped(p.text, [QUOTE] + w);
    var start := Unread(Pad(SPACE, p.gap, [QUOTE] + content), c, j, z, false);
    var inner := Unread(content, c, j, z, true);
    var tail := w + Pad(c, j + Escapes(p.text), z);
    LastOfPad(SPACE, p.gap, [QUOTE] + content, c);
    LastOfCons(QUOTE, content, c);
    EscapedFirst(p.text, [QUOTE] + w);
    BeginQuoted(p.gap, content, c, j, z);
    CutStopsAtQuote(p.text, w, c, j, z, true);
    assert inner.rest[0] == content[0];
    ReadStep(start, count, inner, Cut(p.text, [QUOTE] + tail, |w| + 1, true));
    assert ([QUOTE] + tail)[1..] == tail;
  }

  /** Reading one bare argument that a space follows. */
  lemma ReadBare(p: Piece, w: seq<byte>, c: byte, j: nat, z: seq<byte>, count: nat)
    requires !p.quoted && LegalText(p) && Terminated(z) && count <= MAX_PARAMETERS
    requires LastIs(Pad(SPACE, p.gap, Body(p, [SPACE] + w)), c)
    ensures Tokenise(Unread(Pad(SPACE, p.gap, Body(p, [SPACE] + w)), c, j, z, false), count)
         == Prepend(p.text, Tokenise(Unread(w, c, j + Escapes(p.text), z, false), count + 1))
  {
    hide Tokenise, CutAt, CutParameter, BeginParameter, Pad, Escaped, LastIs, Escapes;
    var content := Escaped(p.text, [SPACE] + w);
    LastOfPad(SPACE, p.gap, content, c);
    BareFirst(p, [SPACE] + w);
    var start := Unread(Pad(SPACE, p.gap, content), c, j, z, false);
    var inner := Unread(content, c, j, z, false);
    var tail := w + Pad(c, j + Escapes(p.text), z);
    BeginBare(p.gap, content, c, j, z);
    CutStopsAtSpace(p.text, w, c, j, z);
    assert inner.rest[0] == content[0];
    ReadStep(start, count, inner, Cut(p.text, [SPACE] + tail, |w| + 1, true));
    assert ([SPACE] + tail)[1..] == tail;
  }

  lemma LastOfLine(p: Piece, rest: seq<byte>, c: byte)
    requires LastIs(Pad(SPACE, p.gap, Body(p, rest)), c) && (p.quoted || p.text != [])
    ensures LastIs(rest, c)
  {
    LastOfPad(SPACE, p.gap, Body(p, rest), c);
    if rest != [] {
      if p.quoted {
        LastOfCons(QUOTE, Escaped(p.text, [QUOTE] + rest), c);
        LastOfEscaped(p.text, [QUOTE] + rest, c);
        LastOfCons(QUOTE, rest, c);
      } else {
        LastOfEscaped(p.text, rest, c);
      }
    }
  }

  /** A bare argument eats the first of the spaces that follow it. */
  function Narrower(ps: seq<Piece>): (r: seq<Piece>)
    requires ps != [] && ps[0].gap > 0
    ensures |r| == |ps| && r[0] == ps[0].(gap := ps[0].gap - 1) && r[1..] == ps[1..]
  {
    [ps[0].(gap := ps[0].gap - 1)] + ps[1..]
  }

  lemma NarrowerReads(ps: seq<Piece>, w: seq<byte>)
    requires ps != [] && ps[0].gap > 0
    ensures var r := Narrower(ps);
      && (Legal(ps) ==> Legal(r)) && EndsBare(r) == EndsBare(ps)
      && Texts(r) == Texts(ps) && TotalEscapes(r) == TotalEscapes(ps)
      && Line(ps, w) == [SPACE] + Line(r, w)
  {
    hide Narrower;
    var r := Narrower(ps);
    assert forall i :: 1 <= i < |ps| ==> r[i] == r[1..][i - 1] == ps[1..][i - 1] == ps[i];
  }

  lemma PrependFirst(t: seq<byte>, ts: seq<seq<byte>>, o: Outcome)
    ensures Prepend(t, PrependAll(ts, o)) == PrependAll([t] + ts, o) && PrependAll([], o) == o
    ensures Prepend(t, o) == PrependAll([t], o)
  {
    if o.Parameters? {
      assert [t] + (ts + o.texts) == [t] + ts + o.texts && [] + o.texts == o.texts;
    }
  }

  /** What is left of w behind the line: a last bare argument also consumes the space that ended it. */
  function AfterLast(ps: seq<Piece>, w: seq<byte>): seq<byte> {
    if EndsBare(ps) && w != [] then w[1..] else w
  }

  lemma LineNil(w: seq<byte>)
    ensures Line([], w) == w
  {
  }

  /** What the reader still has to read of a line once its first argument is done. */
  lemma ReadFirst(ps: seq<Piece>, w: seq<byte>, c: byte, j: nat, z: seq<byte>, count: nat)
    returns (rs: seq<Piece>, v: seq<byte>)
    requires ps != [] && Legal(ps) && count <= MAX_PARAMETERS && Terminated(z)
    requires LastIs(Line(ps, w), c) && (EndsBare(ps) ==> w != [] && w[0] == SPACE)
    ensures Legal(rs) && |rs| == |ps| - 1 && Texts(rs) == Texts(ps[1..]) && TotalEscapes(rs) == TotalEscapes(ps[1..])
    ensures AfterLast(rs, v) == AfterLast(ps, w) && (EndsBare(rs) ==> v != [] && v[0] == SPACE)
    ensures LastIs(Line(rs, v), c)
    ensures Tokenise(Unread(Line(ps, w), c, j, z, false), count)
         == Prepend(ps[0].text, Tokenise(Unread(Line(rs, v), c, j + Escapes(ps[0].text), z, false), count + 1))
  {
    hide Tokenise, Pad, Unread, Body, Prepend, LastIs, Escapes;
    var p, qs := ps[0], ps[1..];
    LastOfLine(p, Line(qs, w), c);
    rs, v := qs, w;
    if p.quoted {
      ReadQuoted(p, Line(qs, w), c, j, z, count);
    } else {
      if qs == [] {
        v := w[1..];
        assert Line(qs, w) == [SPACE] + v;
      } else {
        rs := Narrower(qs);
        NarrowerReads(qs, w);
      }
      ReadBare(p, Line(rs, v), c, j, z, count);
      LastOfCons(SPACE, Line(rs, v), c);
    }
  }

  /** The whole line is read argument by argument, until only the text behind the last one is left. */
  lemma {:induction false} ReadLine(ps: seq<Piece>, w: seq<byte>, c: byte, j: nat, z: seq<byte>, count: nat)
    requires Legal(ps) && count + |ps| <= MAX_PARAMETERS + 1 && Terminated(z)
    requires LastIs(Line(ps, w), c)
    requires EndsBare(ps) ==> w != [] && w[0] == SPACE
    ensures Tokenise(Unread(Line(ps, w), c, j, z, false), count)
         == PrependAll(Texts(ps), Tokenise(Unread(AfterLast(ps, w), c, j + TotalEscapes(ps), z, false), count + |ps|))
    decreases |ps|
  {
    hide Tokenise, Unread, Prepend, PrependAll, LastIs, Line;
    var end := Tokenise(Unread(AfterLast(ps, w), c, j + TotalEscapes(ps), z, false), count + |ps|);
    if ps == [] {
      assert Line(ps, w) == w by { LineNil(w); }
      PrependFirst([], [], end);
    } else {
      hide AfterLast, EndsBare;
      PrependFirst(ps[0].text, Texts(ps[1..]), end);
      var rs, v := ReadFirst(ps, w, c, j, z, count);
      assert j + Escapes(ps[0].text) + TotalEscapes(rs) == j + TotalEscapes(ps);
      ReadLine(rs, v, c, j + Escapes(ps[0].text), z, count + 1);
    }
  }

  // ----- What the stale bytes behind the line do -----

  lemma {:induction false} PadPad(c: byte, m: nat, n: nat, z: seq<byte>)
    ensures Pad(c, m, []) + Pad(c, n, z) == Pad(c, m + n, z)
  {
    if m > 0 {
      PadPad(c, m - 1, n, z);
      assert [c] + Pad(c, m - 1, []) + Pad(c, n, z) == [c] + (Pad(c, m - 1, []) + Pad(c, n, z));
    } else {
      assert [] + Pad(c, n, z) == Pad(c, n, z);
    }
  }

  lemma {:induction false} SkipAllSpaces(n: nat, z: seq<byte>)
    requires Terminated(z) && z[0] == NUL
    ensures SkipSpaces(Pad(SPACE, n, z)) == z
  {
    if n > 0 {
      assert Pad(SPACE, n, z)[1..] == Pad(SPACE, n - 1, z);
      SkipAllSpaces(n - 1, z);
    }
  }

  /** Stale spaces are harmless. */
  lemma StraySpaces(n: nat, left: int, z: seq<byte>, count: nat)
    requires Terminated(z) && z[0] == NUL && left < n + |z|
    ensures Tokenise(Position(Pad(SPACE, n, z), left, false), count) == Parameters([])
  {
    var p := Position(Pad(SPACE, n, z), left, false);
    if n > 0 && count <= MAX_PARAMETERS {
      SkipAllSpaces(n, z);
      assert BeginParameter(p) == Position(z, left - n, false);
      assert Tokenise(Position(z, left - n, false), count) == Parameters([]);
    }
  }

  /** Stale quotes come in pairs, each an extra empty parameter; an odd one rejects the line. */
  function StrayQuotes(m: nat, count: nat): Outcome {
    if m == 0 || count > MAX_PARAMETERS then Parameters([])
    else if m == 1 then Rejected
    else Prepend([], StrayQuotes(m - 2, count + 1))
  }

  lemma QuotesBegin(m: nat, left: int, inside: bool, z: seq<byte>)
    requires 0 < m && Terminated(z) && left < m + |z|
    ensures var p, b := Position(Pad(QUOTE, m, z), left, inside), Position(Pad(QUOTE, m - 1, z), left - 1, true);
            p.rest[0] == QUOTE && BeginParameter(p) == b
    ensures CutAt(Position(Pad(QUOTE, m, z), left, inside)) == Cut([], Pad(QUOTE, m, z), left, true)
    ensures Pad(QUOTE, m, z)[0] == QUOTE && Pad(QUOTE, m, z)[1..] == Pad(QUOTE, m - 1, z)
  {
  }

  /** One pair of stray quotes, whether or not a quote is already open. */
  lemma StrayPair(m: nat, left: int, inside: bool, z: seq<byte>, count: nat)
    requires 0 < m && Terminated(z) && z[0] == NUL && left < m + |z| && count <= MAX_PARAMETERS
    ensures Tokenise(Position(Pad(QUOTE, m, z), left, inside), count)
         == if m == 1 then Rejected
            else Prepend([], Tokenise(Position(Pad(QUOTE, m - 2, z), left - 2, false), count + 1))
  {
    hide Tokenise, CutAt, BeginParameter;
    var p := Position(Pad(QUOTE, m, z), left, inside);
    var b := Position(Pad(QUOTE, m - 1, z), left - 1, true);
    QuotesBegin(m, left, inside, z);
    if m == 1 {
      ReadEnd(p, count, b);
    } else {
      hide Pad;
      QuotesBegin(m - 1, left - 1, true, z);
      ReadStep(p, count, b, Cut([], b.rest, left - 1, true));
    }
  }

  lemma {:induction false} StrayQuotesRead(m: nat, left: int, z: seq<byte>, count: nat)
    requires Terminated(z) && z[0] == NUL && left < m + |z|
    ensures Tokenise(Position(Pad(QUOTE, m, z), left, false), count) == StrayQuotes(m, count)
  {
    hide Tokenise;
    var p := Position(Pad(QUOTE, m, z), left, false);
    if m == 0 || count > MAX_PARAMETERS {
      ReadDone(p, count);
    } else {
      StrayPair(m, left, false, z, count);
      if m > 1 {
        StrayQuotesRead(m - 2, left - 2, z, count + 1);
      }
    }
  }

  /** With a quote already open, stray quotes never read as a clean end of the line. */
  lemma OpenQuoteIsNotClean(m: nat, left: int, z: seq<byte>, count: nat)
    requires Terminated(z) && z[0] == NUL && left < m + |z|
    ensures Tokenise(Position(Pad(QUOTE, m, z), left, true), count) != Parameters([])
  {
    if m > 0 && count <= MAX_PARAMETERS {
      StrayPair(m, left, true, z, count);
    }
  }

  /** Stale bytes that are glued to a bare argument spoil it. */
  lemma CutMeetsStale(c: byte, m: nat, z: seq<byte>)
    requires Terminated(z) && z[0] == NUL && c != NUL && c != SPACE
    ensures var cut := CutAt(Position(Pad(c, m, z), 0, false));
            if m == 0 then cut == Cut([], z, 0, true)
            else !cut.ok || cut.text != [] || (c == QUOTE && cut == Cut([], Pad(QUOTE, m, z), 0, true))
  {
  }

  lemma {:induction false} LastOfEscapedText(x: seq<byte>, c: byte)
    requires x != [] && LastIs(Escaped(x, []), c)
    ensures c in x
  {
    if |x| == 1 {
      assert x[1..] == [];
    } else {
      assert LastIs(Escaped(x[1..], []), c);
      LastOfEscapedText(x[1..], c);
    }
  }

  /** A bare argument at the very end of the line survives exactly when nothing was escaped. */
  lemma BareAtEnd(p: Piece, c: byte, j: nat, z: seq<byte>, count: nat)
    requires !p.quoted && LegalText(p) && Terminated(z) && z[0] == NUL && count <= MAX_PARAMETERS
    requires LastIs(Pad(SPACE, p.gap, Body(p, [])), c)
    ensures Tokenise(Unread(Pad(SPACE, p.gap, Body(p, [])), c, j, z, false), count) == Parameters([p.text])
       <==> j + Escapes(p.text) == 0
  {
    hide Escaped, Pad, CutParameter, CutAt, BeginParameter, Tokenise, LastIs, Escapes, EndParameter, Prepend;
    var content, m := Escaped(p.text, []), j + Escapes(p.text);
    var start, inner := Unread(Pad(SPACE, p.gap, content), c, j, z, false), Unread(content, c, j, z, false);
    LastOfPad(SPACE, p.gap, content, c);
    LastOfEscapedText(p.text, c);
    BareFirst(p, []);
    BeginBare(p.gap, content, c, j, z);
    CutReadsEscaped(p.text, [], c, j, z, false);
    assert [] + Pad(c, m, z) == Pad(c, m, z);
    assert inner.rest[0] == content[0];
    CutMeetsStale(c, m, z);
    var end := CutAt(Position(Pad(c, m, z), 0, false));
    if !end.ok {
      ReadBad(start, count, inner);
    } else {
      ReadStep(start, count, inner, end.Behind(p.text));
      AfterBareAtEnd(p.text, end, c, m, z, count);
    }
  }

  lemma AfterBareAtEnd(x: seq<byte>, end: Cut, c: byte, m: nat, z: seq<byte>, count: nat)
    requires Terminated(z) && z[0] == NUL && Terminated(end.rest) && end.left < |end.rest|
    requires if m == 0 then end == Cut([], z, 0, true)
             else end.text != [] || (c == QUOTE && end == Cut([], Pad(QUOTE, m, z), 0, true))
    ensures var rest := Tokenise(EndParameter(Position(end.rest, end.left, false)), count + 1);
            Prepend(x + end.text, rest) == Parameters([x]) <==> m == 0
  {
    hide Tokenise, Pad;
    var next := EndParameter(Position(end.rest, end.left, false));
    if m == 0 {
      assert x + [] == x;
      ReadDone(next, count + 1);
    } else if end.text == [] {
      PadHead(QUOTE, m, z);
      assert next == Position(Pad(QUOTE, m - 1, z), -1, true);
      OpenQuoteIsNotClean(m - 1, -1, z, count + 1);
      var o := Tokenise(next, count + 1);
      assert o.Parameters? ==> |[x + end.text] + o.texts| > 1;
    } else {
      PrependOther(x + end.text, x, Tokenise(next, count + 1));
    }
  }

  lemma PrependOther(t: seq<byte>, u: seq<byte>, o: Outcome)
    requires |t| != |u|
    ensures Prepend(t, o) != Parameters([u])
  {
    if o.Parameters? {
      assert ([t] + o.texts)[0] == t;
    }
  }

  lemma PadHead(c: byte, m: nat, z: seq<byte>)
    requires m > 0
    ensures Pad(c, m, z)[0] == c && Pad(c, m, z)[1..] == Pad(c, m - 1, z)
  {
  }

  // ----- The round trip -----

  lemma {:induction false} LineSplit(ps: seq<Piece>, k: nat, w: seq<byte>)
    requires k <= |ps|
    ensures Line(ps, w) == Line(ps[..k], Line(ps[k..], w))
    decreases k
  {
    hide Pad, Body;
    if k == 0 {
      assert ps[k..] == ps && ps[..k] == [];
    } else {
      LineSplit(ps[1..], k - 1, w);
      assert ps[1..][..k - 1] == ps[..k][1..] && ps[1..][k - 1..] == ps[k..];
    }
  }

  lemma LineSnoc(ps: seq<Piece>, w: seq<byte>)
    requires ps != []
    ensures var n := |ps| - 1;
            Line(ps, w) == Line(ps[..n], Pad(SPACE, ps[n].gap, Body(ps[n], w)))
    ensures Texts(ps) == Texts(ps[..|ps| - 1]) + [ps[|ps| - 1].text]
    ensures TotalEscapes(ps) == TotalEscapes(ps[..|ps| - 1]) + Escapes(ps[|ps| - 1].text)
  {
    hide Pad, Body, Escapes, Texts, TotalEscapes;
    var n := |ps| - 1;
    LineSplit(ps, n, w);
    assert ps[n..] == [ps[n]] && ps[n..][1..] == [];
    TextsSnoc(ps);
  }

  lemma {:induction false} TextsSnoc(ps: seq<Piece>)
    requires ps != []
    ensures Texts(ps) == Texts(ps[..|ps| - 1]) + [ps[|ps| - 1].text]
    ensures TotalEscapes(ps) == TotalEscapes(ps[..|ps| - 1]) + Escapes(ps[|ps| - 1].text)
  {
    hide Escapes;
    var n := |ps| - 1;
    if n == 0 {
      assert ps[1..] == [] && ps[..0] == [];
    } else {
      TextsSnoc(ps[1..]);
      assert ps[1..][..n - 1] == ps[..n][1..];
    }
  }

  /** Exactly when a typed line reads back as its arguments; `trailing` spaces follow the last one. */
  ghost predicate ReadsBack(ps: seq<Piece>, trailing: nat) {
    TotalEscapes(ps) == 0 || trailing > 0 || (|ps| == MAX_PARAMETERS + 1 && !EndsBare(ps))
  }

  lemma PrependAllClean(ts: seq<seq<byte>>, o: Outcome)
    ensures PrependAll(ts, o) == Parameters(ts) <==> o == Parameters([])
  {
    if o.Parameters? {
      assert |ts + o.texts| == |ts| + |o.texts|;
      assert ts + [] == ts;
    }
  }

  lemma AfterSpaces(ps: seq<Piece>, n: nat)
    requires EndsBare(ps) ==> n > 0
    ensures AfterLast(ps, Pad(SPACE, n, [])) == Pad(SPACE, if EndsBare(ps) then n - 1 else n, [])
    ensures EndsBare(ps) ==> Pad(SPACE, n, []) != [] && Pad(SPACE, n, [])[0] == SPACE
  {
  }

  /** Lines that end in a space. */
  lemma ReadsBackBeforeSpace(ps: seq<Piece>, trailing: nat, z: seq<byte>)
    requires Legal(ps) && |ps| <= MAX_PARAMETERS + 1 && Terminated(z) && z[0] == NUL && trailing > 0
    requires LastIs(Line(ps, Pad(SPACE, trailing, [])), SPACE)
    ensures Tokenise(Unread(Line(ps, Pad(SPACE, trailing, [])), SPACE, 0, z, false), 0) == Parameters(Texts(ps))
  {
    hide Tokenise, Line, Texts, LastIs, Pad, AfterLast, TotalEscapes;
    var w, k := Pad(SPACE, trailing, []), TotalEscapes(ps);
    var t := if EndsBare(ps) then trailing - 1 else trailing;
    AfterSpaces(ps, trailing);
    PadPad(SPACE, t, k, z);
    StraySpaces(t + k, t, z, |ps|);
    ReadLine(ps, w, SPACE, 0, z, 0);
    PrependAllClean(Texts(ps), Parameters([]));
  }

  /** Lines that end in a quoted argument. */
  lemma ReadsBackAfterQuote(ps: seq<Piece>, z: seq<byte>)
    requires Legal(ps) && |ps| <= MAX_PARAMETERS + 1 && !EndsBare(ps) && Terminated(z) && z[0] == NUL
    requires LastIs(Line(ps, []), QUOTE)
    ensures Tokenise(Unread(Line(ps, []), QUOTE, 0, z, false), 0)
         == PrependAll(Texts(ps), StrayQuotes(TotalEscapes(ps), |ps|))
  {
    hide Tokenise, Line, Texts, LastIs, Pad, TotalEscapes, Unread, PrependAll, StrayQuotes, Legal;
    var k := TotalEscapes(ps);
    UnreadNothing(k, z);
    StrayQuotesRead(k, 0, z, |ps|);
    ReadLine(ps, [], QUOTE, 0, z, 0);
  }

  lemma UnreadNothing(k: nat, z: seq<byte>)
    requires Terminated(z)
    ensures Unread([], QUOTE, k, z, false) == Position(Pad(QUOTE, k, z), 0, false)
  {
    assert [] + Pad(QUOTE, k, z) == Pad(QUOTE, k, z);
  }

  lemma GapEaten(front: seq<Piece>, gap: nat, body: seq<byte>)
    requires EndsBare(front) ==> gap > 0
    ensures AfterLast(front, Pad(SPACE, gap, body)) == Pad(SPACE, if EndsBare(front) then gap - 1 else gap, body)
    ensures EndsBare(front) ==> Pad(SPACE, gap, body) != [] && Pad(SPACE, gap, body)[0] == SPACE
  {
  }

  lemma PrependAllLast(ts: seq<seq<byte>>, t: seq<byte>, o: Outcome)
    ensures PrependAll(ts, o) == Parameters(ts + [t]) <==> o == Parameters([t])
  {
    if o.Parameters? && ts + o.texts == ts + [t] {
      assert o.texts == (ts + o.texts)[|ts|..] == [t];
    }
  }

  lemma {:induction false} LastBehindLine(ps: seq<Piece>, w: seq<byte>, c: byte)
    requires Legal(ps) && LastIs(Line(ps, w), c)
    ensures LastIs(w, c) && LastIs(AfterLast(ps, w), c)
    decreases |ps|
  {
    if ps != [] {
      LastOfLine(ps[0], Line(ps[1..], w), c);
      hide Line;
      LastBehindLine(ps[1..], w, c);
    }
  }

  /** The last argument with the gap that is left when the reader gets to it. */
  function LastPiece(ps: seq<Piece>): (q: Piece)
    requires ps != [] && Legal(ps)
    ensures q.text == ps[|ps| - 1].text && q.quoted == ps[|ps| - 1].quoted && LegalText(q)
  {
    var n := |ps| - 1;
    if EndsBare(ps[..n]) then ps[n].(gap := ps[n].gap - 1) else ps[n]
  }

  lemma FrontLegal(ps: seq<Piece>)
    requires ps != [] && Legal(ps)
    ensures Legal(ps[..|ps| - 1]) && (EndsBare(ps[..|ps| - 1]) ==> ps[|ps| - 1].gap > 0)
  {
  }

  lemma BodyIgnoresGap(ps: seq<Piece>, w: seq<byte>)
    requires ps != [] && Legal(ps)
    ensures Body(LastPiece(ps), w) == Body(ps[|ps| - 1], w)
  {
  }

  lemma ReadFront(ps: seq<Piece>, w: seq<byte>, c: byte, z: seq<byte>)
    requires ps != [] && Legal(ps) && |ps| <= MAX_PARAMETERS + 1 && Terminated(z) && LastIs(Line(ps, w), c)
    ensures var n, q := |ps| - 1, LastPiece(ps);
            var last := Pad(SPACE, q.gap, Body(q, w));
            && LastIs(last, c)
            && Tokenise(Unread(Line(ps, w), c, 0, z, false), 0)
            == PrependAll(Texts(ps[..n]), Tokenise(Unread(last, c, TotalEscapes(ps[..n]), z, false), n))
  {
    hide Tokenise, Line, Texts, LastIs, Pad, TotalEscapes, AfterLast, Unread, PrependAll, Escapes, Body, Legal;
    var n := |ps| - 1;
    var front, p := ps[..n], ps[n];
    var body := Body(p, w);
    FrontLegal(ps);
    BodyIgnoresGap(ps, w);
    LineSnoc(ps, w);
    GapEaten(front, p.gap, body);
    ReadLine(front, Pad(SPACE, p.gap, body), c, 0, z, 0);
    LastBehindLine(front, Pad(SPACE, p.gap, body), c);
  }

  /** Lines that end in a bare argument. */
  lemma ReadsBackAfterBare(ps: seq<Piece>, c: byte, z: seq<byte>)
    requires Legal(ps) && |ps| <= MAX_PARAMETERS + 1 && EndsBare(ps) && Terminated(z) && z[0] == NUL
    requires LastIs(Line(ps, []), c)
    ensures Tokenise(Unread(Line(ps, []), c, 0, z, false), 0) == Parameters(Texts(ps)) <==> TotalEscapes(ps) == 0
  {
    hide Tokenise, Line, Texts, LastIs, Pad, TotalEscapes, Unread, PrependAll, Escapes, Legal, LastPiece, Body;
    var n, q := |ps| - 1, LastPiece(ps);
    var k := TotalEscapes(ps[..n]);
    LineSnoc(ps, []);
    ReadFront(ps, [], c, z);
    BareAtEnd(q, c, k, z, n);
    PrependAllLast(Texts(ps[..n]), q.text, Tokenise(Unread(Pad(SPACE, q.gap, Body(q, [])), c, k, z, false), n));
  }

  /**
    The round trip, exactly. Spell out at most 18 arguments, each bare or quoted with its quotes and
    backslashes escaped, and tokenise the line: the arguments come back if and only if nothing had to be
    escaped, or a space follows the last argument, or there are 18 arguments and the last one is quoted.
  */
  lemma RoundTrip(ps: seq<Piece>, trailing: nat, z: seq<byte>)
    requires Legal(ps) && |ps| <= MAX_PARAMETERS + 1 && Terminated(z) && z[0] == NUL
    ensures var line := Line(ps, Pad(SPACE, trailing, []));
            Tokenise(Position(line + z, |line|, false), 0) == Parameters(Texts(ps)) <==> ReadsBack(ps, trailing)
  {
    var w := Pad(SPACE, trailing, []);
    var line := Line(ps, w);
    LastByte(ps, trailing);
    if trailing > 0 {
      assert Unread(line, SPACE, 0, z, false) == Position(line + z, |line|, false);
      ReadsBackBeforeSpace(ps, trailing, z);
    } else if !EndsBare(ps) {
      assert Unread(line, QUOTE, 0, z, false) == Position(line + z, |line|, false);
      ReadsBackAfterQuote(ps, z);
      PrependAllClean(Texts(ps), StrayQuotes(TotalEscapes(ps), |ps|));
    } else {
      var c := line[|line| - 1];
      assert Unread(line, c, 0, z, false) == Position(line + z, |line|, false);
      ReadsBackAfterBare(ps, c, z);
    }
  }

  /**
    Eighteen arguments and whatever follows them: the eighteen come back, escapes or not, and the rest of the
    line is not looked at.
  */
  lemma EighteenThenAnything(ps: seq<Piece>, w: seq<byte>, z: seq<byte>)
    requires Legal(ps) && |ps| == 18 && Terminated(z)
    requires EndsBare(ps) ==> w != [] && w[0] == SPACE
    ensures var line := Line(ps, w);
            Tokenise(Position(line + z, |line|, false), 0) == Parameters(Texts(ps))
  {
    hide Tokenise, Line, Texts, Pad, TotalEscapes, Legal, EndsBare;
    var line := Line(ps, w);
    var c := if line == [] then SPACE else line[|line| - 1];
    assert Unread(line, c, 0, z, false) == Position(line + z, |line|, false) by { PadNone(c, z); }
    ReadLine(ps, w, c, 0, z, 0);
    var p := Unread(AfterLast(ps, w), c, TotalEscapes(ps), z, false);
    ReadDone(p, |ps|);
    PrependAllClean(Texts(ps), Tokenise(p, |ps|));
  }

  lemma PadNone(c: byte, z: seq<byte>)
    ensures Pad(c, 0, z) == z
  {
  }

  /** Of more than eighteen arguments the first eighteen come back, and the others are dropped without an error. */
  lemma MoreThanEighteen(ps: seq<Piece>, trailing: nat, z: seq<byte>)
    requires Legal(ps) && |ps| > MAX_PARAMETERS + 1 && Terminated(z)
    ensures var line := Line(ps, Pad(SPACE, trailing, []));
            Tokenise(Position(line + z, |line|, false), 0) == Parameters(Texts(ps[..MAX_PARAMETERS + 1]))
  {
    hide Tokenise, Texts, Line;
    var n, w := MAX_PARAMETERS + 1, Pad(SPACE, trailing, []);
    LineSplit(ps, n, w);
    assert Legal(ps[..n]);
    NextStartsWithSpace(ps, n, w);
    EighteenThenAnything(ps[..n], Line(ps[n..], w), z);
  }

  lemma NextStartsWithSpace(ps: seq<Piece>, n: nat, w: seq<byte>)
    requires Legal(ps) && 0 < n < |ps|
    ensures EndsBare(ps[..n]) ==> Line(ps[n..], w) != [] && Line(ps[n..], w)[0] == SPACE
  {
    hide Body;
    var qs := ps[n..];
    assert ps[..n][n - 1] == ps[n - 1] && qs[0] == ps[n];
    if EndsBare(ps[..n]) {
      assert Line(qs, w) == Pad(SPACE, qs[0].gap, Body(qs[0], Line(qs[1..], w)));
      assert qs[0].gap > 0;
    }
  }

  lemma {:induction false} PadIsUniform(c: byte, n: nat)
    ensures LastIs(Pad(c, n, []), c)
  {
    if n > 1 {
      PadIsUniform(c, n - 1);
    }
  }

  lemma {:induction false} LineIsLonger(ps: seq<Piece>, w: seq<byte>)
    ensures |Line(ps, w)| >= |w|
  {
    if ps != [] {
      LineIsLonger(ps[1..], w);
    }
  }

  /** The last byte of a typed line, of which the escapes leave copies behind. */
  lemma LastByte(ps: seq<Piece>, trailing: nat)
    requires Legal(ps)
    ensures var line := Line(ps, Pad(SPACE, trailing, []));
            if trailing > 0 then LastIs(line, SPACE) else if EndsBare(ps) then line != [] else LastIs(line, QUOTE)
  {
    var w := Pad(SPACE, trailing, []);
    var line := Line(ps, w);
    if trailing > 0 {
      LineIsLonger(ps, w);
      PadIsUniform(SPACE, trailing);
      LastBehindLine(ps, w, line[|line| - 1]);
    } else if ps != [] {
      hide Line;
      LastByteOfPiece(ps);
    }
  }

  lemma LastByteOfPiece(ps: seq<Piece>)
    requires Legal(ps) && ps != []
    ensures var line := Line(ps, []);
            line != [] && (!EndsBare(ps) ==> LastIs(line, QUOTE))
  {
    hide Line, Escaped, Pad, AfterLast;
    var n := |ps| - 1;
    var front, p := ps[..n], ps[n];
    var last := Pad(SPACE, p.gap, Body(p, []));
    LineSnoc(ps, []);
    LineIsLonger(front, last);
    assert last != [];
    if p.quoted {
      var c := Line(ps, [])[|Line(ps, [])| - 1];
      assert Legal(front);
      LastBehindLine(front, last, c);
      LastOfPad(SPACE, p.gap, Body(p, []), c);
      assert [QUOTE] + [] == [QUOTE];
      LastOfCons(QUOTE, Escaped(p.text, [QUOTE]), c);
      LastOfEscaped(p.text, [QUOTE], c);
    }
  }

  // ----- The in-place algorithm -----

  /** One turn of the inner loop, seen from the reader's side; `text` is what was read before. */
  lemma CutTurn(rest: seq<byte>, left: int, inside: bool, text: seq<byte>, moved: seq<byte>, left': int, ok: bool)
    requires Terminated(rest) && left < |rest| && !EndsParameter(rest[0], inside)
    requires ok == (rest[0] == BACKSLASH ==> 1 < left && Escapable(rest[1]))
    requires if ok && rest[0] == BACKSLASH then moved == DropEscape(rest, left) && left' == left - 1
             else moved == rest && left' == left
    ensures Terminated(moved[1..]) && left' - 1 < |moved[1..]|
    ensures CutParameter(rest, left, inside).Behind(text)
         == if ok then CutParameter(moved[1..], left' - 1, inside).Behind(text + [moved[0]])
            else Cut(text + [moved[0]], moved[1..], left' - 1, false)
  {
    hide Cut.Behind;
    if ok {
      var d := CutParameter(moved[1..], left' - 1, inside);
      BehindTwice(d, text, [moved[0]]);
    } else {
      BehindNone(Cut([moved[0]], moved[1..], left' - 1, false), text);
    }
  }

  lemma BehindTwice(c: Cut, x: seq<byte>, y: seq<byte>)
    ensures c.Behind(y).Behind(x) == c.Behind(x + y)
  {
    assert x + (y + c.text) == x + y + c.text;
  }

  lemma BehindNone(c: Cut, x: seq<byte>)
    ensures c.Behind(x) == Cut(x + c.text, c.rest, c.left, c.ok)
  {
  }

  lemma BehindNil(c: Cut)
    ensures c.Behind([]) == c
  {
    assert [] + c.text == c.text;
  }

  lemma CutDone(rest: seq<byte>, left: int, inside: bool, text: seq<byte>)
    requires Terminated(rest) && left < |rest| && EndsParameter(rest[0], inside)
    ensures CutParameter(rest, left, inside).Behind(text) == Cut(text, rest, left, true)
  {
    assert text + [] == text;
  }

  /** The move that closes up an escape character. */
  method DropEscapeInPlace(a: array<byte>, index: nat, length: nat)
    requires index + 1 < length <= a.Length
    modifies a
    ensures a[..index] == old(a[..index]) && a[length - 1..] == old(a[length - 1..])
    ensures a[index..] == DropEscape(old(a[index..]), length - index)
  {
    forall j | index <= j < length - 1 {
      a[j] := a[j + 1];
    }
  }

  /** The escape handling inside the inner loop. */
  method HandleEscape(a: array<byte>, index: nat, length: nat) returns (length': nat, ok: bool)
    requires index + 1 < a.Length && length < a.Length && a[a.Length - 1] == NUL
    modifies a
    ensures a[..index] == old(a[..index]) && a[a.Length - 1] == NUL && length' < a.Length
    ensures ok == (old(a[index]) == BACKSLASH ==> index + 1 < length && Escapable(old(a[index + 1])))
    ensures if ok && old(a[index]) == BACKSLASH
            then a[index..] == DropEscape(old(a[index..]), length - index) && length' == length - 1
            else a[index..] == old(a[index..]) && length' == length
  {
    length', ok := length, true;
    if a[index] == BACKSLASH {
      if index + 1 < length {
        if Escapable(a[index + 1]) {
          DropEscapeInPlace(a, index, length);
          length' := length - 1;
        } else {
          ok := false;
        }
      } else {
        ok := false;
      }
    }
  }

  /** The inner loop: finds the end of a parameter, closing up escapes in the buffer as it goes. */
  method CutInPlace(a: array<byte>, index: nat, length: nat, inside: bool)
    returns (stop: nat, length': nat, ok: bool)
    requires index < a.Length && a[a.Length - 1] == NUL && length < a.Length
    modifies a
    ensures index <= stop < a.Length && a[a.Length - 1] == NUL && length' < a.Length
    ensures a[..index] == old(a[..index])
    ensures Cut(a[index..stop], a[stop..], length' - stop, ok)
         == CutParameter(old(a[index..]), length - index, inside)
  {
    hide CutParameter, Cut.Behind;
    stop, length', ok := index, length, true;
    ghost var goal := CutParameter(a[index..], length - index, inside);
    BehindNil(goal);
    assert a[index..index] == [];
    while ok && !EndsParameter(a[stop], inside)
      invariant index <= stop < a.Length && a[a.Length - 1] == NUL && length' < a.Length
      invariant a[..index] == old(a[..index])
      invariant goal == if ok then CutParameter(a[stop..], length' - stop, inside).Behind(a[index..stop])
                        else Cut(a[index..stop], a[stop..], length' - stop, false)
      decreases ok, a.Length - stop
    {
      ghost var text, front := a[index..stop], a[..stop];
      length', ok := CutOneInPlace(a, stop, length', inside, text);
      stop := stop + 1;
      NextText(a[..], front, index, stop);
    }
    if ok {
      CutDone(a[stop..], length' - stop, inside, a[index..stop]);
    }
  }

  lemma NextText(whole: seq<byte>, front: seq<byte>, index: nat, stop: nat)
    requires index < stop <= |whole| && whole[..stop - 1] == front
    ensures whole[index..stop] == front[index..] + [whole[stop - 1]] && whole[..index] == front[..index]
  {
  }

  /** One turn of the loop. */
  method CutOneInPlace(a: array<byte>, stop: nat, length: nat, inside: bool, ghost text: seq<byte>)
    returns (length': nat, ok: bool)
    requires stop < a.Length && a[a.Length - 1] == NUL && length < a.Length && !EndsParameter(a[stop], inside)
    modifies a
    ensures stop + 1 < a.Length && a[a.Length - 1] == NUL && length' < a.Length && a[..stop] == old(a[..stop])
    ensures CutParameter(old(a[stop..]), length - stop, inside).Behind(text)
         == if ok then CutParameter(a[stop + 1..], length' - stop - 1, inside).Behind(text + [a[stop]])
            else Cut(text + [a[stop]], a[stop + 1..], length' - stop - 1, false)
  {
    hide CutParameter, Cut.Behind, DropEscape;
    ghost var rest := a[stop..];
    length', ok := HandleEscape(a, stop, length);
    ghost var moved := a[stop..];
    CutTurn(rest, length - stop, inside, text, moved, length' - stop, ok);
    assert moved[1..] == a[stop + 1..];
  }

  /** Consumes leading spaces and an opening quote. */
  method BeginInPlace(a: array<byte>, index: nat, length: nat, inside: bool) returns (start: nat, inside': bool)
    requires index < a.Length && a[a.Length - 1] == NUL && length < a.Length && a[index] != NUL
    ensures index <= start < a.Length
    ensures Position(a[start..], length - start, inside')
         == BeginParameter(Position(a[index..], length - index, inside))
  {
    start, inside' := index, inside;
    while a[start] == SPACE
      decreases a.Length - start
      invariant index <= start < a.Length
      invariant SkipSpaces(a[index..]) == SkipSpaces(a[start..])
    {
      assert a[start..][1..] == a[start + 1..];
      start := start + 1;
    }
    if a[start] == QUOTE {
      inside' := true;
      assert a[start..][1..] == a[start + 1..];
      start := start + 1;
    }
  }

  /** Terminates a parameter in the buffer and steps over the character that ended it. */
  method EndInPlace(a: array<byte>, stop: nat, length: nat, inside: bool) returns (next: nat, inside': bool)
    requires stop < a.Length && a[a.Length - 1] == NUL && length < a.Length
    modifies a
    ensures next < a.Length && a[a.Length - 1] == NUL && a[stop] == NUL && a[..stop] == old(a[..stop])
    ensures next == if old(a[stop]) == NUL then stop else stop + 1
    ensures Position(a[next..], length - next, inside')
         == EndParameter(Position(old(a[stop..]), length - stop, inside))
  {
    next, inside' := stop, inside;
    if a[stop] == QUOTE {
      inside' := !inside;
    }
    if a[stop] != NUL {
      a[stop] := NUL;
      next := stop + 1;
      assert a[next..] == old(a[stop..])[1..];
    }
  }

  lemma ReadBlank(p: Position, count: nat, b: Position)
    requires Terminated(p.rest) && p.left < |p.rest| && p.rest[0] != NUL && count <= MAX_PARAMETERS
    requires b == BeginParameter(p) && b.rest[0] == NUL
    ensures Tokenise(p, count) == Tokenise(b, count)
  {
  }

  lemma PrependSnoc(ts: seq<seq<byte>>, t: seq<byte>, o: Outcome)
    ensures PrependAll(ts, Prepend(t, o)) == PrependAll(ts + [t], o)
  {
    if o.Parameters? {
      assert ts + ([t] + o.texts) == ts + [t] + o.texts;
    }
  }

  /** One turn of the outer loop that reads a parameter, behind the texts already read. */
  lemma OneParameter(p: Position, count: nat, b: Position, texts: seq<seq<byte>>)
    requires Terminated(p.rest) && p.left < |p.rest| && p.rest[0] != NUL && count <= MAX_PARAMETERS
    requires b == BeginParameter(p) && b.rest[0] != NUL
    ensures var c := CutParameter(b.rest, b.left, b.inside);
            var after := EndParameter(Position(c.rest, c.left, b.inside));
            && (c.ok ==>
                  PrependAll(texts, Tokenise(p, count)) == PrependAll(texts + [c.text], Tokenise(after, count + 1)))
            && (!c.ok ==> PrependAll(texts, Tokenise(p, count)) == Rejected)
  {
    hide Tokenise, Prepend, PrependAll, BeginParameter, CutParameter;
    var c := CutAt(b);
    if c.ok {
      ReadStep(p, count, b, c);
      PrependSnoc(texts, c.text, Tokenise(EndParameter(Position(c.rest, c.left, b.inside)), count + 1));
    } else {
      ReadBad(p, count, b);
      PrependRejected(texts);
    }
  }

  lemma PrependRejected(ts: seq<seq<byte>>)
    ensures PrependAll(ts, Rejected) == Rejected
  {
  }

  /** The text sits in the buffer at `start`, terminated, and wholly before `index`. */
  ghost predicate Stored(b: seq<byte>, start: nat, text: seq<byte>, index: nat) {
    && start + |text| < |b| && b[start..start + |text|] == text && b[start + |text|] == NUL && NUL !in text
    && (start + |text| < index || (index == start + |text| && b[index] == NUL))
  }

  ghost predicate AllStored(b: seq<byte>, starts: seq<nat>, texts: seq<seq<byte>>, index: nat) {
    |starts| == |texts| && forall i :: 0 <= i < |starts| ==> Stored(b, starts[i], texts[i], index)
  }

  /** Bytes behind the reading position do not matter to what is stored before it. */
  lemma StoredStays(b: seq<byte>, b': seq<byte>, starts: seq<nat>, texts: seq<seq<byte>>, index: nat, index': nat)
    requires AllStored(b, starts, texts, index) && |b| == |b'| && index <= index' && index < |b|
    requires b[index] != NUL && b[..index] == b'[..index]
    ensures AllStored(b', starts, texts, index')
  {
    forall i | 0 <= i < |starts|
      ensures Stored(b', starts[i], texts[i], index')
    {
      var e := starts[i] + |texts[i]|;
      assert Stored(b, starts[i], texts[i], index);
      assert b'[starts[i]..e] == b'[..index][starts[i]..e] == b[..index][starts[i]..e] == b[starts[i]..e];
      assert b'[e] == b'[..index][e] == b[..index][e] == b[e];
    }
  }

  function TokensAt(b: seq<byte>, starts: seq<nat>): (r: seq<seq<byte>>)
    requires forall i :: 0 <= i < |starts| ==> starts[i] <= |b|
  {
    seq(|starts|, i requires 0 <= i < |starts| => CStringAt(b, starts[i]))
  }

  lemma StoredAreTokens(b: seq<byte>, starts: seq<nat>, texts: seq<seq<byte>>, index: nat)
    requires AllStored(b, starts, texts, index)
    ensures (forall i :: 0 <= i < |starts| ==> starts[i] <= |b|) && TokensAt(b, starts) == texts
  {
    forall i | 0 <= i < |starts|
      ensures starts[i] <= |b| && CStringAt(b, starts[i]) == texts[i]
    {
      assert Stored(b, starts[i], texts[i], index);
      CStringIs(b, starts[i], starts[i] + |texts[i]|);
    }
  }

  lemma StoreOneMore(b: seq<byte>, starts: seq<nat>, texts: seq<seq<byte>>, start: nat, text: seq<byte>, index: nat)
    requires AllStored(b, starts, texts, index) && Stored(b, start, text, index)
    ensures AllStored(b, starts + [start], texts + [text], index)
  {
  }

  /** One parameter, from its first character to the first character behind it. */
  method ParameterInPlace(a: array<byte>, start: nat, length: nat, inside: bool)
    returns (next: nat, length': nat, inside': bool, ok: bool, ghost text: seq<byte>)
    requires start < a.Length && a[start] != NUL && a[a.Length - 1] == NUL && length < a.Length
    modifies a
    ensures start <= next < a.Length && a[a.Length - 1] == NUL && length' < a.Length
    ensures a[..start] == old(a[..start]) && Stored(a[..], start, text, next)
    ensures var c := CutParameter(old(a[start..]), length - start, inside);
            && ok == c.ok && text == c.text
            && Position(a[next..], length' - next, inside') == EndParameter(Position(c.rest, c.left, inside))
  {
    hide CutParameter, EndParameter, EndsParameter;
    var stop;
    stop, length', ok := CutInPlace(a, start, length, inside);
    text := a[start..stop];
    ghost var prefix := a[..stop];
    assert prefix[..start] == a[..start] && prefix[start..] == text;
    next, inside' := EndInPlace(a, stop, length', inside);
    assert a[..stop] == prefix;
    assert a[..][start..stop] == prefix[start..] && a[..start] == prefix[..start];
  }

  /**
    The tokeniser on the console's input buffer. It terminates, stays inside the buffer, keeps the buffer's
    final terminator, fills at most 18 parameter slots, and leaves behind exactly the parameters that
    `Tokenise` reads from the line.
  */
  method Process(a: array<byte>, inputLength: nat) returns (ok: bool, starts: seq<nat>)
    requires a.Length == COMMAND_STRING_LENGTH + 1 && a[COMMAND_STRING_LENGTH] == NUL
    requires inputLength <= COMMAND_STRING_LENGTH
    modifies a
    ensures a[256] == NUL && |starts| <= 18
    ensures forall i :: 0 <= i < |starts| ==> starts[i] < COMMAND_STRING_LENGTH
    ensures var o := Tokenise(Position(old(a[..]), inputLength, false), 0);
            ok == o.Parameters? && (ok ==> o.texts == TokensAt(a[..], starts))
  {
    hide Tokenise, PrependAll, Prepend, BeginParameter, CutParameter, CutAt, EndParameter, Stored;
    var index, length: nat, inside := 0, inputLength, false;
    ok, starts := true, [];
    ghost var texts: seq<seq<byte>> := [];
    ghost var p := Position(a[..], inputLength, false);
    ghost var goal := Tokenise(p, 0);
    assert a[0..] == a[..];
    PrependFirst([], [], goal);
    while ok && a[index] != NUL && |starts| <= MAX_PARAMETERS
      invariant index < a.Length && a[a.Length - 1] == NUL && length < a.Length && |starts| <= MAX_PARAMETERS + 1
      invariant AllStored(a[..], starts, texts, index)
      invariant forall i :: 0 <= i < |starts| ==> starts[i] < COMMAND_STRING_LENGTH
      invariant p == Position(a[index..], length - index, inside) && Terminated(p.rest)
      invariant goal == if ok then PrependAll(texts, Tokenise(p, |starts|)) else Rejected
      decreases ok, a.Length - index
    {
      ghost var before, index0 := a[..], index;
      var start;
      start, inside := BeginInPlace(a, index, length, inside);
      ghost var b := Position(a[start..], length - start, inside);
      if a[start] == NUL {
        StoredStays(before, a[..], starts, texts, index, start);
        ReadBlank(p, |starts|, b);
        index, p := start, b;
      } else {
        OneParameter(p, |starts|, b, texts);
        ghost var text;
        index, length, inside, ok, text := ParameterInPlace(a, start, length, inside);
        assert a[..index0] == a[..start][..index0];
        StoredStays(before, a[..], starts, texts, index0, index);
        StoreOneMore(a[..], starts, texts, start, text, index);
        starts, texts, p := starts + [start], texts + [text], Position(a[index..], length - index, inside);
      }
    }
    StoredAreTokens(a[..], starts, texts, index);
    PrependRejected(texts);
    PrependAllClean(texts, Parameters([]));
    if ok {
      ReadDone(p, |starts|);
    }
    if inside {
      ok := false;
    }
  }
}
