/**
  How the tokeniser reads what a list of separate arguments does not show: a quote that opens in the middle of an
  argument, a quote that is never closed, and escapes that are not allowed. Bytes are given by their codes here:
  32 is the space, 34 the quote and 92 the backslash.
*/
module QuoteLaws {
  import opened Bytes
  import opened Tokeniser

  // ----- A quote in the middle of an argument -----

  /** A bare text with a quoted one glued to it, after g spaces and with h spaces behind the opening quote. */
  function Glued(g: nat, x: seq<byte>, h: nat, y: seq<byte>, w: seq<byte>): seq<byte> {
    Pad(32, g, Escaped(x, [34] + Pad(32, h, Escaped(y, [34] + w))))
  }

  predicate LegalGlue(x: seq<byte>, y: seq<byte>) {
    && x != [] && 0 !in x && 32 !in x
    && y != [] && 0 !in y && y[0] != 32
  }

  /** With a quote open, spaces are skipped and the quote stays open. */
  lemma BeginInside(h: nat, content: seq<byte>, c: byte, j: nat, z: seq<byte>)
    requires Terminated(z) && content != [] && content[0] !in {NUL, QUOTE, SPACE}
    ensures var start := Unread(Pad(SPACE, h, content), c, j, z, true);
            start.rest[0] != NUL && BeginParameter(start) == Unread(content, c, j, z, true)
  {
    SkipGap(h, content, c, j, z);
  }

  /** The first of the two parameters: the quote ends it and stays open. */
  lemma ReadUpToQuote(g: nat, x: seq<byte>, w: seq<byte>, c: byte, j: nat, z: seq<byte>, count: nat)
    requires x != [] && NUL !in x && SPACE !in x && Terminated(z) && count <= MAX_PARAMETERS
    requires LastIs(Pad(SPACE, g, Escaped(x, [QUOTE] + w)), c)
    ensures Tokenise(Unread(Pad(SPACE, g, Escaped(x, [QUOTE] + w)), c, j, z, false), count)
         == Prepend(x, Tokenise(Unread(w, c, j + Escapes(x), z, true), count + 1))
  {
    hide Tokenise, CutAt, CutParameter, BeginParameter, Pad, Escaped, LastIs, Escapes;
    var content := Escaped(x, [QUOTE] + w);
    LastOfPad(SPACE, g, content, c);
    BareFirst(Piece(g, false, x), [QUOTE] + w);
    var start := Unread(Pad(SPACE, g, content), c, j, z, false);
    var inner := Unread(content, c, j, z, false);
    var tail := w + Pad(c, j + Escapes(x), z);
    BeginBare(g, content, c, j, z);
    CutStopsAtQuote(x, w, c, j, z, false);
    assert inner.rest[0] == content[0];
    ReadStep(start, count, inner, Cut(x, [QUOTE] + tail, |w| + 1, true));
    assert ([QUOTE] + tail)[1..] == tail;
  }

  /** The second of them: it runs to the closing quote, spaces and all. */
  lemma ReadInsideQuote(h: nat, y: seq<byte>, w: seq<byte>, c: byte, j: nat, z: seq<byte>, count: nat)
    requires y != [] && NUL !in y && y[0] != SPACE && Terminated(z) && count <= MAX_PARAMETERS
    requires LastIs(Pad(SPACE, h, Escaped(y, [QUOTE] + w)), c)
    ensures Tokenise(Unread(Pad(SPACE, h, Escaped(y, [QUOTE] + w)), c, j, z, true), count)
         == Prepend(y, Tokenise(Unread(w, c, j + Escapes(y), z, false), count + 1))
  {
    hide Tokenise, CutAt, CutParameter, BeginParameter, Pad, Escaped, LastIs, Escapes;
    var content := Escaped(y, [QUOTE] + w);
    LastOfPad(SPACE, h, content, c);
    InnerFirst(y, [QUOTE] + w);
    var start := Unread(Pad(SPACE, h, content), c, j, z, true);
    var inner := Unread(content, c, j, z, true);
    var tail := w + Pad(c, j + Escapes(y), z);
    BeginInside(h, content, c, j, z);
    CutStopsAtQuote(y, w, c, j, z, true);
    assert inner.rest[0] == content[0];
    ReadStep(start, count, inner, Cut(y, [QUOTE] + tail, |w| + 1, true));
    assert ([QUOTE] + tail)[1..] == tail;
  }

  lemma InnerFirst(y: seq<byte>, w: seq<byte>)
    requires y != [] && NUL !in y && y[0] != SPACE
    ensures Escaped(y, w)[0] !in {NUL, QUOTE, SPACE}
  {
    assert y[0] in y;
  }

  lemma LastBehindQuote(g: nat, x: seq<byte>, w: seq<byte>, c: byte)
    requires LastIs(Pad(SPACE, g, Escaped(x, [QUOTE] + w)), c)
    ensures LastIs(w, c)
  {
    hide Pad, Escaped;
    LastOfPad(SPACE, g, Escaped(x, [QUOTE] + w), c);
    LastOfEscaped(x, [QUOTE] + w, c);
    LastOfCons(QUOTE, w, c);
  }

  /**
    A bare text with a quoted one glued to it reads as two parameters, wherever it stands on the line, whatever
    is escaped in it and whatever follows; spaces right behind the opening quote are lost.
  */
  lemma GluedReadsAsTwo(ps: seq<Piece>, g: nat, x: seq<byte>, h: nat, y: seq<byte>, w: seq<byte>, c: byte, z: seq<byte>)
    requires Legal(ps) && |ps| <= 16 && (EndsBare(ps) ==> g > 0) && LegalGlue(x, y) && Terminated(z)
    requires LastIs(Line(ps, Glued(g, x, h, y, w)), c)
    ensures var rest := Unread(w, c, TotalEscapes(ps) + Escapes(x) + Escapes(y), z, false);
            Tokenise(Unread(Line(ps, Glued(g, x, h, y, w)), c, 0, z, false), 0)
            == PrependAll(Texts(ps), Prepend(x, Prepend(y, Tokenise(rest, |ps| + 2))))
  {
    hide Tokenise, Line, Texts, LastIs, TotalEscapes, Unread, PrependAll, Prepend, Escapes, Escaped, Legal;
    var inner := Pad(SPACE, h, Escaped(y, [QUOTE] + w));
    var body := Escaped(x, [QUOTE] + inner);
    var m := if EndsBare(ps) then g - 1 else g;
    GapEaten(ps, g, body);
    LastBehindLine(ps, Pad(SPACE, g, body), c);
    ReadLine(ps, Pad(SPACE, g, body), c, 0, z, 0);
    LastBehindQuote(m, x, inner, c);
    ReadUpToQuote(m, x, inner, c, TotalEscapes(ps), z, |ps|);
    ReadInsideQuote(h, y, w, c, TotalEscapes(ps) + Escapes(x), z, |ps| + 1);
  }

  predicate Plain(x: seq<byte>) {
    0 !in x && 34 !in x && 92 !in x
  }

  lemma {:induction false} PlainIsItself(x: seq<byte>, w: seq<byte>)
    requires Plain(x)
    ensures Escaped(x, w) == x + w && Escapes(x) == 0
  {
    if x == [] {
      assert x + w == w;
    } else {
      assert x[0] in x;
      PlainIsItself(x[1..], w);
      assert [x[0]] + (x[1..] + w) == x + w;
    }
  }

  /** The line x"y" with any spaces behind it: two parameters, and no error. */
  lemma QuoteInTheMiddle(x: seq<byte>, y: seq<byte>, trailing: nat, z: seq<byte>)
    requires LegalGlue(x, y) && Plain(x) && Plain(y) && Terminated(z) && z[0] == 0
    ensures var line := x + [34] + y + [34] + Pad(32, trailing, []);
            Tokenise(Position(line + z, |line|, false), 0) == Parameters([x, y])
  {
    hide Tokenise, PrependAll, Escaped, Escapes;
    var w := Pad(SPACE, trailing, []);
    var line := x + [34] + y + [34] + w;
    PlainIsItself(y, [QUOTE] + w);
    PlainIsItself(x, [QUOTE] + (y + ([QUOTE] + w)));
    assert line == x + ([QUOTE] + (y + ([QUOTE] + w)));
    assert line == Line([], Glued(0, x, 0, y, w));
    var c := line[|line| - 1];
    GluedReadsAsTwo([], 0, x, 0, y, w, c, z);
    PadNone(c, z);
    PadPad(SPACE, trailing, 0, z);
    assert Unread(w, c, 0, z, false) == Position(Pad(SPACE, trailing, z), trailing, false) by { PadNone(SPACE, z); }
    StraySpaces(trailing, trailing, z, 2);
    TwoParameters(x, y);
  }

  lemma TwoParameters(x: seq<byte>, y: seq<byte>)
    ensures PrependAll([], Prepend(x, Prepend(y, Parameters([])))) == Parameters([x, y])
  {
    assert [x] + ([y] + []) == [x, y] && [] + [x, y] == [x, y];
  }

  // ----- A quote that is not closed -----

  /** Inside a quote, plain text and stale copies of its last byte run to the end of the line. */
  lemma {:induction false} RunsToEnd(t: seq<byte>, c: byte, j: nat, z: seq<byte>)
    requires Plain(t) && Terminated(z) && z[0] == NUL && c !in {NUL, QUOTE, BACKSLASH}
    ensures var r := CutAt(Unread(t, c, j, z, true));
            r.ok && r.rest == z
    decreases |t|, j
  {
    if t != [] {
      assert t[0] in t;
      assert t == [t[0]] + t[1..];
      RunsToEnd(t[1..], c, j, z);
      StepPlain(t[0], t[1..], c, j, z, true);
    } else {
      assert [] + Pad(c, j, z) == Pad(c, j, z);
      StaleRunsToEnd(c, j, 0, z);
    }
  }

  lemma {:induction false} StaleRunsToEnd(c: byte, j: nat, left: int, z: seq<byte>)
    requires Terminated(z) && z[0] == NUL && c !in {NUL, QUOTE, BACKSLASH} && left <= 0
    ensures var r := CutParameter(Pad(c, j, z), left, true);
            r.ok && r.rest == z
    decreases j
  {
    if j > 0 {
      var rest := Pad(c, j, z);
      assert rest[0] == c && rest[1..] == Pad(c, j - 1, z);
      StaleRunsToEnd(c, j - 1, left - 1, z);
    }
  }

  /** A position with a quote open in front of plain text rejects the line, trailing spaces or not. */
  lemma OpenQuoteRejects(t: seq<byte>, c: byte, j: nat, z: seq<byte>, count: nat)
    requires Plain(t) && t != [] && LastIs(t, c) && t[0] != SPACE && Terminated(z) && z[0] == NUL
    requires count <= MAX_PARAMETERS
    ensures Tokenise(Unread(t, c, j, z, true), count) == Rejected
  {
    hide Tokenise, CutAt, CutParameter, BeginParameter, Pad;
    var p := Unread(t, c, j, z, true);
    assert t[0] in t && t[|t| - 1] in t;
    assert Pad(SPACE, 0, t) == t by { PadNone(SPACE, t); }
    BeginInside(0, t, c, j, z);
    RunsToEnd(t, c, j, z);
    var r := CutAt(p);
    ReadStep(p, count, p, r);
    ReadDone(EndParameter(Position(r.rest, r.left, true)), count + 1);
  }

  lemma NothingInFront(t: seq<byte>, ts: seq<seq<byte>>)
    ensures Prepend(t, Rejected) == Rejected && PrependAll(ts, Rejected) == Rejected
  {
  }

  /** The line x"y without the closing quote is rejected; y may hold and end in spaces. */
  lemma MissingQuoteRejects(x: seq<byte>, y: seq<byte>, z: seq<byte>)
    requires LegalGlue(x, y) && Plain(x) && Plain(y) && Terminated(z) && z[0] == 0
    ensures var line := x + [34] + y;
            Tokenise(Position(line + z, |line|, false), 0) == Rejected
  {
    hide Tokenise, Escaped, Escapes, Prepend;
    var line, c := x + [34] + y, y[|y| - 1];
    PlainIsItself(x, [QUOTE] + y);
    assert line == x + ([QUOTE] + y);
    PadNone(c, z);
    PadNone(SPACE, line);
    ReadUpToQuote(0, x, y, c, 0, z, 0);
    OpenQuoteRejects(y, c, 0, z, 1);
    NothingInFront(x, []);
  }

  /** So is a line that opens a quote at the start of an argument, behind any arguments, and does not close it. */
  lemma OpenArgumentRejects(ps: seq<Piece>, g: nat, y: seq<byte>, z: seq<byte>)
    requires Legal(ps) && |ps| <= 17 && (EndsBare(ps) ==> g > 0) && Plain(y) && y != [] && Terminated(z) && z[0] == 0
    ensures var line := Line(ps, Pad(32, g, [34] + y));
            Tokenise(Position(line + z, |line|, false), 0) == Rejected
  {
    hide Tokenise, Line, Texts, TotalEscapes, PrependAll, Legal, LastIs;
    var body, c := [QUOTE] + y, y[|y| - 1];
    var line := Line(ps, Pad(SPACE, g, body));
    LastOfWhole(ps, g, body, c);
    PadNone(c, z);
    var m := if EndsBare(ps) then g - 1 else g;
    GapEaten(ps, g, body);
    ReadLine(ps, Pad(SPACE, g, body), c, 0, z, 0);
    var k := TotalEscapes(ps);
    QuotedOpenRejects(m, y, c, k, z, |ps|);
    NothingInFront([], Texts(ps));
  }

  lemma LastOfWhole(ps: seq<Piece>, g: nat, body: seq<byte>, c: byte)
    requires body != [] && body[|body| - 1] == c
    ensures LastIs(Line(ps, Pad(SPACE, g, body)), c)
    decreases |ps|
  {
    LastOfLongPad(SPACE, g, body);
    LastOfLongLine(ps, Pad(SPACE, g, body));
  }

  lemma {:induction false} LastOfLongPad(s: byte, g: nat, w: seq<byte>)
    requires w != []
    ensures Pad(s, g, w) != [] && Pad(s, g, w)[|Pad(s, g, w)| - 1] == w[|w| - 1]
  {
    if g > 0 {
      LastOfLongPad(s, g - 1, w);
    }
  }

  lemma {:induction false} LastOfLongEscaped(x: seq<byte>, w: seq<byte>)
    requires w != []
    ensures Escaped(x, w) != [] && Escaped(x, w)[|Escaped(x, w)| - 1] == w[|w| - 1]
  {
    if x != [] {
      LastOfLongEscaped(x[1..], w);
    }
  }

  lemma {:induction false} LastOfLongLine(ps: seq<Piece>, w: seq<byte>)
    requires w != []
    ensures Line(ps, w) != [] && Line(ps, w)[|Line(ps, w)| - 1] == w[|w| - 1]
    decreases |ps|
  {
    hide Pad, Body;
    if ps != [] {
      var rest := Line(ps[1..], w);
      LastOfLongLine(ps[1..], w);
      LastOfLongBody(ps[0], rest);
      LastOfLongPad(SPACE, ps[0].gap, Body(ps[0], rest));
    }
  }

  lemma LastOfLongBody(p: Piece, w: seq<byte>)
    requires w != []
    ensures Body(p, w) != [] && Body(p, w)[|Body(p, w)| - 1] == w[|w| - 1]
  {
    hide Escaped;
    LastOfLongEscaped(p.text, [QUOTE] + w);
    LastOfLongEscaped(p.text, w);
  }

  lemma QuotedOpenRejects(g: nat, y: seq<byte>, c: byte, j: nat, z: seq<byte>, count: nat)
    requires Plain(y) && y != [] && y[|y| - 1] == c && Terminated(z) && z[0] == NUL && count <= MAX_PARAMETERS
    ensures Tokenise(Unread(Pad(SPACE, g, [QUOTE] + y), c, j, z, false), count) == Rejected
  {
    hide Tokenise, CutAt, CutParameter, BeginParameter, Pad;
    var start, inner := Unread(Pad(SPACE, g, [QUOTE] + y), c, j, z, false), Unread(y, c, j, z, true);
    assert y[0] in y && y[|y| - 1] in y;
    BeginQuoted(g, y, c, j, z);
    RunsToEnd(y, c, j, z);
    var r := CutAt(inner);
    assert inner.rest[0] == y[0];
    ReadStep(start, count, inner, r);
    ReadDone(EndParameter(Position(r.rest, r.left, true)), count + 1);
    NothingInFront(r.text, []);
  }

  // ----- Escapes -----

  /** What stands behind a legal text before a backslash that escapes nothing. */
  predicate BadEscape(t: seq<byte>) {
    t == [92] || (|t| > 1 && t[0] == 92 && t[1] != 34 && t[1] != 92)
  }

  lemma BadCut(x: seq<byte>, t: seq<byte>, c: byte, j: nat, z: seq<byte>, inside: bool)
    requires NUL !in x && (inside || SPACE !in x) && BadEscape(t) && LastIs(Escaped(x, t), c) && Terminated(z)
    ensures !CutAt(Unread(Escaped(x, t), c, j, z, inside)).ok
  {
    hide CutParameter, CutAt, Escaped, Escapes, LastIs, Unread, BadEscape;
    BadAtOnce(t, c, j + Escapes(x), z, inside);
    CutReadsEscaped(x, t, c, j, z, inside);
  }

  lemma BadAtOnce(t: seq<byte>, c: byte, j: nat, z: seq<byte>, inside: bool)
    requires BadEscape(t) && Terminated(z)
    ensures !CutAt(Unread(t, c, j, z, inside)).ok
  {
    hide Pad;
    var rest := t + Pad(c, j, z);
    assert rest[0] == 92 && (|t| > 1 ==> rest[1] == t[1]);
  }

  /**
    A backslash in front of anything but a quote or a backslash, or at the very end of the line, rejects the line,
    behind any arguments and any legal text; the stale copies of the line's last byte do not count.
  */
  lemma BadEscapeRejects(ps: seq<Piece>, g: nat, x: seq<byte>, t: seq<byte>, z: seq<byte>)
    requires Legal(ps) && |ps| <= 17 && (EndsBare(ps) ==> g > 0) && NUL !in x && SPACE !in x && BadEscape(t)
    requires Terminated(z)
    ensures var line := Line(ps, Pad(32, g, Escaped(x, t)));
            Tokenise(Position(line + z, |line|, false), 0) == Rejected
  {
    hide Tokenise, Line, Texts, TotalEscapes, PrependAll, Legal, Escaped, LastIs, CutAt, CutParameter;
    var body, c := Escaped(x, t), t[|t| - 1];
    LastOfLongEscaped(x, t);
    LastOfWhole(ps, g, body, c);
    LastIsLast(body, c);
    PadNone(c, z);
    var m := if EndsBare(ps) then g - 1 else g;
    GapEaten(ps, g, body);
    ReadLine(ps, Pad(SPACE, g, body), c, 0, z, 0);
    var k := TotalEscapes(ps);
    BadFirst(x, t);
    BeginBare(m, body, c, k, z);
    BadCut(x, t, c, k, z, false);
    ReadBad(Unread(Pad(SPACE, m, body), c, k, z, false), |ps|, Unread(body, c, k, z, false));
    NothingInFront([], Texts(ps));
  }

  lemma LastIsLast(t: seq<byte>, c: byte)
    requires t != [] && t[|t| - 1] == c
    ensures LastIs(t, c)
  {
  }

  lemma BadFirst(x: seq<byte>, t: seq<byte>)
    requires NUL !in x && SPACE !in x && BadEscape(t)
    ensures Escaped(x, t) != [] && Escaped(x, t)[0] !in {NUL, QUOTE, SPACE}
  {
    if x != [] {
      assert x[0] in x;
    }
  }

  // ----- Two lines, byte by byte -----

  /** a"b c" is the two parameters a and b c; \"a and a space are the one parameter "a. */
  lemma Examples(z: seq<byte>)
    requires Terminated(z) && z[0] == 0
    ensures Tokenise(Position([97, 34, 98, 32, 99, 34] + z, 6, false), 0) == Parameters([[97], [98, 32, 99]])
    ensures Tokenise(Position([92, 34, 97, 32] + z, 4, false), 0) == Parameters([[34, 97]])
  {
    hide Tokenise;
    QuoteInTheMiddle([97], [98, 32, 99], 0, z);
    assert [97] + [34] + [98, 32, 99] + [34] + Pad(32, 0, []) == [97, 34, 98, 32, 99, 34];
    var ps := [Piece(0, false, [34, 97])];
    RoundTrip(ps, 1, z);
    SpelledOut();
  }

  lemma SpelledOut()
    ensures var ps := [Piece(0, false, [34, 97])];
            Legal(ps) && Line(ps, Pad(SPACE, 1, [])) == [92, 34, 97, 32] && Texts(ps) == [[34, 97]]
  {
    var ps, w := [Piece(0, false, [34, 97])], Pad(SPACE, 1, []);
    assert Pad(SPACE, 0, []) == [];
    assert w == [32];
    assert ps[1..] == [];
    assert Escaped([97], w) == [97] + w by { assert [97][1..] == []; }
    assert [34, 97][1..] == [97];
    assert Escaped([34, 97], w) == [92] + ([34] + ([97] + w));
  }
}
