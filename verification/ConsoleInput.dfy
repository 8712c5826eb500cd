/**
  How keystrokes become command lines: the line editor of QCLI_Task (modules/console/qcli_pal.c)
  and the collector QCLI_Process_Input_Data (modules/console/qcli.c), up to the tokeniser.
*/
module ConsoleInput {
  import opened Basics
  import opened Bytes
  import opened Tokeniser

  const INPUT_SIZE: nat := 500
  const DELETE: byte := 127
  const BACKSPACE: byte := 8

  // ----- The line editor -----

  predicate Continuation(b: byte) {
    0x80 <= b <= 0xBF
  }

  predicate Printable(b: byte) {
    SPACE <= b <= 126 || b >= 0x80
  }

  predicate Erases(k: byte) {
    k == DELETE || k == BACKSPACE
  }

  /** The index at which the character that ends at i starts. */
  function LeadIndex(s: seq<byte>, i: nat): (r: nat)
    requires i < |s|
    ensures r <= i
  {
    if i > 0 && Continuation(s[i]) then LeadIndex(s, i - 1) else i
  }

  function EraseLast(s: seq<byte>): seq<byte> {
    if s == [] then [] else s[..LeadIndex(s, |s| - 1)]
  }

  /** The line after one key other than Enter. */
  function Keyed(s: seq<byte>, k: byte): seq<byte> {
    if Erases(k) then EraseLast(s)
    else if Printable(k) && |s| < INPUT_SIZE then s + [k]
    else s
  }

  function KeyedAll(s: seq<byte>, ks: seq<byte>): seq<byte>
    decreases |ks|
  {
    if ks == [] then s else KeyedAll(Keyed(s, ks[0]), ks[1..])
  }

  class LineEditor {
    const text: array<byte>
    var index: nat

    ghost predicate Valid()
      reads this
    {
      text.Length == INPUT_SIZE + 1 && index <= INPUT_SIZE
    }

    ghost function Contents(): seq<byte>
      requires Valid()
      reads this, text
    {
      text[..index]
    }

    constructor ()
      ensures Valid() && Contents() == [] && fresh(text)
    {
      text := new byte[INPUT_SIZE + 1](_ => NUL);
      index := 0;
    }

    /** One received byte; Enter hands over the line with the Enter byte at its end. */
    method Key(k: byte) returns (submitted: Option<seq<byte>>)
      requires Valid()
      modifies this`index, text
      ensures Valid()
      ensures k == CR ==> submitted == Some(old(Contents()) + [CR]) && Contents() == []
      ensures k != CR ==> submitted == None && Contents() == Keyed(old(Contents()), k)
    {
      submitted := None;
      if k == CR {
        text[index] := k;
        submitted := Some(text[..index + 1]);
        assert text[..index + 1] == old(text[..index]) + [CR];
        forall i | 0 <= i < text.Length {
          text[i] := NUL;
        }
        index := 0;
      } else if k == DELETE || k == BACKSPACE {
        if index > 0 {
          var start := index - 1;
          while start > 0 && 0x80 <= text[start] && text[start] <= 0xBF
            invariant 0 <= start < index
            invariant LeadIndex(text[..index], index - 1) == LeadIndex(text[..index], start)
          {
            start := start - 1;
          }
          forall i | start <= i < index {
            text[i] := NUL;
          }
          index := start;
        }
      } else if (k >= SPACE && k <= 126) || k >= 0x80 {
        if index < INPUT_SIZE {
          text[index] := k;
          index := index + 1;
        }
      }
    }
  }

  // ----- Typing whole characters -----

  predicate ContinuationCode(b: byte) {
    128 <= b < 192
  }

  /**
    What the keys do, by their codes: 8 and 127 remove the last byte and, in front of it, bytes down to the first
    that does not continue a character; 32 to 126 and those from 128 on are added while there are fewer than 500;
    all others do nothing.
  */
  lemma KeysByCode(s: seq<byte>, k: byte)
    ensures k != 8 && (32 <= k <= 126 || k >= 128) && |s| < 500 ==> Keyed(s, k) == s + [k]
    ensures k != 8 && k != 127 && (k < 32 || |s| >= 500) ==> Keyed(s, k) == s
    ensures (k == 8 || k == 127) && s == [] ==> Keyed(s, k) == []
    ensures (k == 8 || k == 127) && s != [] ==>
      var r := Keyed(s, k);
      && r < s && (forall i :: |r| < i < |s| ==> ContinuationCode(s[i]))
      && (|r| > 0 ==> !ContinuationCode(s[|r|]))
  {
    if s != [] {
      LeadIndexFound(s, |s| - 1);
    }
  }

  lemma {:induction false} LeadIndexFound(s: seq<byte>, i: nat)
    requires i < |s|
    ensures var r := LeadIndex(s, i);
      (forall j :: r < j <= i ==> ContinuationCode(s[j])) && (r > 0 ==> !ContinuationCode(s[r]))
  {
    if i > 0 && Continuation(s[i]) {
      LeadIndexFound(s, i - 1);
    }
  }

  /** A well-formed UTF-8 character that the editor accepts (section 4 of RFC 3629, without control codes). */
  predicate WellFormed(c: seq<byte>) {
    || (|c| == 1 && SPACE <= c[0] <= 126)
    || (|c| == 2 && 0xC2 <= c[0] <= 0xDF && Continuation(c[1]))
    || (|c| == 3 && 0xE0 <= c[0] <= 0xEF && Continuation(c[1]) && Continuation(c[2])
        && (c[0] == 0xE0 ==> c[1] >= 0xA0) && (c[0] == 0xED ==> c[1] <= 0x9F))
    || (|c| == 4 && 0xF0 <= c[0] <= 0xF4 && Continuation(c[1]) && Continuation(c[2]) && Continuation(c[3])
        && (c[0] == 0xF0 ==> c[1] >= 0x90) && (c[0] == 0xF4 ==> c[1] <= 0x8F))
  }

  datatype Stroke = Type(glyph: seq<byte>) | Erase(key: byte)

  predicate LegalStroke(s: Stroke) {
    match s
    case Type(c) => WellFormed(c)
    case Erase(k) => Erases(k)
  }

  function StrokeBytes(s: Stroke): seq<byte> {
    match s
    case Type(c) => c
    case Erase(k) => [k]
  }

  /** What a user means by a stroke: push a character, or pop one. */
  function After(stack: seq<seq<byte>>, s: Stroke): seq<seq<byte>> {
    match s
    case Type(c) => stack + [c]
    case Erase(_) => if stack == [] then [] else stack[..|stack| - 1]
  }

  function AfterAll(stack: seq<seq<byte>>, ss: seq<Stroke>): seq<seq<byte>>
    decreases |ss|
  {
    if ss == [] then stack else AfterAll(After(stack, ss[0]), ss[1..])
  }

  function Keys(ss: seq<Stroke>): seq<byte> {
    if ss == [] then [] else StrokeBytes(ss[0]) + Keys(ss[1..])
  }

  function Encode(stack: seq<seq<byte>>): seq<byte> {
    if stack == [] then [] else Encode(stack[..|stack| - 1]) + stack[|stack| - 1]
  }

  /** No stroke along the way overflows the editor. */
  predicate Fits(stack: seq<seq<byte>>, ss: seq<Stroke>)
    decreases |ss|
  {
    |Encode(stack)| <= INPUT_SIZE && (ss != [] ==> Fits(After(stack, ss[0]), ss[1..]))
  }

  lemma {:induction false} KeyedAppend(s: seq<byte>, ks: seq<byte>, ls: seq<byte>)
    ensures KeyedAll(s, ks + ls) == KeyedAll(KeyedAll(s, ks), ls)
    decreases |ks|
  {
    if ks == [] {
      assert ks + ls == ls;
    } else {
      assert (ks + ls)[0] == ks[0] && (ks + ls)[1..] == ks[1..] + ls;
      KeyedAppend(Keyed(s, ks[0]), ks[1..], ls);
    }
  }

  lemma TypeChar(s: seq<byte>, c: seq<byte>)
    requires WellFormed(c) && |s| + |c| <= INPUT_SIZE
    ensures KeyedAll(s, c) == s + c
  {
    TypePrintable(s, c);
  }

  lemma {:induction false} TypePrintable(s: seq<byte>, c: seq<byte>)
    requires |s| + |c| <= INPUT_SIZE && forall i :: 0 <= i < |c| ==> Printable(c[i]) && !Erases(c[i])
    ensures KeyedAll(s, c) == s + c
    decreases |c|
  {
    if c == [] {
      assert s + c == s;
    } else {
      TypePrintable(s + [c[0]], c[1..]);
      assert s + [c[0]] + c[1..] == s + c;
    }
  }

  lemma {:induction false} LeadOfLast(s: seq<byte>, c: seq<byte>, i: nat)
    requires WellFormed(c) && i < |c|
    ensures LeadIndex(s + c, |s| + i) == |s|
    decreases i
  {
    assert (s + c)[|s| + i] == c[i];
    if i > 0 {
      LeadOfLast(s, c, i - 1);
    }
  }

  lemma EraseChar(s: seq<byte>, c: seq<byte>)
    requires WellFormed(c)
    ensures EraseLast(s + c) == s
  {
    LeadOfLast(s, c, |c| - 1);
    assert (s + c)[..|s|] == s;
  }

  lemma OneStroke(stack: seq<seq<byte>>, s: Stroke)
    requires (forall i :: 0 <= i < |stack| ==> WellFormed(stack[i])) && LegalStroke(s)
    requires |Encode(After(stack, s))| <= INPUT_SIZE
    ensures KeyedAll(Encode(stack), StrokeBytes(s)) == Encode(After(stack, s))
  {
    match s
    case Type(c) =>
      assert (stack + [c])[..|stack|] == stack;
      TypeChar(Encode(stack), c);
    case Erase(k) =>
      assert KeyedAll(Encode(stack), [k]) == KeyedAll(Keyed(Encode(stack), k), []) == EraseLast(Encode(stack));
      if stack != [] {
        EraseChar(Encode(stack[..|stack| - 1]), stack[|stack| - 1]);
      }
  }

  /** The edited line is the encoding of the stack of characters that typing pushes and erasing pops. */
  lemma {:induction false} EditorIsAStack(stack: seq<seq<byte>>, ss: seq<Stroke>)
    requires forall i :: 0 <= i < |stack| ==> WellFormed(stack[i])
    requires (forall i :: 0 <= i < |ss| ==> LegalStroke(ss[i])) && Fits(stack, ss)
    ensures KeyedAll(Encode(stack), Keys(ss)) == Encode(AfterAll(stack, ss))
    decreases |ss|
  {
    if ss != [] {
      var next := After(stack, ss[0]);
      assert Fits(next, ss[1..]);
      OneStroke(stack, ss[0]);
      KeyedAppend(Encode(stack), StrokeBytes(ss[0]), Keys(ss[1..]));
      EditorIsAStack(next, ss[1..]);
    }
  }

  // ----- The line collector -----

  /** What the tokeniser makes of a collected line: the rest of its buffer is zero. */
  function LineOutcome(line: seq<byte>): Outcome
    requires |line| <= COMMAND_STRING_LENGTH
  {
    Tokenise(Position(line + Zeros(line), |line|, false), 0)
  }

  function Zeros(line: seq<byte>): (z: seq<byte>)
    requires |line| <= COMMAND_STRING_LENGTH
    ensures Terminated(z) && z[0] == NUL && |line + z| == COMMAND_STRING_LENGTH + 1
  {
    Rep(NUL, COMMAND_STRING_LENGTH + 1 - |line|)
  }

  /** Lines end at a carriage return; what does not fit into the command buffer is dropped. */
  datatype Collected = Collected(outcomes: seq<Outcome>, pending: seq<byte>)

  function Collect(pending: seq<byte>, data: seq<byte>): (r: Collected)
    requires |pending| <= COMMAND_STRING_LENGTH
    ensures |r.pending| <= COMMAND_STRING_LENGTH
    decreases |data|
  {
    if data == [] then Collected([], pending)
    else if data[0] == CR then
      var r := Collect([], data[1..]);
      r.(outcomes := [LineOutcome(pending)] + r.outcomes)
    else
      Collect(if |pending| < COMMAND_STRING_LENGTH then pending + [data[0]] else pending, data[1..])
  }

  class LineCollector {
    const buffer: array<byte>
    var length: nat

    ghost predicate Valid()
      reads this, buffer
    {
      && buffer.Length == COMMAND_STRING_LENGTH + 1 && length <= COMMAND_STRING_LENGTH
      && forall i :: length <= i < buffer.Length ==> buffer[i] == NUL
    }

    ghost function Pending(): (r: seq<byte>)
      requires Valid()
      reads this, buffer
      ensures |r| <= COMMAND_STRING_LENGTH
    {
      buffer[..length]
    }

    constructor ()
      ensures Valid() && Pending() == [] && fresh(buffer)
    {
      buffer := new byte[COMMAND_STRING_LENGTH + 1](_ => NUL);
      length := 0;
    }

    /** Processes the buffered line and clears the buffer. */
    method EndLine() returns (outcome: Outcome)
      requires Valid()
      modifies this`length, buffer
      ensures Valid() && Pending() == [] && outcome == LineOutcome(old(Pending()))
    {
      hide Tokenise;
      assert buffer[..] == Pending() + Zeros(Pending());
      var ok, starts := Process(buffer, length);
      outcome := if ok then Parameters(TokensAt(buffer[..], starts)) else Rejected;
      length := 0;
      forall i | 0 <= i < buffer.Length {
        buffer[i] := NUL;
      }
    }

    /** Passes received bytes to the console. */
    method Feed(data: seq<byte>) returns (outcomes: seq<Outcome>)
      requires Valid()
      modifies this`length, buffer
      ensures Valid()
      ensures Collected(outcomes, Pending()) == Collect(old(Pending()), data)
    {
      outcomes := [];
      var i := 0;
      ghost var goal := Collect(Pending(), data);
      while i < |data|
        invariant Valid() && i <= |data|
        invariant var r := Collect(Pending(), data[i..]); goal == r.(outcomes := outcomes + r.outcomes)
      {
        hide LineOutcome;
        ghost var before := Collect(Pending(), data[i..]);
        assert data[i..][1..] == data[i + 1..];
        if data[i] == CR {
          var o := EndLine();
          ghost var r := Collect([], data[i + 1..]);
          assert outcomes + ([o] + r.outcomes) == outcomes + [o] + r.outcomes;
          outcomes := outcomes + [o];
        } else if length < COMMAND_STRING_LENGTH {
          ghost var p := Pending();
          buffer[length] := data[i];
          length := length + 1;
          assert Pending() == p + [data[i]];
        }
        i := i + 1;
      }
    }
  }

  /** It does not matter in what chunks the bytes arrive. */
  lemma {:induction false} CollectInChunks(pending: seq<byte>, d: seq<byte>, e: seq<byte>)
    requires |pending| <= COMMAND_STRING_LENGTH
    ensures var a := Collect(pending, d);
            var b := Collect(a.pending, e);
            Collect(pending, d + e) == Collected(a.outcomes + b.outcomes, b.pending)
    decreases |d|
  {
    hide LineOutcome;
    if d == [] {
      assert d + e == e;
    } else {
      assert (d + e)[0] == d[0] && (d + e)[1..] == d[1..] + e;
      if d[0] == CR {
        CollectInChunks([], d[1..], e);
      } else {
        CollectInChunks(if |pending| < COMMAND_STRING_LENGTH then pending + [d[0]] else pending, d[1..], e);
      }
    }
  }

  /** The part of a line that fits into the command buffer. */
  function Kept(line: seq<byte>): (r: seq<byte>)
    ensures r <= line && |r| == if |line| <= 256 then |line| else 256
  {
    if |line| <= COMMAND_STRING_LENGTH then line else line[..COMMAND_STRING_LENGTH]
  }

  /** A line of any length is processed once, as far as it fits. */
  lemma {:induction false} CollectLine(pending: seq<byte>, line: seq<byte>)
    requires |pending| <= COMMAND_STRING_LENGTH && 13 !in line
    ensures Collect(pending, line + [13]) == Collected([LineOutcome(Kept(pending + line))], [])
    decreases |line|
  {
    hide LineOutcome;
    if line == [] {
      assert line + [CR] == [CR] && pending + line == pending;
    } else {
      assert (line + [CR])[0] == line[0] && (line + [CR])[1..] == line[1..] + [CR];
      assert line[0] in line;
      if |pending| < COMMAND_STRING_LENGTH {
        CollectLine(pending + [line[0]], line[1..]);
        assert pending + [line[0]] + line[1..] == pending + line;
      } else {
        CollectLine(pending, line[1..]);
        assert Kept(pending + line) == Kept(pending + line[1..]);
      }
    }
  }

  lemma {:induction false} NoControlCodes(stack: seq<seq<byte>>, ss: seq<Stroke>)
    requires forall i :: 0 <= i < |stack| ==> WellFormed(stack[i])
    requires forall i :: 0 <= i < |ss| ==> LegalStroke(ss[i])
    ensures CR !in Encode(AfterAll(stack, ss))
    decreases |ss|, |stack|
  {
    if ss != [] {
      NoControlCodes(After(stack, ss[0]), ss[1..]);
    } else if stack != [] {
      NoControlCodes(stack[..|stack| - 1], []);
    }
  }

  /** Every line that fits the editor is tokenised on Enter, as far as it fits the command buffer. */
  lemma TypedLineArrives(ss: seq<Stroke>)
    requires (forall i :: 0 <= i < |ss| ==> LegalStroke(ss[i])) && Fits([], ss)
    ensures Collect([], KeyedAll([], Keys(ss)) + [13])
         == Collected([LineOutcome(Kept(Encode(AfterAll([], ss))))], [])
  {
    hide LineOutcome, Collect, Kept;
    var line := Encode(AfterAll([], ss));
    EditorIsAStack([], ss);
    NoControlCodes([], ss);
    CollectLine([], line);
    assert [] + line == line;
  }

  /**
    From keystrokes to parameters. If the strokes leave a line of which the part that fits spells out the
    arguments, pressing Enter runs the command with exactly those arguments, precisely when `ReadsBack` holds.
  */
  lemma TypedArgumentsArrive(ss: seq<Stroke>, ps: seq<Piece>, trailing: nat)
    requires (forall i :: 0 <= i < |ss| ==> LegalStroke(ss[i])) && Fits([], ss)
    requires Legal(ps) && |ps| <= MAX_PARAMETERS + 1
    requires Kept(Encode(AfterAll([], ss))) == Line(ps, Pad(SPACE, trailing, []))
    ensures Collect([], KeyedAll([], Keys(ss)) + [CR]) == Collected([Parameters(Texts(ps))], [])
       <==> ReadsBack(ps, trailing)
  {
    hide Collect, Kept, Tokenise, Line, Texts, Encode, KeyedAll, Keys, ReadsBack, Fits;
    var line := Kept(Encode(AfterAll([], ss)));
    TypedLineArrives(ss);
    RoundTrip(ps, trailing, Zeros(line));
  }

  /** More than eighteen arguments run the command with the first eighteen. */
  lemma SurplusArgumentsAreDropped(ss: seq<Stroke>, ps: seq<Piece>, trailing: nat)
    requires (forall i :: 0 <= i < |ss| ==> LegalStroke(ss[i])) && Fits([], ss)
    requires Legal(ps) && |ps| > MAX_PARAMETERS + 1
    requires Kept(Encode(AfterAll([], ss))) == Line(ps, Pad(SPACE, trailing, []))
    ensures Collect([], KeyedAll([], Keys(ss)) + [CR]) == Collected([Parameters(Texts(ps[..MAX_PARAMETERS + 1]))], [])
  {
    hide Collect, Kept, Tokenise, Line, Texts, Encode, KeyedAll, Keys, Fits;
    var line := Kept(Encode(AfterAll([], ss)));
    TypedLineArrives(ss);
    MoreThanEighteen(ps, trailing, Zeros(line));
  }
}
