/**
  Finding a command by its displayed number or by its name (Display_Command_List, Find_Command_By_Index and
  Find_Command_By_String in modules/console/qcli.c, QCLI_Memcmpi in modules/console/qcli_util.c).
*/
module CommandLookup {
  import opened Basics
  import opened Bytes
  import opened GroupTree

  const START_INDEX: nat := 1

  /** "Help", and "Up" and "Root". */
  const HELP: Command := Command([72, 101, 108, 112])
  const COMMON: seq<Command> := [Command([85, 112]), Command([82, 111, 111, 116])]

  datatype Found = IsCommand(command: Command) | IsGroup(entry: Entry)

  function NameOf(f: Found): seq<byte> {
    match f
    case IsCommand(c) => c.name
    case IsGroup(e) => e.group.name
  }

  function AsCommands(cs: seq<Command>): (r: seq<Found>)
    ensures |r| == |cs| && forall i :: 0 <= i < |cs| ==> r[i] == IsCommand(cs[i])
  {
    seq(|cs|, i requires 0 <= i < |cs| => IsCommand(cs[i]))
  }

  function AsGroups(es: seq<Entry>): (r: seq<Found>)
    ensures |r| == |es| && forall i :: 0 <= i < |es| ==> r[i] == IsGroup(es[i])
  {
    seq(|es|, i requires 0 <= i < |es| => IsGroup(es[i]))
  }

  /** The commands shown for a group, before its subgroups. */
  function Commands(g: Entry): seq<Command> {
    [HELP] + (if g.parent != null then COMMON else []) + g.group.commands
  }

  /** Everything that is displayed for a group with the subgroups s, in order; entry i has number i + 1. */
  function Displayed(g: Entry, s: seq<Entry>): seq<Found> {
    AsCommands(Commands(g)) + AsGroups(s)
  }

  // ----- Names -----

  function Upper(b: byte): byte {
    if 97 <= b <= 122 then b - 32 else b
  }

  /** Equal names, letter case aside. */
  predicate SameName(x: seq<byte>, y: seq<byte>) {
    |x| == |y| && forall i :: 0 <= i < |x| ==> Upper(x[i]) == Upper(y[i])
  }

  /** The buffers differ before either ends, or agree over the whole size. */
  ghost predicate Comparable(a: seq<byte>, b: seq<byte>, size: nat) {
    size <= |a| && (size <= |b| || exists i :: 0 <= i < |b| && Upper(a[i]) != Upper(b[i]))
  }

  /** The buffers agree on their first n bytes, letter case aside. */
  predicate Agree(a: seq<byte>, b: seq<byte>, n: nat) {
    n <= |a| && n <= |b| && forall i :: 0 <= i < n ==> Upper(a[i]) == Upper(b[i])
  }

  /** k is the first difference, and r says which side is smaller there. */
  predicate FirstDifference(a: seq<byte>, b: seq<byte>, k: nat, r: int) {
    && Agree(a, b, k) && k < |a| && k < |b| && Upper(a[k]) != Upper(b[k])
    && r == if Upper(a[k]) < Upper(b[k]) then -1 else 1
  }

  /** QCLI_Memcmpi: compares byte by byte and stops at the first difference. */
  method Memcmpi(a: seq<byte>, b: seq<byte>, size: nat) returns (r: int)
    requires Comparable(a, b, size)
    ensures r == 0 <==> Agree(a, b, size)
    ensures r != 0 ==> exists k :: 0 <= k < size && FirstDifference(a, b, k, r)
  {
    r := 0;
    var index := 0;
    while index < size && r == 0
      invariant index <= size
      invariant if r == 0 then Agree(a, b, index) else 0 < index && FirstDifference(a, b, index - 1, r)
    {
      var byte1, byte2 := a[index], b[index];
      if byte1 >= 97 && byte1 <= 122 {
        byte1 := byte1 - 32;
      }
      if byte2 >= 97 && byte2 <= 122 {
        byte2 := byte2 - 32;
      }
      if byte1 != byte2 {
        r := if byte1 < byte2 then -1 else 1;
      }
      index := index + 1;
    }
  }

  lemma CStringsComparable(x: seq<byte>, y: seq<byte>)
    requires NUL !in x && NUL !in y
    ensures Comparable(x + [NUL], y + [NUL], |x| + 1)
  {
    var a, b := x + [NUL], y + [NUL];
    if |y| < |x| {
      assert b[|y|] == NUL && a[|y|] == x[|y|] && x[|y|] in x;
      assert Upper(a[|y|]) != Upper(b[|y|]);
    }
  }

  lemma AgreeWithTerminator(x: seq<byte>, y: seq<byte>)
    requires NUL !in x && NUL !in y
    ensures Agree(x + [NUL], y + [NUL], |x| + 1) <==> SameName(x, y)
  {
    var a, b := x + [NUL], y + [NUL];
    if |x| < |y| {
      assert y[|x|] in y && b[|x|] == y[|x|];
      assert Upper(a[|x|]) != Upper(b[|x|]);
    } else if |x| == |y| {
      assert forall i :: 0 <= i < |x| ==> a[i] == x[i] && b[i] == y[i];
    }
  }

  /** Comparing a name with its terminator never matches a mere prefix. */
  method Matches(x: seq<byte>, y: seq<byte>) returns (m: bool)
    requires NUL !in x && NUL !in y
    ensures m == SameName(x, y)
  {
    CStringsComparable(x, y);
    AgreeWithTerminator(x, y);
    var r := Memcmpi(x + [NUL], y + [NUL], |x| + 1);
    m := r == 0;
  }

  // ----- Display -----

  lemma DisplayedSize(g: Entry, s: seq<Entry>)
    ensures |Displayed(g, s)| == 1 + (if g.parent != null then |COMMON| else 0) + |g.group.commands| + |s|
  {
  }

  lemma DisplayedAt(g: Entry, s: seq<Entry>, i: nat)
    requires i < |Displayed(g, s)|
    ensures var common := if g.parent != null then COMMON else [];
            var n := 1 + |common|;
            && Displayed(g, s)[i]
            == if i == 0 then IsCommand(HELP)
               else if i < n then IsCommand(common[i - 1])
               else if i < n + |g.group.commands| then IsCommand(g.group.commands[i - n])
               else IsGroup(s[i - n - |g.group.commands|])
  {
  }

  datatype Numbered = Numbered(number: nat, found: Found)

  function NumberedFrom(n: nat, d: seq<Found>): (r: seq<Numbered>)
    ensures |r| == |d| && forall i :: 0 <= i < |d| ==> r[i] == Numbered(n + i, d[i])
  {
    seq(|d|, i requires 0 <= i < |d| => Numbered(n + i, d[i]))
  }

  /** Display_Command_List, as the numbered entries it prints. */
  method Display(g: Entry, ghost s: seq<Entry>) returns (lines: seq<Numbered>)
    requires Linked(g, s)
    ensures lines == NumberedFrom(START_INDEX, Displayed(g, s))
  {
    hide Displayed, Commands;
    ghost var d := Displayed(g, s);
    DisplayedSize(g, s);
    DisplayedAt(g, s, 0);
    var number := START_INDEX;
    lines := [Numbered(number, IsCommand(HELP))];
    number := number + 1;
    if g.parent != null {
      for index := 0 to |COMMON|
        invariant number == 2 + index && |lines| == 1 + index
        invariant forall i :: 0 <= i < |lines| ==> lines[i] == Numbered(i + 1, d[i])
      {
        DisplayedAt(g, s, |lines|);
        lines := lines + [Numbered(number, IsCommand(COMMON[index]))];
        number := number + 1;
      }
    }
    ghost var base := |lines|;
    for index := 0 to |g.group.commands|
      invariant number == base + 1 + index && |lines| == base + index
      invariant forall i :: 0 <= i < |lines| ==> lines[i] == Numbered(i + 1, d[i])
    {
      DisplayedAt(g, s, |lines|);
      lines := lines + [Numbered(number, IsCommand(g.group.commands[index]))];
      number := number + 1;
    }
    ghost var k := 0;
    var entry := g.subgroups;
    while entry != null
      invariant k <= |s| && entry == if k < |s| then s[k] else null
      invariant |lines| == |d| - |s| + k && number == |lines| + 1
      invariant forall i :: 0 <= i < |lines| ==> lines[i] == Numbered(i + 1, d[i])
      decreases |s| - k
    {
      DisplayedAt(g, s, |lines|);
      lines := lines + [Numbered(number, IsGroup(entry))];
      assert entry.next == Following(s, k);
      entry, number, k := entry.next, number + 1, k + 1;
    }
  }

  // ----- By number -----

  /** Find_Command_By_Index; the subtractions wrap around as 32-bit ones do. */
  method FindByIndex(g: Entry, ghost s: seq<Entry>, number: int) returns (r: Option<Found>)
    requires Linked(g, s) && -TWO_31 <= number < TWO_31
    requires |Displayed(g, s)| < TWO_31
    ensures r == if 1 <= number <= |Displayed(g, s)| then Some(Displayed(g, s)[number - 1]) else None
  {
    r := None;
    hide Displayed, U32;
    var unsigned := U32(number);
    DisplayedSize(g, s);
    if 1 <= number <= |Displayed(g, s)| {
      DisplayedAt(g, s, number - 1);
    }
    if number == START_INDEX {
      r := Some(IsCommand(HELP));
    } else if unsigned > START_INDEX {
      var index := U32(unsigned - 2);
      if g.parent != null {
        if index < |COMMON| {
          r := Some(IsCommand(COMMON[index]));
        } else {
          index := U32(index - |COMMON|);
        }
      }
      if r == None {
        if index < |g.group.commands| {
          r := Some(IsCommand(g.group.commands[index]));
        } else {
          index := U32(index - |g.group.commands|);
        }
      }
      if r == None {
        r := FindSubgroup(g, s, index);
      }
    }
  }

  /** The walk down the subgroup list. */
  method FindSubgroup(g: Entry, ghost s: seq<Entry>, position: int) returns (r: Option<Found>)
    requires Linked(g, s) && 0 <= position < TWO_32
    ensures r == if position < |s| then Some(IsGroup(s[position])) else None
  {
    var entry, index := g.subgroups, position;
    ghost var k := 0;
    while entry != null && index != 0
      invariant k <= |s| && entry == (if k < |s| then s[k] else null) && index == position - k >= 0
      decreases |s| - k
    {
      assert entry.next == Following(s, k);
      entry, index, k := entry.next, U32(index - 1), k + 1;
    }
    r := if entry != null then Some(IsGroup(entry)) else None;
  }

  // ----- By name -----

  /** No displayed entry before position n has the name. */
  ghost predicate NoneBefore(d: seq<Found>, name: seq<byte>, n: nat) {
    forall i :: 0 <= i < n && i < |d| ==> !SameName(name, NameOf(d[i]))
  }

  /** Entry i is the first displayed entry with the name. */
  ghost predicate FirstNamed(d: seq<Found>, name: seq<byte>, i: nat) {
    i < |d| && SameName(name, NameOf(d[i])) && NoneBefore(d, name, i)
  }

  ghost predicate CommandsAt(d: seq<Found>, base: nat, cs: seq<Command>) {
    base + |cs| <= |d| && forall i :: 0 <= i < |cs| ==> d[base + i] == IsCommand(cs[i]) && NUL !in cs[i].name
  }

  ghost predicate GroupsAt(d: seq<Found>, base: nat, s: seq<Entry>) {
    base + |s| <= |d| && forall i :: 0 <= i < |s| ==> d[base + i] == IsGroup(s[i]) && NUL !in s[i].group.name
  }

  /** Looks through the commands cs, which are displayed from position `base` on. */
  method FindAmongCommands(cs: seq<Command>, ghost d: seq<Found>, base: nat, name: seq<byte>)
    returns (found: bool, at: nat)
    requires CommandsAt(d, base, cs)
    requires NoneBefore(d, name, base) && NUL !in name
    ensures if found then at < |cs| && FirstNamed(d, name, base + at) else NoneBefore(d, name, base + |cs|)
  {
    at, found := 0, false;
    while at < |cs| && !found
      invariant at <= |cs| && NoneBefore(d, name, base + at)
      invariant found ==> at < |cs| && SameName(name, cs[at].name)
      decreases !found, |cs| - at
    {
      assert d[base + at] == IsCommand(cs[at]);
      found := Matches(name, cs[at].name);
      if !found {
        at := at + 1;
      }
    }
  }

  /**
    The right answer to a search by name: the first displayed entry with that name. The number that goes
    with it is the displayed number (position + 1) for Help, and one less than that for every other entry.
  */
  ghost predicate NameAnswer(d: seq<Found>, name: seq<byte>, r: Option<Found>, index: nat) {
    match r
    case None => NoneBefore(d, name, |d|)
    case Some(f) =>
      || (FirstNamed(d, name, 0) && f == d[0] && index == START_INDEX)
      || (0 < index && FirstNamed(d, name, index) && f == d[index])
  }

  /** Find_Command_By_String, with the number that it writes back into the parameter. */
  method FindByString(g: Entry, ghost s: seq<Entry>, name: seq<byte>) returns (r: Option<Found>, index: nat)
    requires Linked(g, s) && NUL !in name
    requires forall i :: 0 <= i < |Displayed(g, s)| ==> NUL !in NameOf(Displayed(g, s)[i])
    ensures NameAnswer(Displayed(g, s), name, r, index)
  {
    hide Displayed, NoneBefore, Linked, SameName, GroupsAt;
    ghost var d := Displayed(g, s);
    DisplayedParts(g, s, d, name);
    r, index := None, START_INDEX;
    var found := Matches(name, HELP.name);
    if found {
      r := Some(IsCommand(HELP));
      return;
    }
    var at;
    if g.parent != null {
      found, at := FindAmongCommands(COMMON, d, index, name);
      if found {
        r, index := Some(IsCommand(COMMON[at])), index + at;
        return;
      }
      index := index + |COMMON|;
    }
    found, at := FindAmongCommands(g.group.commands, d, index, name);
    if found {
      r, index := Some(IsCommand(g.group.commands[at])), index + at;
      return;
    }
    r, index := FindAmongSubgroups(g, s, d, index + |g.group.commands|, name);
  }

  lemma DisplayedParts(g: Entry, s: seq<Entry>, d: seq<Found>, name: seq<byte>)
    requires d == Displayed(g, s) && forall i :: 0 <= i < |d| ==> NUL !in NameOf(d[i])
    ensures var offset := 1 + if g.parent != null then |COMMON| else 0;
            && |d| == offset + |g.group.commands| + |s|
            && CommandsAt(d, offset, g.group.commands) && GroupsAt(d, offset + |g.group.commands|, s)
    ensures CommandsAt(d, 0, [HELP]) && (g.parent != null ==> CommandsAt(d, 1, COMMON))
    ensures d[0] == IsCommand(HELP) && NUL !in HELP.name
    ensures if SameName(name, HELP.name) then FirstNamed(d, name, 0) else NoneBefore(d, name, 1)
  {
    hide Displayed, SameName;
    var offset := 1 + if g.parent != null then |COMMON| else 0;
    DisplayedSize(g, s);
    DisplayedAt(g, s, 0);
    forall i | 0 <= i < |g.group.commands|
      ensures d[offset + i] == IsCommand(g.group.commands[i]) && NUL !in g.group.commands[i].name
    {
      DisplayedAt(g, s, offset + i);
      assert NUL !in NameOf(d[offset + i]);
    }
    forall i | 0 <= i < |s|
      ensures d[offset + |g.group.commands| + i] == IsGroup(s[i]) && NUL !in s[i].group.name
    {
      DisplayedAt(g, s, offset + |g.group.commands| + i);
      assert NUL !in NameOf(d[offset + |g.group.commands| + i]);
    }
    if g.parent != null {
      DisplayedAt(g, s, 1);
      DisplayedAt(g, s, 2);
    }
  }

  method FindAmongSubgroups(g: Entry, ghost s: seq<Entry>, ghost d: seq<Found>, base: nat, name: seq<byte>)
    returns (r: Option<Found>, index: nat)
    requires Linked(g, s) && NUL !in name && NoneBefore(d, name, base) && 0 < base && |d| == base + |s|
    requires GroupsAt(d, base, s)
    ensures r.None? ==> NoneBefore(d, name, |d|)
    ensures r.Some? ==> FirstNamed(d, name, index) && r.value == d[index] && 0 < index
  {
    hide SameName;
    r, index := None, base;
    var entry := g.subgroups;
    while entry != null && r.None?
      invariant base <= index <= |d| && NoneBefore(d, name, index)
      invariant entry == if index < |d| then s[index - base] else null
      invariant r.Some? ==> FirstNamed(d, name, index) && r.value == d[index]
      decreases r.None?, |d| - index
    {
      assert d[base + (index - base)] == IsGroup(entry);
      var found := Matches(name, entry.group.name);
      if found {
        r := Some(IsGroup(entry));
      } else {
        assert entry.next == Following(s, index - base);
        entry, index := entry.next, index + 1;
      }
    }
  }

  /** There is at most one first match, so the contract of FindByString determines its result. */
  lemma FirstNamedIsUnique(d: seq<Found>, name: seq<byte>, i: nat, j: nat)
    requires FirstNamed(d, name, i) && FirstNamed(d, name, j)
    ensures i == j
  {
  }

  /**
    A search by name that finds displayed entry number i + 1 writes back 1 for Help and i for any other. Looked up
    again by number, that leads to the entry itself only for Help; otherwise to the one displayed before it.
  */
  lemma WrittenBackNumber(g: Entry, s: seq<Entry>, name: seq<byte>, r: Option<Found>, index: nat, i: nat)
    requires NameAnswer(Displayed(g, s), name, r, index) && FirstNamed(Displayed(g, s), name, i)
    ensures var d := Displayed(g, s);
      && r == Some(d[i]) && index == (if i == 0 then 1 else i)
      && 1 <= index <= |d| && (d[index - 1] == d[i] <==> i == 0)
  {
    hide SameName, Displayed;
    var d := Displayed(g, s);
    if r.Some? {
      if FirstNamed(d, name, 0) {
        FirstNamedIsUnique(d, name, i, 0);
      } else {
        FirstNamedIsUnique(d, name, i, index);
      }
    }
    if i > 0 {
      assert !SameName(name, NameOf(d[i - 1]));
    }
  }

  // ----- Names and numbers by their codes -----

  /** The same letter in either case: 65 to 90 are the capitals, and 32 more their small letters. */
  predicate SameLetter(a: byte, b: byte) {
    a == b || (65 <= a <= 90 && b == a + 32) || (65 <= b <= 90 && a == b + 32)
  }

  /** Names are the same exactly when they have the same length and the same letters, small or capital. */
  lemma SameNameIff(x: seq<byte>, y: seq<byte>)
    ensures SameName(x, y) <==> |x| == |y| && forall i :: 0 <= i < |x| ==> SameLetter(x[i], y[i])
  {
    forall i | 0 <= i < |x| && 0 <= i < |y|
      ensures Upper(x[i]) == Upper(y[i]) <==> SameLetter(x[i], y[i])
    {
    }
  }

  /** "help" means Help, in every group; a longer or shorter word does not. */
  lemma HelpInAnyCase(g: Entry, s: seq<Entry>)
    ensures FirstNamed(Displayed(g, s), [104, 101, 108, 112], 0)
    ensures FirstNamed(Displayed(g, s), [72, 69, 76, 80], 0)
    ensures !SameName([104, 101, 108], NameOf(Displayed(g, s)[0]))
  {
  }

  /** What is displayed: Help; below the root also Up and Root; then the group's commands; then its subgroups. */
  lemma DisplayedByName(g: Entry, s: seq<Entry>)
    ensures var d, n := Displayed(g, s), if g.parent != null then 3 else 1;
      && |d| == n + |g.group.commands| + |s|
      && d[0] == IsCommand(Command([72, 101, 108, 112]))
      && (g.parent != null ==> d[1] == IsCommand(Command([85, 112])) && d[2] == IsCommand(Command([82, 111, 111, 116])))
      && (forall i :: 0 <= i < |g.group.commands| ==> d[n + i] == IsCommand(g.group.commands[i]))
      && (forall i :: 0 <= i < |s| ==> d[n + |g.group.commands| + i] == IsGroup(s[i]))
  {
  }
}
