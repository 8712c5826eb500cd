/**
  From the parameters of a line to a command or a group (the second half of Process_Command in
  modules/console/qcli.c, with Find_Command): each parameter is looked up in the group reached so far, by number
  when it parses as an integer and by name otherwise, until a command is found or the parameters are used up. A
  line that ends at a group makes it the current group.
*/
module CommandDescent {
  import opened Basics
  import opened Bytes
  import opened GroupTree
  import opened CommandLookup
  import IntegerParsing
  import Tokeniser

  // ----- What a line leads to -----

  ghost function FirstMatch(d: seq<Found>, name: seq<byte>): Option<Found> {
    if d == [] then None else if SameName(name, NameOf(d[0])) then Some(d[0]) else FirstMatch(d[1..], name)
  }

  /** The displayed entry that a parameter means. */
  ghost function Pick(d: seq<Found>, text: seq<byte>): Option<Found> {
    match IntegerParsing.Parse(text)
    case Some(n) => if 1 <= n <= |d| then Some(d[n - 1]) else None
    case None => FirstMatch(d, text)
  }

  datatype Destination = NotFound | ToGroup(group: Entry) | ToCommand(command: Command, rest: seq<seq<byte>>)

  /** Where the parameters lead from group g, and the last group on the way. */
  datatype Descent = Descent(destination: Destination, last: Entry)

  ghost function Descend(kids: Kids, g: Entry, ps: seq<seq<byte>>): Descent
    decreases |ps|
  {
    if ps == [] || g !in kids then Descent(ToGroup(g), g)
    else
      match Pick(Displayed(g, kids[g]), ps[0])
      case None => Descent(NotFound, g)
      case Some(IsCommand(c)) => Descent(ToCommand(c, ps[1..]), g)
      case Some(IsGroup(e)) => Descend(kids, e, ps[1..])
  }

  lemma {:induction false} FirstMatchIs(d: seq<Found>, name: seq<byte>, i: nat)
    requires FirstNamed(d, name, i)
    ensures FirstMatch(d, name) == Some(d[i])
  {
    hide SameName;
    if i > 0 {
      assert !SameName(name, NameOf(d[0]));
      assert FirstNamed(d[1..], name, i - 1);
      FirstMatchIs(d[1..], name, i - 1);
    }
  }

  lemma {:induction false} NoMatchIs(d: seq<Found>, name: seq<byte>)
    requires NoneBefore(d, name, |d|)
    ensures FirstMatch(d, name) == None
  {
    hide SameName;
    if d != [] {
      assert !SameName(name, NameOf(d[0]));
      assert NoneBefore(d[1..], name, |d[1..]|);
      NoMatchIs(d[1..], name);
    }
  }

  lemma NameAnswerIsFirstMatch(d: seq<Found>, name: seq<byte>, r: Option<Found>, index: nat)
    requires NameAnswer(d, name, r, index)
    ensures r == FirstMatch(d, name)
  {
    hide FirstMatch;
    if r.None? {
      NoMatchIs(d, name);
    } else if FirstNamed(d, name, 0) && r.value == d[0] {
      FirstMatchIs(d, name, 0);
    } else {
      FirstMatchIs(d, name, index);
    }
  }

  // ----- The loop -----

  /** Names are C strings, and there are fewer entries than a signed integer counts. */
  ghost predicate Displayable(g: Entry, s: seq<Entry>) {
    && |Displayed(g, s)| < TWO_31
    && forall i :: 0 <= i < |Displayed(g, s)| ==> NUL !in NameOf(Displayed(g, s)[i])
  }

  ghost predicate AllDisplayable(kids: Kids) {
    forall n :: n in kids ==> Displayable(n, kids[n])
  }

  /** Find_Command. */
  method Find(g: Entry, ghost s: seq<Entry>, text: seq<byte>) returns (r: Option<Found>)
    requires Linked(g, s) && Displayable(g, s) && NUL !in text
    ensures r == Pick(Displayed(g, s), text)
  {
    hide Displayed, Linked, IntegerParsing.Parse, FirstMatch;
    var isNumber, number := IntegerParsing.StringToInteger(text);
    if isNumber {
      IntegerParsing.AcceptedModulo(text);
      r := FindByIndex(g, s, number);
    } else {
      var index;
      r, index := FindByString(g, s, text);
      NameAnswerIsFirstMatch(Displayed(g, s), text, r, index);
    }
  }

  lemma PickedIsLive(kids: Kids, g: Entry, text: seq<byte>)
    requires ListsOwned(kids) && g in kids
    ensures var r := Pick(Displayed(g, kids[g]), text);
      r.Some? && r.value.IsGroup? ==> r.value.entry in kids[g] && r.value.entry in kids
  {
    hide IntegerParsing.Parse, SameName;
    var d := Displayed(g, kids[g]);
    FirstMatchIn(d, text);
    assert forall f <- d :: f.IsGroup? ==> f.entry in kids[g];
  }

  lemma {:induction false} FirstMatchIn(d: seq<Found>, name: seq<byte>)
    ensures FirstMatch(d, name).Some? ==> FirstMatch(d, name).value in d
  {
    hide SameName;
    if d != [] {
      FirstMatchIn(d[1..], name);
    }
  }

  /**
    The parameters of a line are followed from the current group. The current group changes only when they lead
    to a group; the executing group becomes the last group on the way, which is live.
  */
  method Execute(c: Console, ps: seq<seq<byte>>) returns (r: Destination)
    requires c.Valid() && AllDisplayable(c.kids) && forall p <- ps :: NUL !in p
    modifies c`current, c`executing
    ensures c.Valid() && r == Descend(c.kids, old(c.current), ps).destination
    ensures c.current == if r.ToGroup? then r.group else old(c.current)
    ensures c.executing == if ps == [] then old(c.executing) else Descend(c.kids, old(c.current), ps).last
    ensures ps != [] ==> c.executing in c.kids
  {
    hide Pick, Consistent, ListsOwned, Linked, Displayable;
    r := ToGroup(c.current);
    if ps == [] {
      return;
    }
    ghost var goal := Descend(c.kids, c.current, ps);
    c.executing := c.current;
    var index, found := 0, true;
    assert ps[0..] == ps;
    while found && r.ToGroup? && index < |ps|
      invariant index <= |ps| && c.Valid() && c.executing in c.kids && c.current == old(c.current)
      invariant r.ToGroup? ==> r.group == c.executing
      invariant if r.ToGroup? && found then goal == Descend(c.kids, r.group, ps[index..])
                else goal == Descent(if found then r else NotFound, c.executing)
      decreases found, r.ToGroup?, |ps| - index
    {
      var g := r.group;
      ConsoleFacts(c, g, ps[index]);
      var f := Find(g, c.kids[g], ps[index]);
      assert ps[index..][0] == ps[index] && ps[index..][1..] == ps[index + 1..];
      match f
      case None => found := false;
      case Some(IsCommand(command)) => r := ToCommand(command, ps[index + 1..]);
      case Some(IsGroup(e)) =>
        r := ToGroup(e);
        c.executing := e;
      index := index + 1;
    }
    if !found {
      r := NotFound;
    } else if r.ToGroup? {
      assert ps[index..] == [];
      c.current := r.group;
    }
  }

  lemma ConsoleFacts(c: Console, g: Entry, text: seq<byte>)
    requires c.Valid() && AllDisplayable(c.kids) && g in c.kids
    ensures Linked(g, c.kids[g]) && Displayable(g, c.kids[g])
    ensures var r := Pick(Displayed(g, c.kids[g]), text);
      r.Some? && r.value.IsGroup? ==> r.value.entry in c.kids
  {
    PickedIsLive(c.kids, g, text);
  }

  // ----- Every group can be reached -----

  lemma {:induction false} DescendOn(kids: Kids, g: Entry, ps: seq<seq<byte>>, text: seq<byte>, p: Entry, e: Entry)
    requires Descend(kids, g, ps).destination == ToGroup(p) && g in kids && p in kids && ListsOwned(kids)
    requires Pick(Displayed(p, kids[p]), text) == Some(IsGroup(e))
    ensures Descend(kids, g, ps + [text]).destination == ToGroup(e)
    decreases |ps|
  {
    hide Pick, ListsOwned;
    if ps == [] {
      assert (ps + [text])[0] == text && (ps + [text])[1..] == [];
    } else {
      assert (ps + [text])[0] == ps[0] && (ps + [text])[1..] == ps[1..] + [text];
      PickedIsLive(kids, g, ps[0]);
      var f := Pick(Displayed(g, kids[g]), ps[0]);
      DescendOn(kids, f.value.entry, ps[1..], text, p, e);
    }
  }

  /** The displayed number of a subgroup picks it. */
  lemma NumberPicks(g: Entry, s: seq<Entry>, i: nat)
    requires i < |s| && |Displayed(g, s)| < TWO_31
    ensures var n := |Commands(g)| + i + 1;
      Pick(Displayed(g, s), IntegerParsing.Decimal(n)) == Some(IsGroup(s[i]))
  {
    hide IntegerParsing.Parse, IntegerParsing.Decimal, FirstMatch;
    IntegerParsing.DecimalRoundTrip(|Commands(g)| + i + 1);
  }

  /** In a tree, from the root, the numbers displayed on the way lead to every live group, one for each level. */
  lemma {:induction false} EveryGroupIsReachable(kids: Kids, root: Entry, g: Entry) returns (ps: seq<seq<byte>>)
    requires IsTree(kids, root) && AllDisplayable(kids) && g in kids
    ensures Descend(kids, root, ps).destination == ToGroup(g) && root.depth + |ps| == g.depth
    decreases g.depth
  {
    if g == root {
      ps := [];
    } else {
      hide Pick, Displayed;
      var p := g.parent;
      assert Attached(kids, g);
      var front := EveryGroupIsReachable(kids, root, p);
      var text := NumberOf(kids, g);
      DescendOn(kids, root, front, text, p, g);
      ps := front + [text];
    }
  }

  /** The number under which a group is displayed in its parent. */
  lemma NumberOf(kids: Kids, g: Entry) returns (text: seq<byte>)
    requires Attached(kids, g) && AllDisplayable(kids)
    ensures Pick(Displayed(g.parent, kids[g.parent]), text) == Some(IsGroup(g))
  {
    hide Pick, Displayed;
    var p := g.parent;
    var i :| 0 <= i < |kids[p]| && kids[p][i] == g;
    assert Displayable(p, kids[p]);
    NumberPicks(p, kids[p], i);
    text := IntegerParsing.Decimal(|Commands(p)| + i + 1);
  }

  /** Each parameter that leads to a group leads one level down. */
  lemma {:induction false} OneLevelEach(kids: Kids, g: Entry, ps: seq<seq<byte>>)
    requires ListsOwned(kids) && g in kids && Descend(kids, g, ps).destination.ToGroup?
    ensures var e := Descend(kids, g, ps).destination.group;
      e in kids && e.depth == g.depth + |ps|
    decreases |ps|
  {
    hide Pick, Displayed;
    if ps != [] {
      PickedIsLive(kids, g, ps[0]);
      var e := Pick(Displayed(g, kids[g]), ps[0]).value.entry;
      assert e.parent == g && e.depth == g.depth + 1;
      OneLevelEach(kids, e, ps[1..]);
    }
  }

  const LINE_PARAMETERS: nat := Tokeniser.MAX_PARAMETERS + 1

  /** One line, of at most 18 parameters, leads from the root to a group exactly when it is at most 18 levels down. */
  lemma OneLineReachesIff(kids: Kids, root: Entry, g: Entry)
    requires IsTree(kids, root) && AllDisplayable(kids) && g in kids
    ensures (exists ps :: |ps| <= LINE_PARAMETERS && Descend(kids, root, ps).destination == ToGroup(g))
      <==> g.depth <= root.depth + LINE_PARAMETERS
  {
    hide Descend, AllDisplayable;
    var ps := EveryGroupIsReachable(kids, root, g);
    forall qs: seq<seq<byte>> | Descend(kids, root, qs).destination == ToGroup(g)
      ensures g.depth == root.depth + |qs|
    {
      OneLevelEach(kids, root, qs);
    }
  }

  /** Lines entered one after the other, each of which leads to a group, lead from g to e. */
  ghost predicate LinesLead(kids: Kids, g: Entry, lines: seq<seq<seq<byte>>>, e: Entry)
    decreases |lines|
  {
    if lines == [] then g == e
    else
      && 0 < |lines[0]| <= LINE_PARAMETERS && Descend(kids, g, lines[0]).destination.ToGroup?
      && LinesLead(kids, Descend(kids, g, lines[0]).destination.group, lines[1..], e)
  }

  lemma {:induction false} OneMoreLine(
    kids: Kids, g: Entry, lines: seq<seq<seq<byte>>>, p: Entry, line: seq<seq<byte>>)
    requires LinesLead(kids, g, lines, p) && 0 < |line| <= LINE_PARAMETERS
    requires Descend(kids, p, line).destination.ToGroup?
    ensures LinesLead(kids, g, lines + [line], Descend(kids, p, line).destination.group)
    decreases |lines|
  {
    hide Descend;
    if lines == [] {
      assert (lines + [line])[0] == line && (lines + [line])[1..] == [];
    } else {
      assert (lines + [line])[0] == lines[0] && (lines + [line])[1..] == lines[1..] + [line];
      OneMoreLine(kids, Descend(kids, g, lines[0]).destination.group, lines[1..], p, line);
    }
  }

  /** However deep a group is, lines of at most 18 parameters lead to it one after the other. */
  lemma {:induction false} LinesReachEveryGroup(kids: Kids, root: Entry, g: Entry) returns (lines: seq<seq<seq<byte>>>)
    requires IsTree(kids, root) && AllDisplayable(kids) && g in kids
    ensures LinesLead(kids, root, lines, g)
    decreases g.depth
  {
    if g == root {
      lines := [];
    } else {
      hide Pick, Displayed, LinesLead;
      assert Attached(kids, g);
      var front := LinesReachEveryGroup(kids, root, g.parent);
      var text := NumberOf(kids, g);
      var line: seq<seq<byte>> := [text];
      assert line[0] == text && line[1..] == [];
      OneMoreLine(kids, root, front, g.parent, line);
      lines := front + [line];
    }
  }

  // ----- What a descent means -----

  /** A text that parses as an integer means the entry displayed under that number, even if one has it as its name. */
  lemma NumeralsAreNumbers(d: seq<Found>, text: seq<byte>)
    requires IntegerParsing.Parse(text).Some?
    ensures var n := IntegerParsing.Parse(text).value;
      Pick(d, text) == if 1 <= n <= |d| then Some(d[n - 1]) else None
  {
  }

  /** Any other text means the first entry of that name. */
  lemma OthersAreNames(d: seq<Found>, text: seq<byte>)
    requires IntegerParsing.Parse(text).None?
    ensures forall i: nat :: FirstNamed(d, text, i) ==> Pick(d, text) == Some(d[i])
    ensures Pick(d, text).None? <==> forall f <- d :: !SameName(text, NameOf(f))
  {
    hide SameName, FirstMatch;
    forall i: nat | FirstNamed(d, text, i)
      ensures Pick(d, text) == Some(d[i])
    {
      FirstMatchIs(d, text, i);
    }
    FoundIffNamed(d, text);
  }

  lemma {:induction false} FoundIffNamed(d: seq<Found>, name: seq<byte>)
    ensures FirstMatch(d, name).None? <==> forall f <- d :: !SameName(name, NameOf(f))
  {
    hide SameName;
    if d != [] {
      FoundIffNamed(d[1..], name);
      assert d == [d[0]] + d[1..];
    }
  }

  /**
    The parameters split at the command, or at the one that means nothing: those before it lead to the last group
    one by one, it is looked up there, and those behind a command are the command's own parameters, all of them.
  */
  lemma {:induction false} DescentSplits(kids: Kids, g: Entry, ps: seq<seq<byte>>) returns (k: nat)
    requires ListsOwned(kids) && g in kids
    ensures var r := Descend(kids, g, ps);
      && k <= |ps| && r.last in kids && Descend(kids, g, ps[..k]) == Descent(ToGroup(r.last), r.last)
      && match r.destination
         case ToGroup(e) => k == |ps| && e == r.last
         case NotFound => k < |ps| && Pick(Displayed(r.last, kids[r.last]), ps[k]) == None
         case ToCommand(c, rest) =>
           && k < |ps| && Pick(Displayed(r.last, kids[r.last]), ps[k]) == Some(IsCommand(c))
           && rest == ps[k + 1..]
    decreases |ps|
  {
    hide Pick, Displayed, ListsOwned;
    k := 0;
    assert ps[..0] == [];
    if ps != [] {
      var f := Pick(Displayed(g, kids[g]), ps[0]);
      if f.Some? && f.value.IsGroup? {
        PickedIsLive(kids, g, ps[0]);
        k := DescentSplits(kids, f.value.entry, ps[1..]);
        assert ps[1..][..k] == ps[..k + 1][1..] && ps[1..][k..] == ps[k + 1..];
        k := k + 1;
      }
    }
  }
}
