/**
  The console's tree of command groups (modules/console/qcli.c): heap nodes that are linked through
  Next, Parent_Group and Subgroup_List, with registration at the end of a list, recursive
  unregistration and a pointer to the current group.
*/
module GroupTree {
  import opened Basics
  import opened Bytes

  /** A command name with the function behind it left abstract. */
  datatype Command = Command(name: seq<byte>)

  datatype CommandGroup = CommandGroup(name: seq<byte>, commands: seq<Command>)

  /** Group_List_Entry_t. The parent of an entry is set when it is created and never written again. */
  class Entry {
    const group: CommandGroup
    const parent: Entry?
    ghost const depth: nat
    var next: Entry?
    var subgroups: Entry?

    constructor (parent: Entry?, group: CommandGroup)
      ensures this.parent == parent && this.group == group && next == null && subgroups == null
      ensures depth == if parent == null then 0 else parent.depth + 1
    {
      this.parent, this.group := parent, group;
      depth := if parent == null then 0 else parent.depth + 1;
      next, subgroups := null, null;
    }
  }

  /** n is g or lies below g. */
  ghost predicate Under(n: Entry, g: Entry)
    decreases n.depth
  {
    n == g || (n.parent != null && n.depth == n.parent.depth + 1 && Under(n.parent, g))
  }

  lemma {:induction false} UnderDeeper(n: Entry, g: Entry)
    requires Under(n, g)
    ensures n.depth >= g.depth && (n != g ==> n.depth > g.depth)
    decreases n.depth
  {
    if n != g {
      UnderDeeper(n.parent, g);
    }
  }

  lemma {:induction false} UnderTransitive(n: Entry, m: Entry, g: Entry)
    requires Under(n, m) && Under(m, g)
    ensures Under(n, g)
    decreases n.depth
  {
    if n != m {
      UnderTransitive(n.parent, m, g);
    }
  }

  /** The live entries with their ordered subgroups: what the linked structure stands for. */
  type Kids = map<Entry, seq<Entry>>

  function Without(s: seq<Entry>, g: Entry): seq<Entry> {
    if s == [] then [] else if s[0] == g then s[1..] else [s[0]] + Without(s[1..], g)
  }

  ghost predicate Distinct(s: seq<Entry>) {
    forall i, j :: 0 <= i < j < |s| ==> s[i] != s[j]
  }

  /** The tree without g's subtree: g leaves its parent's list, everything else stays as it is. */
  ghost function Pruned(kids: Kids, g: Entry): Kids {
    map n | n in kids && !Under(n, g) :: if n == g.parent then Without(kids[n], g) else kids[n]
  }

  /** The sibling behind position i. */
  function Following(s: seq<Entry>, i: nat): Entry? {
    if i + 1 < |s| then s[i + 1] else null
  }

  /** The links of one entry agree with the order of its subgroups. */
  ghost predicate Linked(n: Entry, s: seq<Entry>)
    reads n`subgroups, s`next
  {
    && n.subgroups == (if s == [] then null else s[0])
    && forall i :: 0 <= i < |s| ==> s[i].next == Following(s, i)
  }

  /** Every entry's list is what its links say, holds each subgroup once, and only its own. */
  ghost predicate Consistent(kids: Kids)
    reads kids.Keys
  {
    ListsOwned(kids) && forall n :: n in kids ==> Linked(n, kids[n])
  }

  /** g hangs in the list of its parent. */
  ghost predicate Attached(kids: Kids, g: Entry) {
    g.parent != null && g.parent in kids && g in kids[g.parent]
  }

  lemma {:induction false} WithoutAt(s: seq<Entry>, k: nat)
    requires k < |s| && Distinct(s)
    ensures Without(s, s[k]) == s[..k] + s[k + 1..]
  {
    if k > 0 {
      assert s[0] != s[k];
      WithoutAt(s[1..], k - 1);
      assert s[1..][..k - 1] == s[1..k] && s[1..][k..] == s[k + 1..];
      assert s[..k] == [s[0]] + s[1..k];
    }
  }

  lemma {:induction false} WithoutAbsent(s: seq<Entry>, g: Entry)
    requires g !in s
    ensures Without(s, g) == s
  {
    if s != [] {
      WithoutAbsent(s[1..], g);
    }
  }

  lemma WithoutElements(s: seq<Entry>, k: nat)
    requires k < |s| && Distinct(s)
    ensures |Without(s, s[k])| == |s| - 1
    ensures forall i :: 0 <= i < |s| - 1 ==> Without(s, s[k])[i] == s[if i < k then i else i + 1]
  {
    hide Without, Distinct;
    WithoutAt(s, k);
  }

  /** The links of one entry go through its subgroups and around the one at position k. */
  ghost predicate GoesAround(n: Entry, s: seq<Entry>, k: nat)
    requires k < |s|
    reads n`subgroups, s`next
  {
    && n.subgroups == (if k > 0 then s[0] else Following(s, 0))
    && forall i :: 0 <= i < |s| && i != k ==> s[i].next == Following(s, if i + 1 == k then k else i)
  }

  /** Unlinking position k of a list of siblings. */
  lemma RelinkedAround(n: Entry, s: seq<Entry>, k: nat)
    requires k < |s| && Distinct(s) && GoesAround(n, s, k)
    ensures Linked(n, Without(s, s[k]))
  {
    hide Without, Distinct;
    WithoutElements(s, k);
    var t := Without(s, s[k]);
    forall i | 0 <= i < |t|
      ensures t[i].next == Following(t, i)
    {
      var j := if i < k then i else i + 1;
      assert t[i] == s[j] && s[j].next == Following(s, if j + 1 == k then k else j);
    }
  }

  ghost predicate ListsOwned(kids: Kids) {
    && (forall n :: n in kids ==> Distinct(kids[n]))
    && (forall n, i :: n in kids && 0 <= i < |kids[n]| ==> kids[n][i] in kids && kids[n][i].parent == n)
    && (forall n :: n in kids && n.parent != null ==> n.parent in kids && n.depth == n.parent.depth + 1)
  }

  /** What consistency says about one list and everything that is not in it. */
  lemma ListFacts(kids: Kids, p: Entry)
    requires Consistent(kids) && p in kids
    ensures ListsOwned(kids) && Linked(p, kids[p]) && Distinct(kids[p])
    ensures forall n :: n in kids && n != p ==> Linked(n, kids[n])
    ensures forall c :: c in kids[p] ==> c in kids && c.parent == p
    ensures forall c, n :: c in kids[p] && n in kids && n != p ==> c !in kids[n]
  {
  }

  lemma Reconsistent(kids: Kids, p: Entry, t: seq<Entry>)
    requires p in kids && ListsOwned(kids[p := t]) && Linked(p, t)
    requires forall n :: n in kids && n != p ==> Linked(n, kids[n])
    ensures Consistent(kids[p := t])
  {
  }

  lemma WithoutKeepsOwned(kids: Kids, p: Entry, k: nat)
    requires ListsOwned(kids) && p in kids && k < |kids[p]|
    ensures ListsOwned(kids[p := Without(kids[p], kids[p][k])])
  {
    hide Without, Distinct;
    WithoutOwned(kids, p, k);
  }

  lemma WithoutOwned(kids: Kids, p: Entry, k: nat)
    requires ListsOwned(kids) && p in kids && k < |kids[p]|
    ensures var t := Without(kids[p], kids[p][k]);
      Distinct(t) && forall i :: 0 <= i < |t| ==> t[i] in kids && t[i].parent == p
  {
    hide Without;
    WithoutElements(kids[p], k);
  }

  ghost predicate UnderSome(n: Entry, s: seq<Entry>) {
    exists c :: c in s && Under(n, c)
  }

  /** The first i subtrees below g are gone. */
  ghost function Stripped(kids: Kids, g: Entry, i: nat): Kids
    requires g in kids && i <= |kids[g]|
  {
    map n | n in kids && !UnderSome(n, kids[g][..i]) :: if n == g then kids[g][i..] else kids[n]
  }

  lemma UnderChild(n: Entry, c: Entry, g: Entry)
    requires Under(n, c) && c.parent == g && c.depth == g.depth + 1
    ensures Under(n, g) && n != g && !Under(g, c)
  {
    assert Under(c, g);
    UnderTransitive(n, c, g);
    UnderDeeper(n, c);
    if Under(g, c) {
      UnderDeeper(g, c);
    }
  }

  /** Whatever lies below g lies below one of g's subgroups. */
  lemma {:induction false} ChildAbove(kids: Kids, n: Entry, g: Entry) returns (c: Entry)
    requires ListsOwned(kids) && n in kids && g in kids && n != g && Under(n, g)
    requires forall m :: m in kids && m != g && Under(m, g) ==> Attached(kids, m)
    ensures c in kids[g] && Under(n, c)
    decreases n.depth
  {
    if n.parent == g {
      c := n;
      assert Attached(kids, n);
    } else {
      c := ChildAbove(kids, n.parent, g);
    }
  }

  lemma StrippedOwned(kids: Kids, g: Entry)
    requires ListsOwned(kids) && g in kids
    ensures forall c :: c in kids[g] ==> c in kids && c.parent == g && c.depth == g.depth + 1
  {
  }

  /** Pruning the next child strips one more subtree. */
  lemma StripOne(kids: Kids, g: Entry, i: nat)
    requires ListsOwned(kids) && g in kids && i < |kids[g]|
    ensures Pruned(Stripped(kids, g, i), kids[g][i]) == Stripped(kids, g, i + 1)
    ensures g in Stripped(kids, g, i)
  {
    var s := kids[g];
    StrippedOwned(kids, g);
    hide Without, ListsOwned;
    assert s[..i + 1] == s[..i] + [s[i]];
    forall n
      ensures UnderSome(n, s[..i + 1]) <==> UnderSome(n, s[..i]) || Under(n, s[i])
    {
    }
    forall c | c in s
      ensures !Under(g, c)
    {
      UnderDeeperOnly(g, c);
    }
    assert Without(s[i..], s[i]) == s[i + 1..] by { WithoutHead(s[i..]); }
  }

  lemma UnderDeeperOnly(n: Entry, c: Entry)
    requires n.depth < c.depth
    ensures !Under(n, c)
  {
    if Under(n, c) {
      UnderDeeper(n, c);
    }
  }

  lemma WithoutHead(s: seq<Entry>)
    requires s != []
    ensures Without(s, s[0]) == s[1..]
  {
  }

  /** Everything below g hangs in its parent's list, g itself perhaps not. */
  ghost predicate BelowAttached(kids: Kids, g: Entry) {
    forall n :: n in kids && n != g && Under(n, g) ==> Attached(kids, n)
  }

  lemma StrippedAttached(kids: Kids, g: Entry, i: nat)
    requires ListsOwned(kids) && g in kids && i < |kids[g]| && BelowAttached(kids, g)
    ensures var rest, c := Stripped(kids, g, i), kids[g][i];
            c in rest && BelowAttached(rest, c) && Attached(rest, c)
  {
    var s, rest := kids[g], Stripped(kids, g, i);
    var c := s[i];
    StrippedOwned(kids, g);
    forall d | d in s[..i]
      ensures !Under(c, d) && !Under(g, d)
    {
      assert exists j :: 0 <= j < i && s[j] == d;
      SiblingsApart(c, d, g);
    }
    assert c in s[i..];
    forall n | n in rest && n != c && Under(n, c)
      ensures Attached(rest, n)
    {
      UnderChild(n, c, g);
      assert Attached(kids, n);
      ParentStays(kids, g, i, n);
    }
  }

  lemma SiblingsApart(c: Entry, d: Entry, g: Entry)
    requires c != d && c.parent == g == d.parent && c.depth == d.depth == g.depth + 1
    ensures !Under(c, d) && !Under(g, d)
  {
    UnderDeeperOnly(g, d);
  }

  lemma ParentStays(kids: Kids, g: Entry, i: nat, n: Entry)
    requires g in kids && i < |kids[g]| && n in Stripped(kids, g, i) && Attached(kids, n)
    requires n.depth == n.parent.depth + 1 && n.parent != g
    ensures Attached(Stripped(kids, g, i), n)
  {
  }

  /** Once all subtrees below g are gone, what lay below g is gone and nothing else. */
  lemma StrippedAll(kids: Kids, g: Entry, n: Entry)
    requires ListsOwned(kids) && g in kids && n in kids && BelowAttached(kids, g)
    ensures n in Stripped(kids, g, |kids[g]|) <==> n == g || !Under(n, g)
    ensures UnderSome(n, kids[g]) <==> n != g && Under(n, g)
  {
    var s := kids[g];
    StrippedOwned(kids, g);
    assert s[..|s|] == s;
    if UnderSome(n, s) {
      var c :| c in s && Under(n, c);
      UnderChild(n, c, g);
    } else if n != g && Under(n, g) {
      var c := ChildAbove(kids, n, g);
      assert false;
    }
  }

  /** Freeing g after its subtrees completes the pruning. */
  lemma FreePrunes(before: Kids, g: Entry)
    requires ListsOwned(before) && g in before && Attached(before, g) && BelowAttached(before, g)
    ensures var kids := before[g.parent := Without(before[g.parent], g)];
            && ListsOwned(kids) && BelowAttached(kids, g) && kids[g] == before[g]
            && Stripped(kids, g, |kids[g]|) - {g} == Pruned(before, g)
  {
    var p := g.parent;
    var k :| 0 <= k < |before[p]| && before[p][k] == g;
    WithoutKeepsOwned(before, p, k);
    var kids := before[p := Without(before[p], g)];
    UnderDeeperOnly(p, g);
    forall n | n in kids && n != g && Under(n, g)
      ensures Attached(kids, n)
    {
      assert Attached(before, n);
      assert n.parent != p by { OnlyOneBelow(n, g); }
    }
    forall n | n in kids
      ensures n in Stripped(kids, g, |kids[g]|) <==> n == g || !Under(n, g)
    {
      StrippedAll(kids, g, n);
    }
  }

  lemma OnlyOneBelow(n: Entry, g: Entry)
    requires n != g && Under(n, g) && g.parent != null && g.depth == g.parent.depth + 1
    ensures n.parent != g.parent
  {
    UnderDeeper(n.parent, g);
  }

  /** Nothing refers to g any more when it is freed. */
  lemma FreeIsSafe(kids: Kids, g: Entry)
    requires Consistent(kids) && g in kids && kids[g] == []
    requires g.parent != null ==> g.parent in kids && g !in kids[g.parent]
    requires forall n :: n in kids ==> n.parent != g
    ensures Consistent(kids - {g})
  {
    forall n, i | n in kids && 0 <= i < |kids[n]|
      ensures kids[n][i] != g
    {
      assert kids[n][i].parent == n;
    }
    assert forall n :: n in kids - {g} ==> Linked(n, (kids - {g})[n]);
  }

  lemma WithoutGone(s: seq<Entry>, g: Entry)
    requires Distinct(s)
    ensures g !in Without(s, g)
  {
    if g in s {
      var k :| 0 <= k < |s| && s[k] == g;
      WithoutAt(s, k);
    } else {
      WithoutAbsent(s, g);
    }
  }

  /** The entries that an unregistration of g has to visit. */
  ghost function Subtree(kids: Kids, g: Entry): set<Entry> {
    set n | n in kids && Under(n, g)
  }

  lemma SubtreeShrinks(kids: Kids, rest: Kids, c: Entry, g: Entry)
    requires rest.Keys <= kids.Keys && g in kids && c.parent == g && c.depth == g.depth + 1
    ensures Subtree(rest, c) < Subtree(kids, g)
  {
    forall n | n in Subtree(rest, c)
      ensures n in Subtree(kids, g)
    {
      UnderChild(n, c, g);
    }
    UnderDeeperOnly(g, c);
    assert g in Subtree(kids, g) && g !in Subtree(rest, c);
  }

  /** Where the current group ends up when the first i subtrees below g are gone. */
  ghost function Settled(current: Entry, s: seq<Entry>, g: Entry): Entry {
    if UnderSome(current, s) then g else current
  }

  lemma SettleOne(current: Entry, s: seq<Entry>, i: nat, g: Entry)
    requires i < |s| && s[i].depth == g.depth + 1
    ensures Settled(current, s[..i + 1], g)
         == if Under(Settled(current, s[..i], g), s[i]) then g else Settled(current, s[..i], g)
    ensures UnderSome(current, s[..i + 1]) <==> UnderSome(current, s[..i]) || Under(Settled(current, s[..i], g), s[i])
  {
    assert s[..i + 1] == s[..i] + [s[i]];
    UnderDeeperOnly(g, s[i]);
  }

  lemma FirstFacts(kids: Kids, g: Entry)
    requires Consistent(kids) && g in kids
    ensures ListsOwned(kids) && g.subgroups == if kids[g] == [] then null else kids[g][0]
    ensures kids[g] != [] ==> kids[g][0].next == if |kids[g]| > 1 then kids[g][1] else null
  {
    assert Linked(g, kids[g]);
    assert kids[g] != [] ==> kids[g][0].next == Following(kids[g], 0);
  }

  lemma StripNone(kids: Kids, g: Entry, current: Entry)
    requires g in kids
    ensures Stripped(kids, g, 0) == kids
    ensures Settled(current, kids[g][..0], g) == current && !UnderSome(current, kids[g][..0])
  {
    assert kids[g][0..] == kids[g];
  }

  /** What one turn of the loop over g's subgroups relies on and achieves. */
  lemma StripStep(kids: Kids, g: Entry, i: nat)
    requires ListsOwned(kids) && g in kids && i < |kids[g]| && BelowAttached(kids, g)
    ensures var rest, c := Stripped(kids, g, i), kids[g][i];
            && g in rest && rest[g] == kids[g][i..] && c.parent == g && c.depth == g.depth + 1
            && c in rest && c in rest[g] && BelowAttached(rest, c)
            && Pruned(rest, c) == Stripped(kids, g, i + 1) && Stripped(kids, g, i + 1).Keys <= kids.Keys
  {
    hide Without, Under;
    StripOne(kids, g, i);
    StrippedAttached(kids, g, i);
    StrippedOwned(kids, g);
    assert kids[g][i..][0] == kids[g][i];
  }

  /** What detaching g from its parent prepares. */
  lemma DetachFacts(kids: Kids, g: Entry, current: Entry)
    requires ListsOwned(kids) && current in kids && g in kids && Attached(kids, g) && BelowAttached(kids, g)
    ensures var k1 := kids[g.parent := Without(kids[g.parent], g)];
            && ListsOwned(k1) && BelowAttached(k1, g) && Subtree(k1, g) == Subtree(kids, g)
            && k1.Keys == kids.Keys && Stripped(k1, g, |k1[g]|) - {g} == Pruned(kids, g)
            && g !in k1[g.parent]
            && (Under(current, g) <==> current == g || UnderSome(current, k1[g]))
  {
    var k1 := kids[g.parent := Without(kids[g.parent], g)];
    FreePrunes(kids, g);
    StrippedAll(k1, g, current);
    WithoutGone(kids[g.parent], g);
    assert Under(g, g);
  }

  /** g can be freed once its subgroups are gone; its parent is still there. */
  lemma FreeFacts(k1: Kids, g: Entry)
    requires ListsOwned(k1) && g in k1 && BelowAttached(k1, g)
    requires g.parent != null && g.parent in k1 && g !in k1[g.parent]
    ensures var rest := Stripped(k1, g, |k1[g]|);
            && g in rest && rest[g] == [] && g.parent in rest && g.parent != g && g !in rest[g.parent]
            && forall n :: n in rest ==> n.parent != g
  {
    var rest := Stripped(k1, g, |k1[g]|);
    UnderDeeperOnly(g.parent, g);
    StrippedAll(k1, g, g);
    StrippedAll(k1, g, g.parent);
    forall n | n in rest
      ensures n.parent != g
    {
      StrippedAll(k1, g, n);
    }
  }

  // ----- Laws of the tree -----

  /** A finite tree: every live entry but the root hangs in the list of its live parent. */
  ghost predicate IsTree(kids: Kids, root: Entry) {
    && root in kids && root.parent == null && ListsOwned(kids)
    && forall n :: n in kids && n != root ==> Attached(kids, n)
  }

  /** Parent links lead from every live entry to the root. */
  lemma {:induction false} EveryPathEndsAtRoot(kids: Kids, root: Entry, n: Entry)
    requires IsTree(kids, root) && n in kids
    ensures Under(n, root)
    decreases n.depth
  {
    if n != root {
      assert Attached(kids, n);
      EveryPathEndsAtRoot(kids, root, n.parent);
    }
  }

  lemma PrunedParent(g: Entry, n: Entry)
    requires n.parent != null && n.depth == n.parent.depth + 1 && !Under(n, g)
    ensures !Under(n.parent, g)
  {
  }

  lemma NotUnderBelow(c: Entry, g: Entry)
    requires c != g && c.parent != null && !Under(c.parent, g)
    ensures !Under(c, g)
  {
  }

  /** What is left of a list when g goes. */
  ghost function ListLeft(kids: Kids, g: Entry, n: Entry): seq<Entry>
    requires n in kids
  {
    if n == g.parent then Without(kids[n], g) else kids[n]
  }

  lemma ListLeftOwned(kids: Kids, g: Entry, n: Entry)
    requires ListsOwned(kids) && n in kids && !Under(n, g) && Attached(kids, g)
    ensures Distinct(ListLeft(kids, g, n))
    ensures forall c <- ListLeft(kids, g, n) :: c in kids && c.parent == n && !Under(c, g)
  {
    hide Under, Without;
    var t := ListLeft(kids, g, n);
    if n == g.parent {
      var k :| 0 <= k < |kids[n]| && kids[n][k] == g;
      WithoutElements(kids[n], k);
      WithoutGone(kids[n], g);
    }
    forall c | c in t
      ensures c in kids && c.parent == n && !Under(c, g)
    {
      WithoutKeepsOthers(kids[n], g, c);
      assert c in kids[n] && c != g;
      NotUnderBelow(c, g);
    }
  }

  lemma PrunedOwned(kids: Kids, g: Entry)
    requires ListsOwned(kids) && Attached(kids, g)
    ensures ListsOwned(Pruned(kids, g))
  {
    hide Under, Without, Distinct, Attached;
    var rest := Pruned(kids, g);
    forall n | n in rest
      ensures Distinct(rest[n]) && forall i :: 0 <= i < |rest[n]| ==> rest[n][i] in rest && rest[n][i].parent == n
      ensures n.parent != null ==> n.parent in rest && n.depth == n.parent.depth + 1
    {
      ListLeftOwned(kids, g, n);
      assert rest[n] == ListLeft(kids, g, n);
      if n.parent != null {
        PrunedParent(g, n);
      }
    }
  }

  /** Unregistering leaves a tree. */
  lemma PruneKeepsTree(kids: Kids, root: Entry, g: Entry)
    requires IsTree(kids, root) && g in kids && g != root
    ensures IsTree(Pruned(kids, g), root)
  {
    hide Under, Without;
    var rest := Pruned(kids, g);
    assert Attached(kids, g);
    PrunedOwned(kids, g);
    forall n | n in rest && n != root
      ensures Attached(rest, n)
    {
      assert Attached(kids, n);
      PrunedParent(g, n);
      assert n != g by { UnderSelf(g); }
      WithoutKeepsOthers(kids[n.parent], g, n);
    }
    assert !Under(root, g) by { UnderSelf(g); RootIsTop(kids, root, g); }
  }

  lemma UnderSelf(g: Entry)
    ensures Under(g, g)
  {
  }

  lemma RootIsTop(kids: Kids, root: Entry, g: Entry)
    requires root.parent == null && g != root
    ensures !Under(root, g)
  {
  }

  lemma WithoutKeepsOthers(s: seq<Entry>, g: Entry, n: Entry)
    requires n != g
    ensures n in Without(s, g) <==> n in s
  {
  }

  lemma TreeAttached(kids: Kids, root: Entry, g: Entry)
    requires IsTree(kids, root) && g in kids
    ensures BelowAttached(kids, g)
  {
    forall n | n in kids && n != g && Under(n, g)
      ensures Attached(kids, n)
    {
      if g != root {
        RootIsTop(kids, root, g);
      }
    }
  }

  lemma PrunedAway(kids: Kids, g: Entry)
    ensures forall n :: n in Pruned(kids, g) <==> n in kids && !Under(n, g)
  {
  }

  // ----- What stays live over a run -----

  /** Registering e below p, or unregistering g. */
  datatype Change = Grow(p: Entry, e: Entry) | Prune(g: Entry)

  ghost predicate Applicable(kids: Kids, c: Change) {
    match c
    case Grow(p, e) => p in kids && e !in kids
    case Prune(g) => g in kids
  }

  ghost function Changed(kids: Kids, c: Change): Kids
    requires Applicable(kids, c)
  {
    match c
    case Grow(p, e) => Grown(kids, p, e)
    case Prune(g) => Pruned(kids, g)
  }

  ghost predicate AllApplicable(kids: Kids, changes: seq<Change>)
    decreases |changes|
  {
    changes == [] || (Applicable(kids, changes[0]) && AllApplicable(Changed(kids, changes[0]), changes[1..]))
  }

  ghost function ChangedAll(kids: Kids, changes: seq<Change>): Kids
    requires AllApplicable(kids, changes)
    decreases |changes|
  {
    if changes == [] then kids else ChangedAll(Changed(kids, changes[0]), changes[1..])
  }

  /** No unregistered group contains n. */
  ghost predicate Spared(n: Entry, changes: seq<Change>) {
    forall c <- changes :: c.Prune? ==> !Under(n, c.g)
  }

  lemma {:induction false} GoneStaysGone(kids: Kids, changes: seq<Change>, n: Entry)
    requires AllApplicable(kids, changes) && n !in kids && forall c <- changes :: c.Grow? ==> c.e != n
    ensures n !in ChangedAll(kids, changes)
    decreases |changes|
  {
    hide Under;
    if changes != [] {
      GoneStaysGone(Changed(kids, changes[0]), changes[1..], n);
    }
  }

  /**
    An entry that a pointer outside the tree holds, such as the group of a command that is being executed, is
    live after any run of registrations and unregistrations exactly when none of the unregistered groups
    contained it. Its memory is assumed not to be reused for a new group.
  */
  lemma {:induction false} LiveIffSpared(kids: Kids, changes: seq<Change>, n: Entry)
    requires AllApplicable(kids, changes) && n in kids && forall c <- changes :: c.Grow? ==> c.e != n
    ensures n in ChangedAll(kids, changes) <==> Spared(n, changes)
    decreases |changes|
  {
    hide Under;
    if changes != [] {
      var c, next := changes[0], Changed(kids, changes[0]);
      assert Spared(n, changes) <==> (c.Prune? ==> !Under(n, c.g)) && Spared(n, changes[1..]) by {
        assert changes == [c] + changes[1..];
      }
      if n in next {
        LiveIffSpared(next, changes[1..], n);
      } else {
        GoneStaysGone(next, changes[1..], n);
      }
    }
  }

  /** Registering leaves a tree. */
  lemma GrowKeepsTree(kids: Kids, root: Entry, p: Entry, e: Entry)
    requires IsTree(kids, root) && p in kids && e !in kids && e.parent == p && e.depth == p.depth + 1
    ensures IsTree(Grown(kids, p, e), root)
  {
    GrownOwned(kids, p, e);
    hide ListsOwned;
    var grown := Grown(kids, p, e);
    forall n | n in grown && n != root
      ensures Attached(grown, n)
    {
      assert n != e ==> Attached(kids, n);
    }
  }

  /** Registering a group and unregistering it again leaves the tree as it was. */
  lemma GrowThenPrune(kids: Kids, root: Entry, p: Entry, e: Entry)
    requires IsTree(kids, root) && p in kids && e !in kids && e.parent == p
    ensures Pruned(Grown(kids, p, e), e) == kids
  {
    hide Under, Without, Attached;
    forall n | n in kids
      ensures !Under(n, e)
    {
      NotUnderStranger(kids, root, n, e);
    }
    UnderSelf(e);
    StrangerNotListed(kids, p, e);
    WithoutLast(kids[p], e);
  }

  lemma StrangerNotListed(kids: Kids, p: Entry, e: Entry)
    requires ListsOwned(kids) && p in kids && e !in kids
    ensures e !in kids[p]
  {
  }

  lemma {:induction false} NotUnderStranger(kids: Kids, root: Entry, n: Entry, e: Entry)
    requires IsTree(kids, root) && n in kids && e !in kids
    ensures !Under(n, e)
    decreases n.depth
  {
    if n.parent != null && n.depth == n.parent.depth + 1 {
      NotUnderStranger(kids, root, n.parent, e);
    }
  }

  lemma {:induction false} WithoutLast(s: seq<Entry>, e: Entry)
    requires e !in s
    ensures Without(s + [e], e) == s
  {
    if s != [] {
      assert (s + [e])[1..] == s[1..] + [e];
      WithoutLast(s[1..], e);
    }
  }

  /** Unregistering a group right after one of its descendants is unregistering the group alone. */
  lemma PruneAbsorbs(kids: Kids, h: Entry, g: Entry)
    requires ListsOwned(kids) && g in kids && h != g && Under(h, g) && g.parent != null
    ensures Pruned(Pruned(kids, h), g) == Pruned(kids, g)
  {
    forall n | n in kids && Under(n, h)
      ensures Under(n, g)
    {
      UnderTransitive(n, h, g);
    }
    OnlyOneBelow(h, g);
    PrunedParentUnder(h, g);
  }

  lemma PrunedParentUnder(h: Entry, g: Entry)
    requires h != g && Under(h, g)
    ensures Under(h.parent, g)
  {
  }

  lemma {:induction false} WithoutCommutes(s: seq<Entry>, g: Entry, h: Entry)
    ensures Without(Without(s, g), h) == Without(Without(s, h), g)
  {
    if s != [] && g != h {
      if s[0] != g && s[0] != h {
        WithoutCommutes(s[1..], g, h);
      }
    }
  }

  /** The order in which two separate groups are unregistered does not matter. */
  lemma PruneCommutes(kids: Kids, g: Entry, h: Entry)
    requires g in kids && h in kids && !Under(g, h) && !Under(h, g)
    ensures Pruned(Pruned(kids, g), h) == Pruned(Pruned(kids, h), g)
  {
    hide Under, Without;
    forall n | n in kids
      ensures Without(Without(kids[n], g), h) == Without(Without(kids[n], h), g)
    {
      WithoutCommutes(kids[n], g, h);
    }
  }

  // ----- Adding an entry -----

  lemma LastOnce(kids: Kids, p: Entry, last: Entry)
    requires Consistent(kids) && p in kids && kids[p] != [] && last == kids[p][|kids[p]| - 1]
    ensures last in kids && forall i :: 0 <= i < |kids[p]| - 1 ==> kids[p][i] != last
    ensures forall i :: 0 <= i < |kids[p]| ==> kids[p][i].next == Following(kids[p], i)
  {
    assert Linked(p, kids[p]);
  }

  /** The tree with the new entry e at the end of p's list. */
  ghost function Grown(kids: Kids, p: Entry, e: Entry): Kids
    requires p in kids
  {
    kids[p := kids[p] + [e]][e := []]
  }

  lemma GrownOwned(kids: Kids, p: Entry, e: Entry)
    requires ListsOwned(kids) && p in kids && e !in kids && e.parent == p && e.depth == p.depth + 1
    ensures ListsOwned(Grown(kids, p, e))
  {
    var s, t, grown := kids[p], kids[p] + [e], Grown(kids, p, e);
    assert forall i :: 0 <= i < |s| ==> s[i] in kids;
    assert Distinct(t);
    assert forall n :: n in grown ==> grown[n] == if n == e then [] else if n == p then t else kids[n];
    assert forall i :: 0 <= i < |t| ==> t[i] in grown && t[i].parent == p;
  }

  lemma GrownConsistent(kids: Kids, p: Entry, e: Entry)
    requires ListsOwned(kids) && p in kids && e !in kids && e.parent == p && e.depth == p.depth + 1
    requires forall n :: n in kids && n != p ==> Linked(n, kids[n])
    requires Linked(p, kids[p] + [e]) && e.next == null && e.subgroups == null
    ensures Consistent(Grown(kids, p, e))
  {
    hide ListsOwned;
    GrownOwned(kids, p, e);
    assert Linked(e, []);
  }

  lemma AppendLinked(p: Entry, s: seq<Entry>, e: Entry)
    requires p.subgroups == if s == [] then e else s[0]
    requires forall i :: 0 <= i < |s| ==> s[i].next == if i + 1 == |s| then e else Following(s, i)
    requires e.next == null
    ensures Linked(p, s + [e])
  {
    var t := s + [e];
    forall i | 0 <= i < |t|
      ensures t[i].next == Following(t, i)
    {
      assert t[i] == if i < |s| then s[i] else e;
    }
  }

  class Console {
    const root: Entry
    var current: Entry
    /** The group of the command that is being executed; unregistering does not look at it. */
    var executing: Entry?
    ghost var kids: Kids

    ghost predicate Valid()
      reads this, kids.Keys
    {
      IsTree(kids, root) && Consistent(kids) && current in kids
    }

    constructor (group: CommandGroup)
      ensures Valid() && fresh(root) && current == root && executing == null && kids == map[root := []]
    {
      var r := new Entry(null, group);
      root, current, executing := r, r, null;
      kids := map[r := []];
    }

    /** Searches p's list s for the entry in front of g. */
    method FindBefore(p: Entry, ghost s: seq<Entry>, g: Entry) returns (entry: Entry?, ghost k: nat)
      requires Linked(p, s) && p.subgroups != g
      ensures if entry == null then g !in s else k + 1 < |s| && entry == s[k] && g == s[k + 1]
    {
      entry, k := p.subgroups, 0;
      while entry != null && entry.next != g
        invariant k <= |s| && entry == if k < |s| then s[k] else null
        invariant forall i :: 0 <= i <= k && i < |s| ==> g != s[i]
        decreases |s| - k
      {
        assert entry.next == Following(s, k);
        entry, k := entry.next, k + 1;
      }
      if entry != null {
        assert entry.next == Following(s, k);
      }
    }

    method FindLast(p: Entry, ghost s: seq<Entry>) returns (last: Entry)
      requires Linked(p, s) && p.subgroups != null
      ensures s != [] && last == s[|s| - 1]
    {
      last := p.subgroups;
      ghost var k := 0;
      assert last.next == Following(s, k);
      while last.next != null
        invariant k < |s| && last == s[k] && last.next == Following(s, k)
        decreases |s| - k
      {
        last, k := last.next, k + 1;
        assert last.next == Following(s, k);
      }
    }

    /** Hangs the new entry e behind the last subgroup of its parent. */
    method Append(e: Entry)
      requires Consistent(kids) && e.parent != null && e.parent in kids && e !in kids
      requires e.depth == e.parent.depth + 1 && e.next == null && e.subgroups == null
      modifies this`kids, kids.Keys`next, kids.Keys`subgroups
      ensures Consistent(kids) && kids == Grown(old(kids), e.parent, e)
    {
      hide Consistent, ListsOwned, Distinct;
      ghost var p, s := e.parent, kids[e.parent];
      ListFacts(kids, p);
      if e.parent.subgroups == null {
        e.parent.subgroups := e;
      } else {
        var last := FindLast(e.parent, s);
        LastOnce(kids, p, last);
        last.next := e;
      }
      AppendLinked(p, s, e);
      GrownConsistent(kids, p, e);
      kids := Grown(kids, p, e);
    }

    /** Unlinks the first subgroup of p. */
    method UnlinkFirst(p: Entry)
      requires Consistent(kids) && p in kids && kids[p] != []
      modifies this`kids, p`subgroups
      ensures Consistent(kids) && kids == old(kids)[p := Without(old(kids)[p], old(kids)[p][0])]
    {
      hide Consistent, ListsOwned, Without;
      ghost var s := kids[p];
      ListFacts(kids, p);
      assert s[0].next == Following(s, 0);
      p.subgroups := p.subgroups.next;
      RelinkedAround(p, s, 0);
      WithoutKeepsOwned(kids, p, 0);
      Reconsistent(kids, p, Without(s, s[0]));
      kids := kids[p := Without(s, s[0])];
    }

    /** Unlinks the subgroup behind position k of p's list. */
    method UnlinkAfter(p: Entry, entry: Entry, ghost k: nat)
      requires Consistent(kids) && p in kids && k + 1 < |kids[p]| && entry == kids[p][k]
      modifies this`kids, entry`next
      ensures Consistent(kids) && kids == old(kids)[p := Without(old(kids)[p], old(kids)[p][k + 1])]
    {
      hide Consistent, ListsOwned, Without, Linked, GoesAround, Distinct;
      ghost var s := kids[p];
      ListFacts(kids, p);
      Bypass(p, entry, s, k);
      RelinkedAround(p, s, k + 1);
      WithoutKeepsOwned(kids, p, k + 1);
      Reconsistent(kids, p, Without(s, s[k + 1]));
      kids := kids[p := Without(s, s[k + 1])];
    }

    method Bypass(p: Entry, entry: Entry, ghost s: seq<Entry>, ghost k: nat)
      requires Linked(p, s) && Distinct(s) && k + 1 < |s| && entry == s[k]
      modifies entry`next
      ensures GoesAround(p, s, k + 1)
    {
      assert entry.next == Following(s, k) == s[k + 1] && s[k + 1].next == Following(s, k + 1);
      entry.next := entry.next.next;
    }

    /** Takes g out of its parent's list; false when it is not there. */
    method Detach(g: Entry) returns (valid: bool)
      requires Consistent(kids) && g.parent != null && g.parent in kids
      modifies this`kids, kids.Keys`next, kids.Keys`subgroups
      ensures valid == (g in old(kids)[g.parent])
      ensures Consistent(kids)
      ensures kids == old(kids)[g.parent := Without(old(kids)[g.parent], g)]
    {
      hide Consistent, ListsOwned, Without;
      ghost var s := kids[g.parent];
      ListFacts(kids, g.parent);
      if g.parent.subgroups == g {
        UnlinkFirst(g.parent);
        valid := true;
      } else {
        var entry; ghost var k;
        entry, k := FindBefore(g.parent, s, g);
        valid := entry != null;
        if valid {
          UnlinkAfter(g.parent, entry, k);
        } else {
          WithoutAbsent(s, g);
        }
      }
    }

    /** Unregisters the subgroups of g one after the other. */
    method UnregisterSubgroups(g: Entry) returns (moved: bool)
      requires Consistent(kids) && current in kids && g in kids && BelowAttached(kids, g)
      modifies this`kids, this`current, kids.Keys`next, kids.Keys`subgroups
      ensures Consistent(kids) && current in kids && kids == Stripped(old(kids), g, |old(kids)[g]|)
      ensures current == Settled(old(current), old(kids)[g], g) && moved == UnderSome(old(current), old(kids)[g])
      decreases Subtree(kids, g), 0
    {
      hide Consistent, ListsOwned, Without, Stripped, Pruned, BelowAttached, UnderSome;
      hide Subtree, Settled, Under, Distinct, Linked, Attached;
      ghost var k1, current0, s, i := kids, current, kids[g], 0;
      FirstFacts(kids, g);
      StripNone(kids, g, current);
      var entry := g.subgroups;
      moved := false;
      while entry != null
        invariant i <= |s| && entry == if i < |s| then s[i] else null
        invariant Consistent(kids) && kids == Stripped(k1, g, i) && kids.Keys <= k1.Keys
        invariant current in kids && current == Settled(current0, s[..i], g) && moved == UnderSome(current0, s[..i])
        decreases |s| - i
      {
        StripStep(k1, g, i);
        SettleOne(current0, s, i, g);
        SubtreeShrinks(k1, kids, entry, g);
        FirstFacts(kids, g);
        var remote := entry;
        entry := entry.next;
        var m := Unregister(remote);
        if m {
          moved := true;
        }
        i := i + 1;
      }
      assert s[..|s|] == s;
    }

    /**
      Unregister_Command_Group: removes g with everything below it. A g that is not in its parent's list is
      left alone.
    */
    method Unregister(g: Entry) returns (moved: bool)
      requires Consistent(kids) && current in kids && g.parent != null && g.parent in kids
      requires g in kids[g.parent] ==> g in kids && BelowAttached(kids, g)
      modifies this`kids, this`current, kids.Keys`next, kids.Keys`subgroups
      ensures Consistent(kids) && current in kids
      ensures if g in old(kids)[g.parent]
              then kids == Pruned(old(kids), g) && moved == Under(old(current), g)
                   && current == if moved then g.parent else old(current)
              else kids == old(kids) && current == old(current) && !moved
      decreases Subtree(kids, g), 1
    {
      hide Consistent, ListsOwned, Without, Stripped, Pruned, BelowAttached, UnderSome, Subtree, Under, Distinct;
      ghost var before := kids;
      ListFacts(kids, g.parent);
      if g in kids[g.parent] {
        DetachFacts(kids, g, current);
      } else {
        WithoutAbsent(kids[g.parent], g);
      }
      var valid := Detach(g);
      if valid {
        FreeFacts(kids, g);
        moved := UnregisterSubgroups(g);
        if current == g {
          current := g.parent;
          moved := true;
        }
        FreeIsSafe(kids, g);
        kids := kids - {g};
      } else {
        assert kids == before;
        moved := false;
      }
    }

    /** QCLI_Register_Command_Group: with memory, the new group goes to the end of its parent's list. */
    method Register(parent: Entry?, group: Option<CommandGroup>, memory: bool) returns (handle: Entry?)
      requires Valid() && (parent != null ==> parent in kids)
      modifies this`kids, kids.Keys`next, kids.Keys`subgroups
      ensures Valid()
      ensures handle != null <==> group.Some? && memory
      ensures handle == null ==> kids == old(kids)
      ensures handle != null ==> fresh(handle) && handle.group == group.value
      ensures handle != null ==> handle.parent == (if parent == null then root else parent)
      ensures handle != null ==> kids == Grown(old(kids), if parent == null then root else parent, handle)
    {
      hide Consistent, ListsOwned;
      if group.Some? && memory {
        var p := if parent == null then root else parent;
        var e := new Entry(p, group.value);
        GrowKeepsTree(kids, root, p, e);
        Append(e);
        handle := e;
      } else {
        handle := null;
      }
    }

    /** QCLI_Unregister_Command_Group, for the handle of a registered group. */
    method UnregisterGroup(handle: Entry?) returns (moved: bool)
      requires Valid() && (handle != null ==> handle in kids && handle != root)
      modifies this`kids, this`current, kids.Keys`next, kids.Keys`subgroups
      ensures Valid()
      ensures handle == null ==> kids == old(kids) && current == old(current) && !moved
      ensures handle != null ==> kids == Pruned(old(kids), handle) && moved == Under(old(current), handle)
      ensures handle != null ==> current == if moved then handle.parent else old(current)
      ensures executing == old(executing)
      ensures handle != null && executing != null && executing in old(kids) ==>
        (executing in kids <==> !Under(executing, handle))
    {
      hide Consistent, ListsOwned, Pruned, Under;
      moved := false;
      if handle != null {
        ghost var before := kids;
        assert Attached(kids, handle);
        TreeAttached(kids, root, handle);
        moved := Unregister(handle);
        FirstFacts(kids, current);
        PruneKeepsTree(before, root, handle);
        PrunedAway(before, handle);
        assert IsTree(kids, root);
      }
    }

    /** The Up and Root commands. */
    method Up()
      requires Valid()
      modifies this`current
      ensures Valid() && current == if old(current) == root then root else old(current).parent
    {
      assert current != root ==> Attached(kids, current);
      if current.parent != null {
        current := current.parent;
      }
    }

    method Root()
      requires Valid()
      modifies this`current
      ensures Valid() && current == root
    {
      assert current != root ==> Attached(kids, current);
      if current.parent != null {
        current := root;
      }
    }
  }
}
