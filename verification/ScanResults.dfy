/**
  Accumulating scan results (wmi_scan_result_event and wmi_scan_comp_event in drivers/wlan/wmi_api.c): each
  batch of access points from the firmware is appended to a fixed buffer, leaving out those whose BSSID was
  already stored by an earlier batch. Entries are not compared within their own batch.
*/
module ScanResults {
  import opened Bytes

  /** An access point; the fields other than its address are copied along. */
  datatype Bss = Bss(bssid: seq<byte>, info: nat)

  predicate Known(s: seq<Bss>, bssid: seq<byte>) {
    exists i :: 0 <= i < |s| && s[i].bssid == bssid
  }

  predicate Distinct(s: seq<Bss>) {
    forall i, j :: 0 <= i < j < |s| ==> s[i].bssid != s[j].bssid
  }

  function Take(n: nat, s: seq<Bss>): seq<Bss> {
    if n < |s| then s[..n] else s
  }

  /** The entries of a batch whose address is not stored yet. */
  function Fresh(stored: seq<Bss>, batch: seq<Bss>): (r: seq<Bss>)
    ensures |r| <= |batch|
    decreases |batch|
  {
    if batch == [] then []
    else
      var rest, x := Fresh(stored, batch[..|batch| - 1]), batch[|batch| - 1];
      if Known(stored, x.bssid) then rest else rest + [x]
  }

  function Added(cap: nat, stored: seq<Bss>, batch: seq<Bss>): seq<Bss> {
    Take(cap, stored + Fresh(stored, batch))
  }

  // ----- The buffer -----

  /** The scan output: a fixed buffer with the number of its entries, kept twice. */
  class ScanOutput {
    const entries: array<Bss>
    var numBssCur: nat
    var totalBss: nat

    predicate Valid()
      reads this
    {
      entries.Length <= 255 && numBssCur <= entries.Length && totalBss == numBssCur
    }

    function Contents(): seq<Bss>
      reads this, entries
      requires Valid()
    {
      entries[..numBssCur]
    }

    /** The clearing of the output when a scan starts. */
    method Clear()
      requires Valid()
      modifies this
      ensures Valid() && Contents() == []
    {
      numBssCur, totalBss := 0, 0;
    }

    /** The loop that both events run. */
    method AddBatch(batch: seq<Bss>)
      requires Valid()
      modifies this, entries
      ensures Valid() && Contents() == Added(entries.Length, old(Contents()), batch)
    {
      hide Added, Fresh;
      ghost var stored := Contents();
      if totalBss < entries.Length {
        var lastIdx := numBssCur;
        var curIdx, i := lastIdx, 0;
        AddNone(entries.Length, stored, batch);
        while i < |batch| && curIdx < entries.Length
          invariant i <= |batch| && lastIdx <= curIdx <= entries.Length
          invariant entries[..lastIdx] == stored && Valid() && numBssCur == lastIdx
          invariant entries[..curIdx] == Added(entries.Length, stored, batch[..i])
        {
          var duplicate := IsKnown(lastIdx, batch[i].bssid);
          AddOne(entries.Length, stored, batch, i);
          if !duplicate {
            entries[curIdx] := batch[i];
            curIdx := curIdx + 1;
            assert entries[..curIdx] == Added(entries.Length, stored, batch[..i]) + [batch[i]];
          }
          i := i + 1;
        }
        AddRest(entries.Length, stored, batch, i);
        numBssCur := curIdx;
      } else {
        AddNone(entries.Length, stored, batch);
        AddRest(entries.Length, stored, batch, 0);
      }
      totalBss := numBssCur;
    }

    method IsKnown(lastIdx: nat, bssid: seq<byte>) returns (duplicate: bool)
      requires lastIdx <= entries.Length
      ensures duplicate <==> Known(entries[..lastIdx], bssid)
    {
      var j := 0;
      while j < lastIdx
        invariant j <= lastIdx && forall k :: 0 <= k < j ==> entries[k].bssid != bssid
      {
        if entries[j].bssid == bssid {
          assert entries[..lastIdx][j].bssid == bssid;
          return true;
        }
        j := j + 1;
      }
      return false;
    }
  }

  lemma AddNone(cap: nat, stored: seq<Bss>, batch: seq<Bss>)
    requires |stored| <= cap
    ensures Added(cap, stored, batch[..0]) == stored
  {
    assert batch[..0] == [];
    assert stored + [] == stored;
  }

  /** One more entry, while there is room. */
  lemma AddOne(cap: nat, stored: seq<Bss>, batch: seq<Bss>, i: nat)
    requires i < |batch| && |Added(cap, stored, batch[..i])| < cap
    ensures Added(cap, stored, batch[..i + 1]) ==
      if Known(stored, batch[i].bssid) then Added(cap, stored, batch[..i])
      else Added(cap, stored, batch[..i]) + [batch[i]]
  {
    var some, more := batch[..i], batch[..i + 1];
    assert more[..i] == some;
    var f := Fresh(stored, some);
    assert stored + (f + [batch[i]]) == stored + f + [batch[i]];
  }

  /** A full buffer, or a finished batch: the rest makes no difference. */
  lemma {:induction false} AddRest(cap: nat, stored: seq<Bss>, batch: seq<Bss>, i: nat)
    requires |stored| <= cap
    requires i == |batch| || (i < |batch| && |Added(cap, stored, batch[..i])| >= cap)
    ensures Added(cap, stored, batch) == Added(cap, stored, batch[..i])
    decreases |batch|
  {
    if i == |batch| {
      assert batch[..i] == batch;
    } else {
      var before := batch[..|batch| - 1];
      assert before[..i] == batch[..i];
      AddRest(cap, stored, before, i);
      var f := Fresh(stored, before);
      assert (stored + (f + [batch[|batch| - 1]]))[..cap] == (stored + f)[..cap];
    }
  }

  // ----- The reference: first occurrences -----

  /** Keep the first entry of each address. */
  function Dedup(s: seq<Bss>): (r: seq<Bss>)
    decreases |s|
  {
    if s == [] then []
    else
      var d, x := Dedup(s[..|s| - 1]), s[|s| - 1];
      if Known(d, x.bssid) then d else d + [x]
  }

  lemma KnownAppend(s: seq<Bss>, t: seq<Bss>, bssid: seq<byte>)
    ensures Known(s + t, bssid) <==> Known(s, bssid) || Known(t, bssid)
  {
    if Known(s, bssid) {
      var i :| 0 <= i < |s| && s[i].bssid == bssid;
      assert (s + t)[i].bssid == bssid;
    }
    if Known(t, bssid) {
      var i :| 0 <= i < |t| && t[i].bssid == bssid;
      assert (s + t)[|s| + i].bssid == bssid;
    }
  }

  lemma KnownOne(x: Bss, bssid: seq<byte>)
    ensures Known([x], bssid) <==> x.bssid == bssid
  {
    assert [x][0] == x;
  }

  lemma {:induction false} DedupDistinct(s: seq<Bss>)
    ensures Distinct(Dedup(s))
    decreases |s|
  {
    if s != [] {
      DedupDistinct(s[..|s| - 1]);
    }
  }

  /** Deduplicating more input keeps what was there and adds the deduplicated fresh entries. */
  lemma {:induction false} DedupGrows(s: seq<Bss>, t: seq<Bss>)
    ensures Dedup(s + t) == Dedup(s) + Dedup(Fresh(Dedup(s), t))
    decreases |t|
  {
    hide Known;
    if t == [] {
      assert s + t == s;
    } else {
      var before, x := t[..|t| - 1], t[|t| - 1];
      assert (s + t)[..|s + t| - 1] == s + before;
      DedupGrows(s, before);
      var f := Fresh(Dedup(s), before);
      KnownAppend(Dedup(s), Dedup(f), x.bssid);
      if !Known(Dedup(s), x.bssid) {
        assert (f + [x])[..|f|] == f;
      }
    }
  }

  lemma {:induction false} DistinctIsDeduped(s: seq<Bss>)
    requires Distinct(s)
    ensures Dedup(s) == s
    decreases |s|
  {
    hide Known, Distinct;
    if s != [] {
      LastIsUnknown(s);
      DistinctIsDeduped(s[..|s| - 1]);
      assert s == s[..|s| - 1] + [s[|s| - 1]];
    }
  }

  lemma LastIsUnknown(s: seq<Bss>)
    requires s != [] && Distinct(s)
    ensures Distinct(s[..|s| - 1]) && !Known(s[..|s| - 1], s[|s| - 1].bssid)
  {
  }

  /** The first n entries are what deduplication leaves exactly when they are distinct. */
  lemma DedupOfPrefix(n: nat, f: seq<Bss>)
    ensures Take(n, f) == Take(n, Dedup(f)) <==> Distinct(Take(n, f))
  {
    hide Known, Fresh, Dedup;
    DedupDistinct(f);
    if Distinct(Take(n, f)) {
      var g := Take(n, f);
      DistinctIsDeduped(g);
      assert f == g + f[|g|..];
      DedupGrows(g, f[|g|..]);
      assert |g| == n || g == f;
    }
  }

  // ----- Whole scans -----

  function Flatten(batches: seq<seq<Bss>>): seq<Bss>
    decreases |batches|
  {
    if batches == [] then [] else Flatten(batches[..|batches| - 1]) + batches[|batches| - 1]
  }

  /** What a scan has stored after its batches. */
  function Accumulated(cap: nat, batches: seq<seq<Bss>>): (r: seq<Bss>)
    ensures |r| <= cap
    decreases |batches|
  {
    if batches == [] then [] else Added(cap, Accumulated(cap, batches[..|batches| - 1]), batches[|batches| - 1])
  }

  /** The entries a batch adds within the capacity do not repeat an address. */
  predicate Clean(cap: nat, stored: seq<Bss>, batch: seq<Bss>)
    requires |stored| <= cap
  {
    Distinct(Take(cap - |stored|, Fresh(stored, batch)))
  }

  predicate AllClean(cap: nat, batches: seq<seq<Bss>>)
    decreases |batches|
  {
    batches == [] || (AllClean(cap, batches[..|batches| - 1])
                      && Clean(cap, Accumulated(cap, batches[..|batches| - 1]), batches[|batches| - 1]))
  }

  /** Appending fresh entries with distinct addresses keeps addresses distinct, and only those. */
  lemma AddedDistinct(cap: nat, stored: seq<Bss>, batch: seq<Bss>)
    requires |stored| <= cap && Distinct(stored)
    ensures Distinct(Added(cap, stored, batch)) <==> Clean(cap, stored, batch)
  {
    hide Fresh, Known;
    var t := Take(cap - |stored|, Fresh(stored, batch));
    assert Added(cap, stored, batch) == stored + t;
    FreshIsUnknown(stored, batch);
    JoinDistinct(stored, t);
  }

  lemma JoinDistinct(s: seq<Bss>, t: seq<Bss>)
    requires Distinct(s) && forall i, j :: 0 <= i < |s| && 0 <= j < |t| ==> s[i].bssid != t[j].bssid
    ensures Distinct(s + t) <==> Distinct(t)
  {
    if Distinct(s + t) {
      forall i, j | 0 <= i < j < |t|
        ensures t[i].bssid != t[j].bssid
      {
        assert (s + t)[|s| + i] == t[i] && (s + t)[|s| + j] == t[j];
      }
    }
  }

  lemma {:induction false} FreshIsUnknown(stored: seq<Bss>, batch: seq<Bss>)
    ensures forall i, j :: 0 <= i < |stored| && 0 <= j < |Fresh(stored, batch)| ==>
      stored[i].bssid != Fresh(stored, batch)[j].bssid
    decreases |batch|
  {
    if batch != [] {
      FreshIsUnknown(stored, batch[..|batch| - 1]);
    }
  }

  /** One batch against the reference. */
  lemma OneBatch(cap: nat, flat: seq<Bss>, batch: seq<Bss>)
    requires var stored := Take(cap, Dedup(flat));
      Clean(cap, stored, batch)
    ensures Added(cap, Take(cap, Dedup(flat)), batch) == Take(cap, Dedup(flat + batch))
  {
    hide Fresh, Known, Dedup, Distinct, Take;
    var d := Dedup(flat);
    DedupGrows(flat, batch);
    if |d| <= cap {
      var f := Fresh(d, batch);
      TakeAll(cap, d);
      DedupOfPrefix(cap - |d|, f);
      TakeAppend(cap, d, f);
      TakeAppend(cap, d, Dedup(f));
    } else {
      TakeFull(cap, d, Fresh(Take(cap, d), batch), Dedup(Fresh(d, batch)));
    }
  }

  lemma TakeAll(cap: nat, s: seq<Bss>)
    requires |s| <= cap
    ensures Take(cap, s) == s
  {
  }

  /** What comes behind a full list makes no difference. */
  lemma TakeFull(cap: nat, s: seq<Bss>, t: seq<Bss>, u: seq<Bss>)
    requires |s| >= cap
    ensures Take(cap, Take(cap, s) + t) == Take(cap, s) == Take(cap, s + u)
  {
  }

  lemma TakeAppend(cap: nat, s: seq<Bss>, t: seq<Bss>)
    requires |s| <= cap
    ensures Take(cap, s + t) == s + Take(cap - |s|, t)
  {
  }

  /**
    The stored list is the first-occurrence deduplication of all batches, truncated to capacity, exactly when
    no batch repeats an address among the entries that it adds; and exactly then its addresses are distinct.
  */
  lemma {:induction false} StoredIsDeduplicated(cap: nat, batches: seq<seq<Bss>>)
    ensures AllClean(cap, batches) <==> Accumulated(cap, batches) == Take(cap, Dedup(Flatten(batches)))
    ensures AllClean(cap, batches) <==> Distinct(Accumulated(cap, batches))
    decreases |batches|
  {
    hide Dedup, Clean, Added, Known;
    var flat := Flatten(batches);
    DedupDistinct(flat);
    if batches == [] {
      DistinctIsDeduped(flat);
    } else {
      var before, batch := batches[..|batches| - 1], batches[|batches| - 1];
      StoredIsDeduplicated(cap, before);
      var stored := Accumulated(cap, before);
      AddedKeepsPrefix(cap, stored, batch);
      if Distinct(stored) {
        AddedDistinct(cap, stored, batch);
        if Clean(cap, stored, batch) {
          OneBatch(cap, Flatten(before), batch);
        }
      }
    }
  }

  lemma AddedKeepsPrefix(cap: nat, stored: seq<Bss>, batch: seq<Bss>)
    requires |stored| <= cap
    ensures Distinct(Added(cap, stored, batch)) ==> Distinct(stored)
  {
    var a := Added(cap, stored, batch);
    assert |stored| <= |a| && a[..|stored|] == stored;
    if Distinct(a) {
      forall i, j | 0 <= i < j < |stored|
        ensures stored[i].bssid != stored[j].bssid
      {
        assert a[i] == stored[i] && a[j] == stored[j];
      }
    }
  }

  /** Batches without repeated addresses of their own are clean. */
  lemma {:induction false} DistinctBatchesAreClean(cap: nat, batches: seq<seq<Bss>>)
    requires forall b <- batches :: Distinct(b)
    ensures AllClean(cap, batches)
    decreases |batches|
  {
    if batches != [] {
      var before, batch := batches[..|batches| - 1], batches[|batches| - 1];
      assert forall b <- before :: b in batches;
      DistinctBatchesAreClean(cap, before);
      FreshDistinct(Accumulated(cap, before), batch);
    }
  }

  lemma {:induction false} FreshDistinct(stored: seq<Bss>, batch: seq<Bss>)
    requires Distinct(batch)
    ensures Distinct(Fresh(stored, batch))
    ensures forall x <- Fresh(stored, batch) :: x in batch
    decreases |batch|
  {
    if batch != [] {
      var before := batch[..|batch| - 1];
      FreshDistinct(stored, before);
      assert forall x <- before :: x in batch;
      var f, last := Fresh(stored, before), batch[|batch| - 1];
      forall j | 0 <= j < |f|
        ensures f[j].bssid != last.bssid
      {
        assert f[j] in before;
        var i :| 0 <= i < |before| && before[i] == f[j];
        assert batch[i] == f[j];
      }
    }
  }

  /** A batch that repeats a new address stores it twice. */
  lemma RepeatIsStoredTwice(cap: nat, x: Bss)
    requires cap >= 2
    ensures Accumulated(cap, [[x, x]]) == [x, x] && Take(cap, Dedup(Flatten([[x, x]]))) == [x]
  {
    assert [x, x][..1] == [x] && [[x, x]][..0] == [];
    assert !Known([], x.bssid);
    assert Fresh([], [x]) == [x];
    assert Fresh([], [x, x]) == [x, x];
    assert Added(cap, [], [x, x]) == [x, x];
    assert Flatten([[x, x]]) == [x, x];
    assert Dedup([x]) == [x];
    KnownOne(x, x.bssid);
  }
}
