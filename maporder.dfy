/** The map-order tree of the map list panel (Widgets/Mapping/Misc/MapSelectPanel.cs).
    The project keeps the order of its maps as a nested list: a map without children
    is its ID; a map with children is a sub-list [ID, collapsed, child, child, …]. The
    panel edits that list in place while recursing, turns it into tree nodes and
    deletes a map together with its descendants. */
module MapOrder {
  import opened Tiles

  /** One entry of the order list: a map ID, a collapsed flag, or a sub-list. */
  datatype Entry = Id(id: int) | Flag(collapsed: bool) | Sub(items: seq<Entry>)

  /** A well-formed entry: a map ID, or a sub-list headed by a map ID and a flag
      whose other entries are well-formed. Flags appear only in second place. */
  predicate WF(e: Entry)
  {
    match e
    case Id(_) => true
    case Flag(_) => false
    case Sub(items) => 2 <= |items| && items[0].Id? && items[1].Flag? && forall k :: 2 <= k < |items| ==> WF(items[k])
  }

  /** The format RemoveID and SetCollapsed are modelled on: every sub-list
      starts with a map ID and a flag, and so does every sub-list inside it.
      This is more than the scans themselves read (RemoveID tests the head's
      type and reads positions 0 and 2 only; SetCollapsed casts the head and
      overwrites position 1 whatever it holds). It is the format the casts of
      PopulateList enforce, so every order list the panel has shown has it
      (ScannedWFShaped). Unlike WF, a stray flag is tolerated: both scans pass
      over flags. */
  predicate Shaped(e: Entry)
  {
    match e
    case Sub(items) =>
      2 <= |items| && items[0].Id? && items[1].Flag? && forall k :: 2 <= k < |items| ==> Shaped(items[k])
    case _ => true
  }

  predicate ScannedShaped(s: seq<Entry>, first: bool)
  {
    forall k :: Start(first) <= k < |s| ==> Shaped(s[k])
  }

  /** A well-formed entry is shaped. */
  lemma WFShaped(e: Entry)
    requires WF(e)
    ensures Shaped(e)
  {
    if e.Sub? {
      forall k | 2 <= k < |e.items|
        ensures Shaped(e.items[k])
      {
        WFShaped(e.items[k]);
      }
    }
  }

  /** An order list PopulateList accepts has the format the removal and
      collapse scans are modelled on. */
  lemma ScannedWFShaped(s: seq<Entry>, first: bool)
    requires ScannedWF(s, first)
    ensures ScannedShaped(s, first)
  {
    forall k | Start(first) <= k < |s|
      ensures Shaped(s[k])
    {
      WFShaped(s[k]);
    }
  }

  /** Where a scan of the list starts: 0 for the top-level list, 2 in a sub-list. */
  function Start(first: bool): nat
  {
    if first then 0 else 2
  }

  /** Every entry a scan visits is well-formed. */
  predicate ScannedWF(s: seq<Entry>, first: bool)
  {
    forall k :: Start(first) <= k < |s| ==> WF(s[k])
  }

  /** The map IDs an entry holds, with multiplicity. */
  function EntryIds(e: Entry): multiset<int>
  {
    match e
    case Id(n) => multiset{n}
    case Flag(_) => multiset{}
    case Sub(items) => ListIds(items)
  }

  function ListIds(s: seq<Entry>): multiset<int>
  {
    if |s| == 0 then multiset{} else EntryIds(s[0]) + ListIds(s[1..])
  }

  lemma {:induction false} ListIdsConcat(a: seq<Entry>, b: seq<Entry>)
    ensures ListIds(a + b) == ListIds(a) + ListIds(b)
    decreases |a|
  {
    if |a| > 0 {
      assert (a + b)[0] == a[0] && (a + b)[1..] == a[1..] + b;
      ListIdsConcat(a[1..], b);
    } else {
      assert a + b == b;
    }
  }

  /** No map is listed twice. */
  ghost predicate Unique(s: seq<Entry>)
  {
    forall x :: ListIds(s)[x] <= 1
  }

  // ---- RemoveID ----

  /** The scan of RemoveID from the current position on. A matching ID is removed
      and the scan stops; a sub-list headed by the ID is removed and, since the
      index still advances, the entry that moved into its place is passed over; a
      three-entry sub-list whose only child is the ID becomes its head ID; any
      other sub-list is scanned itself. */
  function RemoveScan(rest: seq<Entry>, id: int): seq<Entry>
    decreases rest, 0
  {
    if |rest| == 0 then []
    else
      match rest[0]
      case Flag(_) => [rest[0]] + RemoveScan(rest[1..], id)
      case Id(n) => if n == id then rest[1..] else [rest[0]] + RemoveScan(rest[1..], id)
      case Sub(items) =>
        if 0 < |items| && items[0] == Id(id) then
          (if |rest| < 2 then [] else [rest[1]] + RemoveScan(rest[2..], id))
        else if |items| == 3 && items[2] == Id(id) then [items[0]] + RemoveScan(rest[1..], id)
        else [Sub(RemovedId(items, id, false))] + RemoveScan(rest[1..], id)
  }

  /** RemoveID on a whole list: the top-level list is scanned from its first entry,
      a sub-list after its head and flag. */
  function RemovedId(c: seq<Entry>, id: int, first: bool): seq<Entry>
    decreases c, 1
  {
    if first then RemoveScan(c, id)
    else if |c| <= 2 then c
    else c[..2] + RemoveScan(c[2..], id)
  }

  /** One step of the scan over an entry it keeps or replaces. */
  lemma ScanStep(pre: seq<Entry>, rest: seq<Entry>, id: int, e: Entry)
    requires 0 < |rest|
    requires rest[0].Flag? || (rest[0].Id? && rest[0].id != id) ==> e == rest[0]
    requires rest[0].Id? ==> rest[0].id != id
    requires rest[0].Sub? ==> var items := rest[0].items;
      !(0 < |items| && items[0] == Id(id))
      && e == (if |items| == 3 && items[2] == Id(id) then items[0] else Sub(RemovedId(items, id, false)))
    ensures pre + RemoveScan(rest, id) == (pre + [e]) + RemoveScan(rest[1..], id)
  {
  }

  /** The step that removes a sub-list headed by the ID: the next entry is kept
      unexamined. */
  lemma ScanDropSub(pre: seq<Entry>, rest: seq<Entry>, id: int)
    requires 0 < |rest| && rest[0].Sub? && 0 < |rest[0].items| && rest[0].items[0] == Id(id)
    ensures pre + RemoveScan(rest, id) == if |rest| < 2 then pre else (pre + [rest[1]]) + RemoveScan(rest[2..], id)
  {
  }

  /** RemoveID: the list is edited in place (RemoveAt, element replacement), and a
      sub-list is handed to a recursive call. */
  method RemoveID(collection: seq<Entry>, id: int, first: bool) returns (r: seq<Entry>)
    requires ScannedShaped(collection, first)
    ensures r == RemovedId(collection, id, first)
    decreases collection, 1
  {
    r := collection;
    var i := Start(first);
    if i >= |r| {
      return;
    }
    ghost var target := RemovedId(collection, id, first);
    assert RemoveInv(collection, target, r, i, id);
    while i < |r|
      invariant RemoveInv(collection, target, r, i, id)
      decreases |r| + 1 - i
    {
      r, i := RemoveNext(collection, id, r, i, target);
    }
    if i == |r| {
      assert r[..i] == r;
    }
  }

  /** One iteration of the loop of RemoveID at entry `i`: the ID itself is
      removed and the scan returns (the index is then past the end); a sub-list
      headed by the ID is removed and the next entry skipped; a sub-list holding
      only the ID below its head collapses to the head; any other sub-list is
      edited by the recursive call. */
  method RemoveNext(collection: seq<Entry>, id: int, r0: seq<Entry>, i0: int, ghost target: seq<Entry>)
    returns (r: seq<Entry>, i: int)
    requires i0 < |r0| && RemoveInv(collection, target, r0, i0, id)
    ensures RemoveInv(collection, target, r, i, id)
    ensures |r| + 1 - i < |r0| + 1 - i0
    decreases collection, 0
  {
    r, i := r0, i0;
    var e := r[i];
    assert Shaped(e) && e in collection;
    if e.Id? && e.id == id {
      HitStep(r, i, id);
      r := r[..i] + r[i + 1..];
      i := |r| + 1;
      return;
    }
    if e.Sub? && e.items[0] == Id(id) {
      DropStep(r, i, id);
      r := r[..i] + r[i + 1..];
      i := i + 1;
    } else {
      var e' := e;
      if e.Sub? {
        var sub := e.items;
        if |sub| == 3 && sub[2] == Id(id) {
          e' := sub[0];
        } else {
          assert forall k :: 2 <= k < |sub| ==> Shaped(sub[k]);
          var sub' := RemoveID(sub, id, false);
          e' := Sub(sub');
        }
      }
      KeepStep(r, i, id, e');
      r := r[i := e'];
      i := i + 1;
    }
  }

  /** The state of the loop of RemoveID at entry `i` of the edited list `r`:
      either the scan is still going, and the entries left to visit are shaped
      entries of the original list, or it has stopped past the end with the
      result in `r`. */
  ghost predicate RemoveInv(collection: seq<Entry>, target: seq<Entry>, r: seq<Entry>, i: int, id: int)
  {
    && 0 <= i <= |r| + 1
    && (i <= |r| ==> forall k :: i <= k < |r| ==> Shaped(r[k]) && r[k] in collection)
    && (i <= |r| ==> target == r[..i] + RemoveScan(r[i..], id))
    && (i == |r| + 1 ==> target == r)
  }

  /** The loop step of RemoveID over an entry it keeps or replaces. */
  lemma KeepStep(r: seq<Entry>, i: int, id: int, e2: Entry)
    requires 0 <= i < |r|
    requires r[i].Flag? || (r[i].Id? && r[i].id != id) ==> e2 == r[i]
    requires r[i].Id? ==> r[i].id != id
    requires r[i].Sub? ==> var items := r[i].items;
      !(0 < |items| && items[0] == Id(id))
      && e2 == (if |items| == 3 && items[2] == Id(id) then items[0] else Sub(RemovedId(items, id, false)))
    ensures r[..i] + RemoveScan(r[i..], id) == r[i := e2][..i + 1] + RemoveScan(r[i := e2][i + 1..], id)
  {
    var rest := r[i..];
    assert rest[1..] == r[i + 1..];
    ScanStep(r[..i], rest, id, e2);
    assert r[i := e2][..i + 1] == r[..i] + [e2];
    assert r[i := e2][i + 1..] == r[i + 1..];
  }

  /** The loop step of RemoveID that removes a sub-list headed by the ID. */
  lemma DropStep(r: seq<Entry>, i: int, id: int)
    requires 0 <= i < |r| && r[i].Sub? && 0 < |r[i].items| && r[i].items[0] == Id(id)
    ensures var r2 := r[..i] + r[i + 1..];
      r[..i] + RemoveScan(r[i..], id) == if i + 1 < |r| then r2[..i + 1] + RemoveScan(r2[i + 1..], id) else r2
  {
    var rest := r[i..];
    ScanDropSub(r[..i], rest, id);
    var r2 := r[..i] + r[i + 1..];
    if i + 1 < |r| {
      assert r2[..i + 1] == r[..i] + [rest[1]];
      assert r2[i + 1..] == rest[2..];
    } else {
      assert r2 == r[..i];
    }
  }

  /** The loop step of RemoveID that finds the ID itself. */
  lemma HitStep(r: seq<Entry>, i: int, id: int)
    requires 0 <= i < |r| && r[i] == Id(id)
    ensures r[..i] + RemoveScan(r[i..], id) == r[..i] + r[i + 1..]
  {
    assert r[i..][1..] == r[i + 1..];
  }

  // ---- What RemoveID removes ----

  /** The IDs of the map `id` and of all its descendants, as the list holds them:
      an ID entry equal to `id`, or a whole sub-list headed by `id`. */
  function Doomed(s: seq<Entry>, id: int): multiset<int>
  {
    if |s| == 0 then multiset{} else DoomedEntry(s[0], id) + Doomed(s[1..], id)
  }

  function DoomedEntry(e: Entry, id: int): multiset<int>
  {
    match e
    case Id(n) => if n == id then multiset{n} else multiset{}
    case Flag(_) => multiset{}
    case Sub(items) => if 0 < |items| && items[0] == Id(id) then ListIds(items) else Doomed(items, id)
  }

  /** A list that does not hold the ID is left alone, and nothing in it is doomed. */
  lemma {:induction false} ScanAbsent(s: seq<Entry>, id: int)
    requires ListIds(s)[id] == 0
    ensures RemoveScan(s, id) == s && Doomed(s, id) == multiset{}
    decreases s, 0
  {
    if |s| > 0 {
      assert ListIds(s) == EntryIds(s[0]) + ListIds(s[1..]);
      ScanAbsent(s[1..], id);
      match s[0]
      case Id(_) =>
      case Flag(_) =>
      case Sub(items) =>
        SubAbsent(items, id);
    }
  }

  lemma {:induction false} SubAbsent(items: seq<Entry>, id: int)
    requires ListIds(items)[id] == 0
    ensures RemovedId(items, id, false) == items && Doomed(items, id) == multiset{}
    ensures !(0 < |items| && items[0] == Id(id)) && !(|items| == 3 && items[2] == Id(id))
    decreases items, 1
  {
    if 0 < |items| {
      assert ListIds(items) == EntryIds(items[0]) + ListIds(items[1..]);
    }
    if 2 < |items| {
      assert ListIds(items) == EntryIds(items[0]) + ListIds(items[1..]);
      assert ListIds(items[1..]) == EntryIds(items[1]) + ListIds(items[2..]);
      ScanAbsent(items[2..], id);
      assert items[..2] + items[2..] == items;
    }
    ScanAbsent(items, id);
  }

  /** Unfolding the IDs and the doomed IDs of a sub-list past its head and flag. */
  lemma SubListIds(items: seq<Entry>, id: int)
    requires 2 <= |items| && items[0].Id? && items[1].Flag?
    ensures ListIds(items) == multiset{items[0].id} + ListIds(items[2..])
    ensures Doomed(items, id) == (if items[0].id == id then multiset{id} else multiset{}) + Doomed(items[2..], id)
  {
    var tail := items[1..];
    assert tail[1..] == items[2..];
    assert ListIds(items) == multiset{items[0].id} + ListIds(tail);
    assert ListIds(tail) == ListIds(items[2..]);
    assert Doomed(items, id) == DoomedEntry(items[0], id) + Doomed(tail, id);
    assert Doomed(tail, id) == Doomed(items[2..], id);
  }

  /** Removal keeps the list well-formed. */
  lemma {:induction false} ScanKeepsWF(s: seq<Entry>, id: int)
    requires forall k :: 0 <= k < |s| ==> WF(s[k])
    ensures forall k :: 0 <= k < |RemoveScan(s, id)| ==> WF(RemoveScan(s, id)[k])
    decreases s
  {
    if |s| > 0 {
      ScanKeepsWF(s[1..], id);
      if s[0].Sub? {
        var items := s[0].items;
        if !(items[0] == Id(id)) && !(|items| == 3 && items[2] == Id(id)) {
          SubKeepsWF(items, id);
        }
        if items[0] == Id(id) && 2 <= |s| {
          ScanKeepsWF(s[2..], id);
        }
      }
    }
  }

  lemma {:induction false} SubKeepsWF(items: seq<Entry>, id: int)
    requires WF(Sub(items))
    ensures WF(Sub(RemovedId(items, id, false)))
    decreases items, 1
  {
    if |items| > 2 {
      ScanKeepsWF(items[2..], id);
      var r := RemovedId(items, id, false);
      assert r[..2] == items[..2];
      assert forall k :: 2 <= k < |r| ==> r[k] == RemoveScan(items[2..], id)[k - 2];
    }
  }

  /** The multiset bookkeeping of one scan step that emits `e2` for the head. */
  lemma StepIds(r: seq<Entry>, r1: seq<Entry>, e2: Entry, s: seq<Entry>, id: int)
    requires 0 < |s| && r == [e2] + r1
    requires ListIds(r1) + Doomed(s[1..], id) == ListIds(s[1..])
    requires EntryIds(e2) + DoomedEntry(s[0], id) == EntryIds(s[0])
    ensures ListIds(r) + Doomed(s, id) == ListIds(s)
  {
    ListIdsConcat([e2], r1);
    assert ListIds([e2]) == EntryIds(e2);
  }

  /** The bookkeeping of removing a sub-list headed by the ID: nothing after it
      holds the ID, so the entry passed over loses nothing. */
  lemma DropSubIds(s: seq<Entry>, id: int)
    requires 0 < |s| && s[0].Sub? && WF(s[0]) && s[0].items[0] == Id(id)
    requires ListIds(s)[id] <= 1
    requires ListIds(s) == EntryIds(s[0]) + ListIds(s[1..])
    requires Doomed(s, id) == DoomedEntry(s[0], id) + Doomed(s[1..], id)
    ensures ListIds(RemoveScan(s, id)) + Doomed(s, id) == ListIds(s)
  {
    SubListIds(s[0].items, id);
    DropSubRest(s, id);
  }

  /** Removing a sub-list headed by the ID when the entries after it do not
      hold the ID: what is left is exactly those entries. */
  lemma DropSubRest(s: seq<Entry>, id: int)
    requires 0 < |s| && s[0].Sub? && 0 < |s[0].items| && s[0].items[0] == Id(id)
    requires ListIds(s[1..])[id] == 0
    ensures RemoveScan(s, id) == s[1..] && Doomed(s[1..], id) == multiset{}
  {
    ScanAbsent(s[1..], id);
    ScanDropSub([], s, id);
    if 2 <= |s| {
      var tail := s[1..];
      assert tail[0] == s[1] && tail[1..] == s[2..];
      assert ListIds(tail) == EntryIds(s[1]) + ListIds(s[2..]);
      ScanAbsent(s[2..], id);
    }
  }


  /** With the ID listed at most once, the scan takes out exactly the doomed IDs:
      what is left plus what is doomed is what was there. (The skipped entry after
      a removed sub-list and the entries after a removed ID cannot hold the ID.) */
  lemma {:induction false} ScanRemovesDoomed(s: seq<Entry>, id: int)
    requires forall k :: 0 <= k < |s| ==> WF(s[k])
    requires ListIds(s)[id] <= 1
    ensures ListIds(RemoveScan(s, id)) + Doomed(s, id) == ListIds(s)
    decreases s, 1
  {
    if |s| > 0 {
      var e := s[0];
      assert ListIds(s) == EntryIds(e) + ListIds(s[1..]);
      assert Doomed(s, id) == DoomedEntry(e, id) + Doomed(s[1..], id);
      if e.Id? && e.id == id {
        ScanAbsent(s[1..], id);
        assert RemoveScan(s, id) == s[1..];
      } else if e.Sub? && e.items[0] == Id(id) {
        DropSubIds(s, id);
      } else {
        ScanRemovesDoomed(s[1..], id);
        if e.Sub? {
          SubStepIds(s, id);
        } else {
          ScanStep([], s, id, e);
          StepIds(RemoveScan(s, id), RemoveScan(s[1..], id), e, s, id);
        }
      }
    }
  }

  /** The step over a sub-list not headed by the ID: it either collapses to its
      head when its only child is the ID, or is scanned itself. */
  lemma {:induction false} SubStepIds(s: seq<Entry>, id: int)
    requires 0 < |s| && s[0].Sub? && WF(s[0]) && s[0].items[0] != Id(id)
    requires ListIds(s)[id] <= 1
    requires ListIds(s) == EntryIds(s[0]) + ListIds(s[1..])
    requires ListIds(RemoveScan(s[1..], id)) + Doomed(s[1..], id) == ListIds(s[1..])
    ensures ListIds(RemoveScan(s, id)) + Doomed(s, id) == ListIds(s)
    decreases s, 0
  {
    var items := s[0].items;
    SubListIds(items, id);
    var e2;
    if |items| == 3 && items[2] == Id(id) {
      e2 := items[0];
      assert items[2..] == [items[2]];
    } else {
      SubRemovesDoomed(items, id);
      e2 := Sub(RemovedId(items, id, false));
    }
    ScanStep([], s, id, e2);
    StepIds(RemoveScan(s, id), RemoveScan(s[1..], id), e2, s, id);
  }

  lemma {:induction false} SubRemovesDoomed(items: seq<Entry>, id: int)
    requires WF(Sub(items)) && items[0] != Id(id)
    requires ListIds(items)[id] <= 1
    ensures ListIds(RemovedId(items, id, false)) + Doomed(items, id) == ListIds(items)
    decreases items, 2
  {
    SubListIds(items, id);
    var r := RemovedId(items, id, false);
    if |items| > 2 {
      ScanRemovesDoomed(items[2..], id);
      SubListIds(r, id);
      assert r[2..] == RemoveScan(items[2..], id);
    } else {
      assert items[2..] == [];
    }
  }

  /** Every occurrence of the ID is doomed, and only listed IDs are. */
  lemma {:induction false} DoomedListed(s: seq<Entry>, id: int)
    ensures Doomed(s, id) <= ListIds(s)
    ensures Doomed(s, id)[id] == ListIds(s)[id]
    decreases s
  {
    if |s| > 0 {
      DoomedListed(s[1..], id);
      if s[0].Sub? && !(0 < |s[0].items| && s[0].items[0] == Id(id)) {
        DoomedListed(s[0].items, id);
      }
    }
  }

  /** Deleting a map from the top-level order list: when the map is listed at most
      once, exactly it and its descendants leave the list, in particular the map
      itself, and the list stays well-formed. */
  lemma RemoveIdExact(order: seq<Entry>, id: int)
    requires ScannedWF(order, true) && ListIds(order)[id] <= 1
    ensures ListIds(RemovedId(order, id, true)) == ListIds(order) - Doomed(order, id)
    ensures id !in ListIds(RemovedId(order, id, true))
    ensures ScannedWF(RemovedId(order, id, true), true)
  {
    ScanRemovesDoomed(order, id);
    DoomedListed(order, id);
    ScanKeepsWF(order, id);
  }

  // ---- SetCollapsed ----

  /** Every entry of a list that a scan from position 0 visits is shaped. */
  predicate AllShaped(c: seq<Entry>)
  {
    forall k :: 0 <= k < |c| ==> Shaped(c[k])
  }

  lemma ItemsShaped(items: seq<Entry>)
    requires Shaped(Sub(items))
    ensures AllShaped(items)
  {
    assert Shaped(items[0]) && Shaped(items[1]);
  }

  /** SetCollapsed over a list: a sub-list headed by the map gets the new flag and
      is not looked into; every other sub-list is updated itself; IDs and flags
      of the list stay as they are. */
  function Collapsed(c: seq<Entry>, mapId: int, v: bool): (r: seq<Entry>)
    requires AllShaped(c)
    ensures |r| == |c|
    decreases c
  {
    seq(|c|, k requires 0 <= k < |c| =>
      match c[k]
      case Sub(items) =>
        if items[0] == Id(mapId) then Sub(items[1 := Flag(v)])
        else (ItemsShaped(items); Sub(Collapsed(items, mapId, v)))
      case _ => c[k])
  }

  /** SetCollapsed: sets the flag in place while scanning, recursing into other
      sub-lists, and always answers false. */
  method SetCollapsed(collection: seq<Entry>, mapId: int, isCollapsed: bool) returns (r: seq<Entry>, found: bool)
    requires AllShaped(collection)
    ensures r == Collapsed(collection, mapId, isCollapsed)
    ensures !found
    decreases collection
  {
    r := collection;
    var i := 0;
    while i < |r|
      invariant 0 <= i <= |r| == |collection|
      invariant forall k :: 0 <= k < i ==> r[k] == Collapsed(collection, mapId, isCollapsed)[k]
      invariant forall k :: i <= k < |r| ==> r[k] == collection[k]
    {
      var o := r[i];
      if o.Sub? {
        var sub := o.items;
        assert Shaped(o);
        if sub[0] == Id(mapId) {
          r := r[i := Sub(sub[1 := Flag(isCollapsed)])];
        } else {
          ItemsShaped(sub);
          var sub', _ := SetCollapsed(sub, mapId, isCollapsed);
          r := r[i := Sub(sub')];
        }
      }
      i := i + 1;
    }
    assert r == Collapsed(collection, mapId, isCollapsed);
    return r, false;
  }

  /** The collapsed flag of a map: the flag of the first sub-list headed by it, in
      the order the tree is built. A map without children has none. */
  function FlagOf(c: seq<Entry>, x: int): Option<bool>
  {
    if |c| == 0 then None
    else match c[0]
      case Sub(items) =>
        if 2 <= |items| && items[0] == Id(x) && items[1].Flag? then Some(items[1].collapsed)
        else
          var f := FlagOf(items, x);
          if f.Some? then f else FlagOf(c[1..], x)
      case _ => FlagOf(c[1..], x)
  }

  lemma SkipHeadFlag(items: seq<Entry>, x: int)
    requires 2 <= |items| && !items[0].Sub? && !items[1].Sub?
    ensures FlagOf(items, x) == FlagOf(items[2..], x)
  {
    assert items[1..][1..] == items[2..];
  }

  /** Collapsing leaves the listed IDs alone. */
  lemma {:induction false} CollapsedIds(c: seq<Entry>, mapId: int, v: bool)
    requires AllShaped(c)
    ensures ListIds(Collapsed(c, mapId, v)) == ListIds(c)
    decreases c
  {
    if |c| > 0 {
      var r := Collapsed(c, mapId, v);
      assert AllShaped(c[1..]);
      assert r[1..] == Collapsed(c[1..], mapId, v);
      CollapsedIds(c[1..], mapId, v);
      match c[0]
      case Sub(items) =>
        ItemsShaped(items);
        if items[0] == Id(mapId) {
          var items' := items[1 := Flag(v)];
          SubListIds(items, mapId);
          SubListIds(items', mapId);
          assert items'[2..] == items[2..];
        } else {
          CollapsedIds(items, mapId, v);
        }
      case _ =>
    }
  }

  /** SetCollapsed keeps the format: a new flag replaces a flag, and every
      sub-list looked into keeps its head. */
  lemma {:induction false} CollapsedShaped(c: seq<Entry>, mapId: int, v: bool)
    requires AllShaped(c)
    ensures AllShaped(Collapsed(c, mapId, v))
    decreases c
  {
    var r := Collapsed(c, mapId, v);
    forall k | 0 <= k < |r|
      ensures Shaped(r[k])
    {
      match c[k]
      case Sub(items) =>
        ItemsShaped(items);
        if items[0] != Id(mapId) {
          CollapsedShaped(items, mapId, v);
          var inner := Collapsed(items, mapId, v);
          assert inner[0] == items[0] && inner[1] == items[1];
          assert r[k] == Sub(inner);
        }
      case _ =>
    }
  }

  /** After SetCollapsed the map that has children carries the new flag, and every
      other map keeps its own. */
  lemma {:induction false} CollapsedFlags(c: seq<Entry>, mapId: int, v: bool, x: int)
    requires AllShaped(c)
    ensures FlagOf(Collapsed(c, mapId, v), x) == if x == mapId && FlagOf(c, x).Some? then Some(v) else FlagOf(c, x)
    decreases c
  {
    if |c| > 0 {
      var r := Collapsed(c, mapId, v);
      assert AllShaped(c[1..]);
      assert r[1..] == Collapsed(c[1..], mapId, v);
      CollapsedFlags(c[1..], mapId, v, x);
      match c[0]
      case Sub(items) =>
        ItemsShaped(items);
        if items[0] == Id(mapId) {
          var items' := items[1 := Flag(v)];
          SkipHeadFlag(items, x);
          SkipHeadFlag(items', x);
          assert items'[2..] == items[2..];
        } else {
          CollapsedFlags(items, mapId, v, x);
          var sub := Collapsed(items, mapId, v);
          assert sub[0] == items[0] && sub[1] == items[1];
        }
      case _ =>
    }
  }

  // ---- The tree built from the list ----

  /** A node of the map tree: a map without children, or a map with its collapsed
      state and its children. */
  datatype Node = Leaf(mapId: int) | Branch(mapId: int, collapsed: bool, children: seq<Node>)

  /** The nodes PopulateList builds for the entries from the current position on. */
  function Trees(rest: seq<Entry>): (r: seq<Node>)
    requires forall k :: 0 <= k < |rest| ==> WF(rest[k])
    ensures |r| == |rest|
    decreases rest, 0
  {
    if |rest| == 0 then [] else [TreeOf(rest[0])] + Trees(rest[1..])
  }

  /** The node of one entry: a map ID becomes a leaf, a sub-list a node with the
      sub-list's flag and the nodes of its children. */
  function TreeOf(e: Entry): Node
    requires WF(e)
    decreases e
  {
    match e
    case Id(n) => Leaf(n)
    case Sub(items) => Branch(items[0].id, items[1].collapsed, Forest(items, false))
  }

  /** The nodes PopulateList builds for a list before it adds unlisted maps. */
  function Forest(c: seq<Entry>, first: bool): seq<Node>
    requires ScannedWF(c, first)
    decreases c, 1
  {
    if |c| <= Start(first) then [] else Trees(c[Start(first)..])
  }

  /** The map IDs of a tree, with multiplicity. */
  function NodeIds(n: Node): multiset<int>
  {
    match n
    case Leaf(i) => multiset{i}
    case Branch(i, _, children) => multiset{i} + ForestIds(children)
  }

  function ForestIds(ns: seq<Node>): multiset<int>
  {
    if |ns| == 0 then multiset{} else NodeIds(ns[0]) + ForestIds(ns[1..])
  }

  lemma {:induction false} ForestIdsConcat(a: seq<Node>, b: seq<Node>)
    ensures ForestIds(a + b) == ForestIds(a) + ForestIds(b)
    decreases |a|
  {
    if |a| > 0 {
      assert (a + b)[0] == a[0] && (a + b)[1..] == a[1..] + b;
      ForestIdsConcat(a[1..], b);
    } else {
      assert a + b == b;
    }
  }

  /** The tree holds exactly the IDs of the entries it was built from. */
  lemma {:induction false} TreesIds(rest: seq<Entry>)
    requires forall k :: 0 <= k < |rest| ==> WF(rest[k])
    ensures ForestIds(Trees(rest)) == ListIds(rest)
    decreases rest, 0
  {
    if |rest| > 0 {
      var r := Trees(rest);
      assert r[1..] == Trees(rest[1..]);
      TreesIds(rest[1..]);
      if rest[0].Sub? {
        SubTreeIds(rest[0].items);
      }
    }
  }

  lemma {:induction false} SubTreeIds(items: seq<Entry>)
    requires WF(Sub(items))
    ensures ListIds(items) == multiset{items[0].id} + ForestIds(Forest(items, false))
    decreases items, 1
  {
    SubListIds(items, items[0].id);
    if |items| > 2 {
      TreesIds(items[2..]);
    } else {
      assert items[2..] == [];
    }
  }

  /** The first node of a map in the order the tree lists them. */
  function Find(ns: seq<Node>, id: int): Option<Node>
  {
    if |ns| == 0 then None
    else
      var f := FindIn(ns[0], id);
      if f.Some? then f else Find(ns[1..], id)
  }

  function FindIn(n: Node, id: int): Option<Node>
  {
    if n.mapId == id then Some(n)
    else if n.Branch? then Find(n.children, id)
    else None
  }

  /** The doomed IDs are those of the map's node in the tree: what RemoveID takes
      out of the list is what DeleteMapRecursively takes out of the project. A map
      not in the list has no node and nothing is doomed. */
  lemma {:induction false} DoomedIsSubtree(rest: seq<Entry>, id: int)
    requires forall k :: 0 <= k < |rest| ==> WF(rest[k])
    requires ListIds(rest)[id] <= 1
    ensures Find(Trees(rest), id).None? <==> id !in ListIds(rest)
    ensures Find(Trees(rest), id).None? ==> Doomed(rest, id) == multiset{}
    ensures Find(Trees(rest), id).Some? ==> Doomed(rest, id) == NodeIds(Find(Trees(rest), id).value)
    decreases rest, 2
  {
    if |rest| > 0 {
      var r := Trees(rest);
      var e := rest[0];
      assert r[0] == TreeOf(e) && r[1..] == Trees(rest[1..]);
      assert ListIds(rest) == EntryIds(e) + ListIds(rest[1..]);
      assert Doomed(rest, id) == DoomedEntry(e, id) + Doomed(rest[1..], id);
      EntryDoomedIsSubtree(e, id);
      if id in EntryIds(e) {
        ScanAbsent(rest[1..], id);
      } else {
        DoomedIsSubtree(rest[1..], id);
      }
    }
  }

  lemma {:induction false} EntryDoomedIsSubtree(e: Entry, id: int)
    requires WF(e) && EntryIds(e)[id] <= 1
    ensures FindIn(TreeOf(e), id).None? <==> id !in EntryIds(e)
    ensures FindIn(TreeOf(e), id).None? ==> DoomedEntry(e, id) == multiset{}
    ensures FindIn(TreeOf(e), id).Some? ==> DoomedEntry(e, id) == NodeIds(FindIn(TreeOf(e), id).value)
    decreases e, 1
  {
    if e.Sub? {
      if e.items[0].id == id {
        SubTreeIds(e.items);
      } else {
        SubDoomedIsSubtree(e.items, id);
      }
    }
  }

  lemma {:induction false} SubDoomedIsSubtree(items: seq<Entry>, id: int)
    requires WF(Sub(items)) && items[0].id != id
    requires ListIds(items)[id] <= 1
    ensures Find(Forest(items, false), id).None? <==> id !in ListIds(items)
    ensures Find(Forest(items, false), id).None? ==> Doomed(items, id) == multiset{}
    ensures Find(Forest(items, false), id).Some? ==> Doomed(items, id) == NodeIds(Find(Forest(items, false), id).value)
    decreases items, 0
  {
    SubListIds(items, id);
    assert Doomed(items, id) == Doomed(items[2..], id);
    assert id in ListIds(items) <==> id in ListIds(items[2..]);
    if |items| > 2 {
      assert Forest(items, false) == Trees(items[2..]);
      DoomedIsSubtree(items[2..], id);
    } else {
      assert items[2..] == [] && Forest(items, false) == [];
    }
  }

  // ---- The panel: map table, order list and tree view ----

  /** The entries a scan visits. */
  function Scanned(c: seq<Entry>, first: bool): seq<Entry>
  {
    if |c| <= Start(first) then [] else c[Start(first)..]
  }

  /** The distinct IDs of a multiset. */
  function IdSet(ids: multiset<int>): set<int>
  {
    set x | x in ids
  }

  /** What one iteration of PopulateList over a sub-list relies on. */
  lemma VisitFacts(sub: seq<Entry>)
    requires WF(Sub(sub))
    ensures IdSet(ListIds(sub)) == {sub[0].id} + IdSet(ListIds(Scanned(sub, false)))
  {
    SubListIds(sub, sub[0].id);
    IdSetPlus(multiset{sub[0].id}, ListIds(sub[2..]));
    SingleIdSet(sub[0].id);
    assert Scanned(sub, false) == sub[2..];
  }

  lemma NoIds()
    ensures IdSet(ListIds([])) == {}
  {
  }

  lemma SingleIdSet(x: int)
    ensures IdSet(multiset{x}) == {x}
  {
  }

  lemma IdSetPlus(a: multiset<int>, b: multiset<int>)
    ensures IdSet(a + b) == IdSet(a) + IdSet(b)
  {
  }

  lemma DiffTwice(m: set<int>, a: set<int>, b: set<int>)
    ensures m - a - b == m - (a + b)
  {
  }

  /** The IDs of the entries before position i grow by the entry at i. */
  lemma PrefixIds(list: seq<Entry>, lo: int, i: int)
    requires 0 <= lo <= i < |list|
    ensures ListIds(list[lo..i + 1]) == ListIds(list[lo..i]) + EntryIds(list[i])
  {
    assert list[lo..i + 1] == list[lo..i] + [list[i]];
    ListIdsConcat(list[lo..i], [list[i]]);
    assert ListIds([list[i]]) == EntryIds(list[i]);
  }

  /** One step of building the nodes of the entries from the current position on. */
  lemma TreesStep(nodes: seq<Node>, rest: seq<Entry>)
    requires 0 < |rest| && forall k :: 0 <= k < |rest| ==> WF(rest[k])
    ensures nodes + Trees(rest) == (nodes + [TreeOf(rest[0])]) + Trees(rest[1..])
  {
  }

  /** What one iteration of the loop of PopulateList relies on. */
  lemma ScanFacts(nodes: seq<Node>, list: seq<Entry>, lo: int, i: int)
    requires 0 <= lo <= i < |list| && forall k :: lo <= k < |list| ==> WF(list[k])
    ensures WF(list[i])
    ensures IdSet(ListIds(list[i..])) == IdSet(EntryIds(list[i])) + IdSet(ListIds(list[i + 1..]))
    ensures IdSet(ListIds(list[lo..i + 1])) == IdSet(ListIds(list[lo..i])) + IdSet(EntryIds(list[i]))
    ensures nodes + Trees(list[i..]) == (nodes + [TreeOf(list[i])]) + Trees(list[i + 1..])
  {
    var rest := list[i..];
    assert rest[1..] == list[i + 1..];
    assert ListIds(rest) == EntryIds(list[i]) + ListIds(list[i + 1..]);
    IdSetPlus(EntryIds(list[i]), ListIds(list[i + 1..]));
    TreesStep(nodes, rest);
    PrefixIds(list, lo, i);
    IdSetPlus(ListIds(list[lo..i]), EntryIds(list[i]));
  }

  lemma ScanPre(list: seq<Entry>, lo: int, i: int, maps: set<int>)
    requires 0 <= lo <= i < |list| && forall k :: lo <= k < |list| ==> WF(list[k])
    requires IdSet(ListIds(list[i..])) <= maps
    ensures WF(list[i]) && IdSet(EntryIds(list[i])) <= maps
  {
    ScanFacts([], list, lo, i);
  }

  /** The facts at the start and at the end of the loop of PopulateList. */
  lemma ScanEnds(list: seq<Entry>, first: bool, nodes: seq<Node>)
    requires ScannedWF(list, first)
    ensures |list| <= Start(first) ==> IdSet(ListIds(Scanned(list, first))) == {} && Forest(list, first) == []
    ensures Start(first) < |list| ==>
      && IdSet(ListIds(list[Start(first)..Start(first)])) == {}
      && Scanned(list, first) == list[Start(first)..]
      && [] + Trees(list[Start(first)..]) == Forest(list, first)
    ensures Start(first) <= |list| ==> list[Start(first)..|list|] == Scanned(list, first)
    ensures nodes + Trees(list[|list|..]) == nodes
  {
    NoIds();
    assert list[|list|..] == [];
    if Start(first) <= |list| {
      assert list[Start(first)..Start(first)] == [];
    }
  }

  /** The state of the loop of PopulateList after entries `lo` to `i - 1`: the
      nodes built so far, followed by those of the rest, make up the forest, and
      exactly the maps of the visited entries have been marked. */
  ghost predicate ScanInv(list: seq<Entry>, lo: int, i: int, nodes: seq<Node>, marked: set<int>, whole: seq<Node>,
                          added: set<int>, maps: set<int>)
  {
    && 0 <= lo <= i <= |list| && (forall k :: lo <= k < |list| ==> WF(list[k]))
    && nodes + Trees(list[i..]) == whole
    && added == marked + IdSet(ListIds(list[lo..i]))
    && IdSet(ListIds(list[i..])) <= maps
  }

  /** One iteration of the loop of PopulateList, from the facts before it to the
      facts after it. */
  lemma ScanStepFacts(list: seq<Entry>, lo: int, i: int, maps: set<int>, o: set<int>, a0: set<int>, a1: set<int>,
                      nodes: seq<Node>, t: Node, whole: seq<Node>)
    requires 0 <= lo <= i < |list| && forall k :: lo <= k < |list| ==> WF(list[k])
    requires nodes + Trees(list[i..]) == whole
    requires a0 == o + IdSet(ListIds(list[lo..i])) && a1 == a0 + IdSet(EntryIds(list[i]))
    requires IdSet(ListIds(list[i..])) <= maps
    requires t == TreeOf(list[i])
    ensures (nodes + [t]) + Trees(list[i + 1..]) == whole
    ensures a1 == o + IdSet(ListIds(list[lo..i + 1]))
    ensures IdSet(ListIds(list[i + 1..])) <= maps
  {
    ScanFacts(nodes, list, lo, i);
  }

  function KeySet(ks: seq<int>): set<int>
  {
    set k | k in ks
  }

  /** One iteration of the enumeration at the end of PopulateList. */
  lemma UnlistedStep(keys: seq<int>, j: int, o: set<int>, added: set<int>, listed: seq<int>)
    requires 0 <= j < |keys| && forall a, b :: 0 <= a < b < |keys| ==> keys[a] != keys[b]
    requires listed == Unlisted(keys[..j], o) && added == o + KeySet(keys[..j])
    ensures keys[j] in added <==> keys[j] in o
    ensures Unlisted(keys[..j + 1], o) == listed + (if keys[j] in o then [] else [keys[j]])
    ensures o + (KeySet(keys[..j + 1])) == added + {keys[j]}
  {
    var k := keys[j];
    assert keys[..j + 1][..j] == keys[..j] && keys[..j + 1] == keys[..j] + [k];
    assert k !in keys[..j];
  }

  /** `keys` lists every map of the table once, in the table's enumeration order. */
  ghost predicate Enumerates(keys: seq<int>, maps: set<int>)
  {
    (forall k :: k in keys <==> k in maps)
    && forall a, b :: 0 <= a < b < |keys| ==> keys[a] != keys[b]
  }

  /** The maps of `keys` not yet added, in order. */
  function Unlisted(keys: seq<int>, added: set<int>): seq<int>
  {
    if |keys| == 0 then []
    else
      var last := keys[|keys| - 1];
      Unlisted(keys[..|keys| - 1], added) + (if last in added then [] else [last])
  }

  /** A leaf for each map. */
  function Leaves(ids: seq<int>): (r: seq<Node>)
    ensures |r| == |ids|
  {
    if |ids| == 0 then [] else Leaves(ids[..|ids| - 1]) + [Leaf(ids[|ids| - 1])]
  }

  /** An ID entry for each map. */
  function IdEntries(ids: seq<int>): (r: seq<Entry>)
    ensures |r| == |ids|
  {
    if |ids| == 0 then [] else IdEntries(ids[..|ids| - 1]) + [Id(ids[|ids| - 1])]
  }

  lemma Snoc(ids: seq<int>, k: int)
    ensures Leaves(ids + [k]) == Leaves(ids) + [Leaf(k)]
    ensures IdEntries(ids + [k]) == IdEntries(ids) + [Id(k)]
  {
    assert (ids + [k])[..|ids|] == ids;
  }

  /** The IDs of the first i + 1 nodes grow by those of node i. */
  lemma PrefixNodeIds(ns: seq<Node>, i: int)
    requires 0 <= i < |ns|
    ensures IdSet(ForestIds(ns[..i + 1])) == IdSet(ForestIds(ns[..i])) + IdSet(NodeIds(ns[i]))
  {
    assert ns[..i + 1] == ns[..i] + [ns[i]];
    ForestIdsConcat(ns[..i], [ns[i]]);
    assert ForestIds([ns[i]]) == NodeIds(ns[i]);
    IdSetPlus(ForestIds(ns[..i]), NodeIds(ns[i]));
  }

  lemma LeavesIds(ids: seq<int>)
    ensures ForestIds(Leaves(ids)) == multiset(ids) && ListIds(IdEntries(ids)) == multiset(ids)
  {
    LeafForestIds(ids);
    IdEntryIds(ids);
  }

  lemma {:induction false} LeafForestIds(ids: seq<int>)
    ensures ForestIds(Leaves(ids)) == multiset(ids)
    decreases |ids|
  {
    if |ids| > 0 {
      var init, last := ids[..|ids| - 1], ids[|ids| - 1];
      LeafForestIds(init);
      ForestIdsConcat(Leaves(init), [Leaf(last)]);
      assert ForestIds([Leaf(last)]) == multiset{last};
      assert init + [last] == ids;
    }
  }

  lemma {:induction false} IdEntryIds(ids: seq<int>)
    ensures ListIds(IdEntries(ids)) == multiset(ids)
    decreases |ids|
  {
    if |ids| > 0 {
      var init, last := ids[..|ids| - 1], ids[|ids| - 1];
      IdEntryIds(init);
      ListIdsConcat(IdEntries(init), [Id(last)]);
      assert ListIds([Id(last)]) == multiset{last};
      assert init + [last] == ids;
    }
  }


  lemma {:induction false} UnlistedSet(keys: seq<int>, m: set<int>)
    ensures KeySet(Unlisted(keys, m)) == KeySet(keys) - m
    decreases |keys|
  {
    if |keys| > 0 {
      var init, last := keys[..|keys| - 1], keys[|keys| - 1];
      var tail := if last in m then [] else [last];
      UnlistedSet(init, m);
      assert keys == init + [last];
      assert KeySet(keys) == KeySet(init) + {last};
      assert KeySet(Unlisted(init, m) + tail) == KeySet(Unlisted(init, m)) + KeySet(tail);
    }
  }

  /** The distinct IDs the maps added at the end of the top-level PopulateList
      contribute: every map of the table not yet marked. */
  lemma ExtraIds(list: seq<Entry>, marked: set<int>, maps: set<int>, keys: seq<int>)
    requires Enumerates(keys, maps)
    ensures var extra := Unlisted(keys, marked + IdSet(ListIds(list)));
      && IdSet(ForestIds(Leaves(extra))) == maps - marked - IdSet(ListIds(list))
      && IdSet(ListIds(IdEntries(extra))) == maps - marked - IdSet(ListIds(list))
  {
    var extra := Unlisted(keys, marked + IdSet(ListIds(list)));
    var m := marked + IdSet(ListIds(list));
    UnlistedSet(keys, m);
    KeysOf(keys, maps);
    LeavesIds(extra);
    SeqIdSet(extra);
  }

  lemma KeysOf(keys: seq<int>, maps: set<int>)
    requires Enumerates(keys, maps)
    ensures KeySet(keys) == maps
  {
    forall k
      ensures k in KeySet(keys) <==> k in maps
    {
      assert k in keys <==> k in maps;
    }
  }

  lemma SeqIdSet(ids: seq<int>)
    ensures IdSet(multiset(ids)) == KeySet(ids)
  {
  }

  /** After the top-level PopulateList the tree shows every listed map and every
      map of the table that was not marked before; in particular every map when
      none was marked. */
  lemma PopulateCovers(list: seq<Entry>, marked: set<int>, maps: set<int>, keys: seq<int>)
    requires ScannedWF(list, true) && Enumerates(keys, maps)
    ensures var extra := Unlisted(keys, marked + IdSet(ListIds(list)));
      IdSet(ForestIds(Forest(list, true) + Leaves(extra))) == IdSet(ListIds(list)) + (maps - marked)
  {
    var extra := Unlisted(keys, marked + IdSet(ListIds(list)));
    ExtraIds(list, marked, maps, keys);
    if |list| > 0 {
      assert list[0..] == list;
      TreesIds(list);
    }
    ForestIdsConcat(Forest(list, true), Leaves(extra));
    IdSetPlus(ListIds(list), ForestIds(Leaves(extra)));
  }

  /** ... and the order list names the same maps. */
  lemma PopulateOrderCovers(list: seq<Entry>, marked: set<int>, maps: set<int>, keys: seq<int>)
    requires Enumerates(keys, maps)
    ensures var extra := Unlisted(keys, marked + IdSet(ListIds(list)));
      IdSet(ListIds(list + IdEntries(extra))) == IdSet(ListIds(list)) + (maps - marked)
  {
    var extra := Unlisted(keys, marked + IdSet(ListIds(list)));
    ExtraIds(list, marked, maps, keys);
    ListIdsConcat(list, IdEntries(extra));
    IdSetPlus(ListIds(list), ListIds(IdEntries(extra)));
  }

  /** Deleting a map whose node the tree shows, from an order list naming each map
      at most once: the order list then names exactly the maps it named before
      except the map and its descendants, which DeleteMapRecursively drops from the
      table. So an order list that named only maps of the table still does. */
  lemma DeleteKeepsOrderListed(order: seq<Entry>, maps: set<int>, id: int, node: Node)
    requires ScannedWF(order, true) && Unique(order)
    requires Find(Forest(order, true), id) == Some(node)
    requires IdSet(ListIds(order)) <= maps
    ensures IdSet(ListIds(RemovedId(order, id, true))) == IdSet(ListIds(order)) - IdSet(NodeIds(node))
    ensures IdSet(ListIds(RemovedId(order, id, true))) <= maps - IdSet(NodeIds(node))
  {
    assert order[0..] == order;
    assert ListIds(order)[id] <= 1;
    DoomedIsSubtree(order, id);
    RemoveIdExact(order, id);
    DoomedListed(order, id);
    SingleMinus(ListIds(order), Doomed(order, id));
  }

  /** Taking a sub-multiset out of a multiset without repeats takes its elements
      out of the set of members. */
  lemma SingleMinus(l: multiset<int>, d: multiset<int>)
    requires d <= l && forall x :: l[x] <= 1
    ensures IdSet(l - d) == IdSet(l) - IdSet(d)
  {
    forall x
      ensures x in l - d <==> x in l && x !in d
    {
      assert l[x] <= 1;
    }
  }

  class MapPanel {
    /** The IDs of the project's maps. */
    var maps: set<int>
    /** The maps whose added mark is set. */
    var added: set<int>
    /** The project's map order list. */
    var order: seq<Entry>
    /** The top-level nodes of the tree view. */
    var view: seq<Node>

    constructor(maps: set<int>, order: seq<Entry>)
      ensures this.maps == maps && this.order == order && added == {} && view == []
    {
      this.maps := maps;
      this.order := order;
      added := {};
      view := [];
    }

    /** PopulateList: builds the nodes of a list, marking every map it meets as
        added; the top-level call then appends a leaf for every map not yet added,
        marks it and lists it at the end of the order, and shows the nodes. */
    method PopulateList(list: seq<Entry>, first: bool, keys: seq<int>) returns (nodes: seq<Node>)
      requires ScannedWF(list, first)
      requires IdSet(ListIds(Scanned(list, first))) <= maps
      requires first ==> Enumerates(keys, maps)
      modifies this`added, this`order, this`view
      ensures !first ==> added == old(added) + IdSet(ListIds(Scanned(list, false)))
      ensures !first ==> nodes == Forest(list, false) && order == old(order) && view == old(view)
      ensures first ==> added == old(added) + IdSet(ListIds(list)) + maps
      ensures first ==> nodes == Forest(list, true) + Leaves(Unlisted(keys, old(added) + IdSet(ListIds(list))))
      ensures first ==> order == old(order) + IdEntries(Unlisted(keys, old(added) + IdSet(ListIds(list))))
      ensures first ==> view == nodes
      decreases list
    {
      nodes := ScanList(list, first);
      if first {
        assert Scanned(list, true) == list;
        var extra := AddUnlisted(keys);
        KeysOf(keys, maps);
        nodes := nodes + extra;
        view := nodes;
      }
    }

    /** The enumeration of the map table at the end of PopulateList: each map not
        yet added gets a leaf, its mark and an entry at the end of the order. */
    method AddUnlisted(keys: seq<int>) returns (extra: seq<Node>)
      requires forall a, b :: 0 <= a < b < |keys| ==> keys[a] != keys[b]
      modifies this`added, this`order
      ensures added == old(added) + KeySet(keys)
      ensures extra == Leaves(Unlisted(keys, old(added)))
      ensures order == old(order) + IdEntries(Unlisted(keys, old(added)))
    {
      extra := [];
      ghost var listed: seq<int> := [];
      ghost var added0, order0 := added, order;
      var j := 0;
      while j < |keys|
        invariant 0 <= j <= |keys|
        invariant listed == Unlisted(keys[..j], added0)
        invariant added == added0 + KeySet(keys[..j])
        invariant extra == Leaves(listed)
        invariant order == order0 + IdEntries(listed)
      {
        var k := keys[j];
        UnlistedStep(keys, j, added0, added, listed);
        ghost var next, nextAdded := Unlisted(keys[..j + 1], added0), added0 + KeySet(keys[..j + 1]);
        if k in added {
          assert added == nextAdded;
        } else {
          Snoc(listed, k);
          extra := extra + [Leaf(k)];
          added := added + {k};
          order := order + [Id(k)];
          listed := listed + [k];
        }
        assert listed == next && added == nextAdded;
        j := j + 1;
      }
      assert keys[..j] == keys;
    }

    /** The loop of PopulateList over the entries it visits. */
    method ScanList(list: seq<Entry>, first: bool) returns (nodes: seq<Node>)
      requires ScannedWF(list, first)
      requires IdSet(ListIds(Scanned(list, first))) <= maps
      modifies this`added
      ensures added == old(added) + IdSet(ListIds(Scanned(list, first)))
      ensures nodes == Forest(list, first)
      decreases list, 1
    {
      nodes := [];
      var i := Start(first);
      ScanEnds(list, first, []);
      if |list| <= i {
        return;
      }
      var lo := i;
      ghost var marked, whole := added, Forest(list, first);
      assert ScanInv(list, lo, i, nodes, marked, whole, added, maps);
      while i < |list|
        invariant ScanInv(list, lo, i, nodes, marked, whole, added, maps)
        decreases |list| - i
      {
        nodes := ScanNext(list, lo, i, nodes, marked, whole);
        i := i + 1;
      }
      ScanEnds(list, first, nodes);
    }

    /** One iteration of the loop of PopulateList: the node of entry `i` joins
        the nodes of the entries before it. */
    method ScanNext(list: seq<Entry>, lo: int, i: int, nodes0: seq<Node>, ghost marked: set<int>,
                    ghost whole: seq<Node>) returns (nodes: seq<Node>)
      requires i < |list| && ScanInv(list, lo, i, nodes0, marked, whole, added, maps)
      modifies this`added
      ensures ScanInv(list, lo, i + 1, nodes, marked, whole, added, maps)
      decreases list, 0
    {
      var e := list[i];
      ScanPre(list, lo, i, maps);
      ghost var before := added;
      var t := VisitEntry(e);
      ScanStepFacts(list, lo, i, maps, marked, before, added, nodes0, t, whole);
      nodes := nodes0 + [t];
    }

    /** One iteration of PopulateList: the node of an entry, with its map and the
        maps below it marked. */
    method VisitEntry(e: Entry) returns (t: Node)
      requires WF(e) && IdSet(EntryIds(e)) <= maps
      modifies this`added
      ensures added == old(added) + IdSet(EntryIds(e))
      ensures t == TreeOf(e)
      decreases e, 0
    {
      if e.Id? {
        t := Leaf(e.id);
        SingleIdSet(e.id);
        added := added + {e.id};
      } else {
        var sub := e.items;
        var h := sub[0].id;
        VisitFacts(sub);
        added := added + {h};
        var children := ScanList(sub, false);
        t := Branch(h, sub[1].collapsed, children);
      }
    }

    /** DeleteMapRecursively: drops the node's map and the maps of all its
        descendants from the map table. */
    method DeleteMapRecursively(node: Node)
      modifies this`maps
      ensures maps == old(maps) - IdSet(NodeIds(node))
      decreases node
    {
      var children := if node.Branch? then node.children else [];
      assert NodeIds(node) == multiset{node.mapId} + ForestIds(children);
      IdSetPlus(multiset{node.mapId}, ForestIds(children));
      ghost var maps0 := maps;
      var i := 0;
      while i < |children|
        invariant 0 <= i <= |children|
        invariant maps == maps0 - IdSet(ForestIds(children[..i]))
      {
        PrefixNodeIds(children, i);
        DeleteMapRecursively(children[i]);
        DiffTwice(maps0, IdSet(ForestIds(children[..i])), IdSet(NodeIds(children[i])));
        i := i + 1;
      }
      assert children[..i] == children;
      maps := maps - {node.mapId};
    }
  }
}
