// The tileset-capacity change of the database's data list: the OK handler of the
// "Set tileset capacity" popup grows the global tileset list with nulls, or
// counts the defined tilesets a shrink would lose, asks, and cuts the list.

module TilesetCapacity {
  import opened Tiles

  /** A tileset of the global catalog; its bitmaps are not modelled. */
  datatype Tileset = Tileset(name: string)

  /** The number of defined (non-null) entries from index `lo` on. */
  function DefinedFrom(s: seq<Option<Tileset>>, lo: nat): (n: nat)
    ensures lo <= |s| ==> n <= |s| - lo
    ensures lo >= |s| ==> n == 0
    decreases |s| - lo
  {
    if lo >= |s| then 0 else (if s[lo].Some? then 1 else 0) + DefinedFrom(s, lo + 1)
  }

  /** The count is zero exactly when every entry from `lo` on is null. */
  lemma {:induction false} DefinedZero(s: seq<Option<Tileset>>, lo: nat)
    ensures DefinedFrom(s, lo) == 0 <==> forall k :: lo <= k < |s| ==> s[k].None?
    decreases |s| - lo
  {
    if lo < |s| {
      DefinedZero(s, lo + 1);
    }
  }

  /** After the entries past `v` are nulled, the entries kept by the cut are the
      original ones and those past the old capacity `c` are null. */
  lemma NulledCut(s0: seq<Option<Tileset>>, s1: seq<Option<Tileset>>, v: int, c: int)
    requires 0 <= v < c < |s0| == |s1|
    requires forall k :: 0 <= k < |s1| ==> s1[k] == if k <= v < |s1| then s0[k] else None
    ensures s1[..v + 1] == s0[..v + 1]
    ensures s1[c + 1..] == Nulls(|s0| - c - 1)
  {
  }

  /** With no defined entry past `v`, the entries past the old capacity `c`
      are already null. */
  lemma CleanCut(s0: seq<Option<Tileset>>, v: int, c: int)
    requires 0 <= v < c < |s0| && DefinedFrom(s0, v + 1) == 0
    ensures s0[c + 1..] == Nulls(|s0| - c - 1)
  {
    DefinedZero(s0, v + 1);
  }

  /** `n` null entries. */
  function Nulls(n: nat): (r: seq<Option<Tileset>>)
    ensures |r| == n && forall i :: 0 <= i < n ==> r[i].None?
  {
    seq(n, _ => None)
  }

  class TilesetList {
    /** The global tileset list; index 0 is not a tileset slot. */
    var tilesets: seq<Option<Tileset>>
    /** The project's tileset capacity. */
    var capacity: int

    constructor(tilesets: seq<Option<Tileset>>, capacity: int)
      ensures this.tilesets == tilesets && this.capacity == capacity
    {
      this.tilesets := tilesets;
      this.capacity := capacity;
    }

    /** Appends `extra` null entries, one at a time. */
    method AddNulls(extra: nat)
      modifies this`tilesets
      ensures tilesets == old(tilesets) + Nulls(extra)
    {
      ghost var s0 := tilesets;
      for i := 0 to extra
        invariant tilesets == s0 + Nulls(i)
      {
        assert Nulls(i + 1) == Nulls(i) + [None];
        tilesets := tilesets + [None];
      }
    }

    /** The backwards scan from the last entry down to, but not including, index
        `newValue`: the number of defined tilesets the shrink would drop. */
    method CountDefined(newValue: int) returns (count: int)
      requires newValue >= 0
      ensures count == DefinedFrom(tilesets, if newValue < |tilesets| then newValue + 1 else 0)
    {
      var s := tilesets;
      count := 0;
      var i := |s| - 1;
      while i >= 0 && i != newValue
        invariant -1 <= i < |s|
        invariant newValue < |s| ==> newValue <= i
        invariant count == DefinedFrom(s, i + 1)
        decreases i
      {
        if s[i].Some? {
          count := count + 1;
        }
        i := i - 1;
      }
    }

    /** The same backwards scan, setting every visited entry to null. */
    method NullAbove(newValue: int)
      requires newValue >= 0
      modifies this`tilesets
      ensures |tilesets| == |old(tilesets)|
      ensures forall k :: 0 <= k < |tilesets| ==>
        tilesets[k] == if k <= newValue < |tilesets| then old(tilesets)[k] else None
    {
      ghost var s0 := tilesets;
      var i := |tilesets| - 1;
      while i >= 0 && i != newValue
        invariant -1 <= i < |tilesets| == |s0|
        invariant newValue < |tilesets| ==> newValue <= i
        invariant forall k :: 0 <= k < |tilesets| ==> tilesets[k] == if k <= i then s0[k] else None
        decreases i
      {
        tilesets := tilesets[i := None];
        i := i - 1;
      }
    }

    /** List.RemoveRange: removes `count` entries from `index` on; the list
        throws unless both are non-negative and the range lies in the list. */
    method RemoveRange(index: int, count: int)
      requires 0 <= index && 0 <= count && index + count <= |tilesets|
      modifies this`tilesets
      ensures tilesets == old(tilesets)[..index] + old(tilesets)[index + count..]
    {
      tilesets := tilesets[..index] + tilesets[index + count..];
    }

    /** The OK button. `newValue` comes from a numeric box whose minimum is 1;
        `answer` is the button of the warning box (0 is "Yes"). A shrink needs the
        list to reach past the old capacity, or RemoveRange throws. */
    method ChangeCapacity(newValue: int, answer: int) returns (asked: bool)
      requires newValue >= 1
      requires newValue < capacity ==> capacity < |tilesets|
      modifies this
      ensures newValue == old(capacity) ==>
        !asked && tilesets == old(tilesets) && capacity == old(capacity)
      ensures newValue > old(capacity) ==>
        !asked && tilesets == old(tilesets) + Nulls(newValue - old(capacity)) && capacity == newValue
      ensures newValue < old(capacity) ==> (asked <==> DefinedFrom(old(tilesets), newValue + 1) > 0)
      ensures newValue < old(capacity) && (!asked || answer == 0) ==>
        && tilesets == old(tilesets)[..newValue + 1] + Nulls(|old(tilesets)| - old(capacity) - 1)
        && capacity == newValue
      ensures newValue < old(capacity) && asked && answer != 0 ==>
        tilesets == old(tilesets) && capacity == old(capacity)
      ensures |old(tilesets)| == old(capacity) + 1 ==> |tilesets| == capacity + 1
    {
      asked := false;
      if newValue == capacity {
        return;
      } else if newValue > capacity {
        AddNulls(newValue - capacity);
        capacity := newValue;
      } else {
        asked := Shrink(newValue, answer);
      }
    }

    /** The shrinking branch of the OK button: count the defined tilesets past
        the new capacity; with none, or when the user says "Yes", null them and
        cut the entries between the new and the old capacity. */
    method Shrink(newValue: int, answer: int) returns (asked: bool)
      requires 1 <= newValue < capacity < |tilesets|
      modifies this
      ensures asked <==> DefinedFrom(old(tilesets), newValue + 1) > 0
      ensures !asked || answer == 0 ==>
        && tilesets == old(tilesets)[..newValue + 1] + Nulls(|old(tilesets)| - old(capacity) - 1)
        && capacity == newValue
      ensures asked && answer != 0 ==> tilesets == old(tilesets) && capacity == old(capacity)
    {
      asked := false;
      ghost var s0 := tilesets;
      var defined := CountDefined(newValue);
      if defined > 0 {
        asked := true;
        if answer == 0 {
          NullAbove(newValue);
          NulledCut(s0, tilesets, newValue, capacity);
          Cut(newValue);
        }
      } else {
        CleanCut(s0, newValue, capacity);
        Cut(newValue);
      }
    }

    /** The end of the shrink: the entries between the new and the old capacity
        are removed and the capacity is set. */
    method Cut(newValue: int)
      requires 1 <= newValue < capacity < |tilesets|
      modifies this
      ensures tilesets == old(tilesets)[..newValue + 1] + old(tilesets)[old(capacity) + 1..]
      ensures capacity == newValue
    {
      var lost := capacity - newValue;
      RemoveRange(newValue + 1, lost);
      capacity := newValue;
    }
  }
}
