/**
 * lib/geofenced_group.js: an ordered list of entries, each an id with optional
 * whiteout and blackout geofence lists. `Add` toggles an id in or out of the
 * list; a point is valid for an entry unless a blackout contains it, and, when
 * the entry has whiteouts, only if one of them contains it.
 */
module GeofencedGroups {
  import opened Wrappers
  import opened Utils
  import opened Geofences

  /** `new Entry(id, whiteoutGfs, blackoutGfs)`; `None` is a null list, which differs from `[]`. */
  datatype Entry<Id> = Entry(id: Id, whiteouts: Option<seq<Geofence>>, blackouts: Option<seq<Geofence>>)

  /** The geofences of an optional list (none for null). */
  function Fences(fences: Option<seq<Geofence>>): seq<Geofence> {
    if fences.Some? then fences.value else []
  }

  /** Every geofence of the entry has been built. */
  ghost predicate Ready<Id>(e: Entry<Id>)
    reads Fences(e.whiteouts), Fences(e.blackouts)
  {
    && (forall g :: g in Fences(e.whiteouts) ==> g.Sized())
    && (forall g :: g in Fences(e.blackouts) ==> g.Sized())
  }

  /** Some geofence of the list contains the point. */
  ghost predicate AnyContains(fences: seq<Geofence>, p: Point)
    reads fences
    requires forall g :: g in fences ==> g.Sized()
  {
    exists i :: 0 <= i < |fences| && fences[i].Contains(p)
  }

  /**
   * The precedence rule of `isValidEntry`: a blackout containing the point
   * makes it invalid; otherwise a non-null whiteout list admits the point only
   * if one of its geofences contains it; with null whiteouts it is valid.
   */
  ghost predicate ValidEntry<Id>(e: Entry<Id>, p: Point)
    reads Fences(e.whiteouts), Fences(e.blackouts)
    requires Ready(e)
  {
    if e.blackouts.Some? && AnyContains(e.blackouts.value, p) then false
    else if e.whiteouts.Some? then AnyContains(e.whiteouts.value, p)
    else true
  }

  /** A blackout hit invalidates the entry, whatever its whiteouts are. */
  lemma BlackoutWins<Id>(e: Entry<Id>, p: Point, i: int)
    requires Ready(e) && e.blackouts.Some? && 0 <= i < |e.blackouts.value|
    requires e.blackouts.value[i].Contains(p)
    ensures !ValidEntry(e, p)
  {
  }

  /** Without a blackout hit, a non-null whiteout list decides: valid iff one of them contains the point. */
  lemma WhiteoutsDecide<Id>(e: Entry<Id>, p: Point)
    requires Ready(e) && e.whiteouts.Some?
    requires e.blackouts.None? || !AnyContains(e.blackouts.value, p)
    ensures ValidEntry(e, p) <==> exists i :: 0 <= i < |e.whiteouts.value| && e.whiteouts.value[i].Contains(p)
  {
  }

  /** An empty (non-null) whiteout list admits no point. */
  lemma EmptyWhiteoutsNeverValid<Id>(e: Entry<Id>, p: Point)
    requires Ready(e) && e.whiteouts == Some([])
    ensures !ValidEntry(e, p)
  {
  }

  /** Without a blackout hit, null whiteouts admit every point. */
  lemma NullWhiteoutsValid<Id>(e: Entry<Id>, p: Point)
    requires Ready(e) && e.whiteouts.None?
    requires e.blackouts.None? || !AnyContains(e.blackouts.value, p)
    ensures ValidEntry(e, p)
  {
  }

  // ---------------------------------------------------------------------------
  // Toggling an id

  function Ids<Id>(entries: seq<Entry<Id>>): seq<Id> {
    seq(|entries|, i requires 0 <= i < |entries| => entries[i].id)
  }

  predicate Distinct<Id(==)>(ids: seq<Id>) {
    forall i, j :: 0 <= i < j < |ids| ==> ids[i] != ids[j]
  }

  /** The list after `add`: the first entry with e's id removed, or e appended when there is none. */
  function Toggled<Id(==)>(entries: seq<Entry<Id>>, e: Entry<Id>): (r: seq<Entry<Id>>)
    ensures |r| == |entries| + 1 || |r| == |entries| - 1
    ensures forall x :: x in r ==> x in entries || x == e
  {
    if entries == [] then [e]
    else if entries[0].id == e.id then entries[1..]
    else [entries[0]] + Toggled(entries[1..], e)
  }

  /** An id not in the list: `add` appends the new entry and keeps the others, in order. */
  lemma {:induction false} ToggleAbsentAppends<Id>(entries: seq<Entry<Id>>, e: Entry<Id>)
    requires forall k :: 0 <= k < |entries| ==> entries[k].id != e.id
    ensures Toggled(entries, e) == entries + [e]
  {
    if entries != [] {
      ToggleAbsentAppends(entries[1..], e);
      assert entries == [entries[0]] + entries[1..];
    }
  }

  /** An id first found at index i: `add` removes that entry and inserts nothing. */
  lemma {:induction false} TogglePresentRemoves<Id>(entries: seq<Entry<Id>>, e: Entry<Id>, i: int)
    requires 0 <= i < |entries| && entries[i].id == e.id
    requires forall k :: 0 <= k < i ==> entries[k].id != e.id
    ensures Toggled(entries, e) == entries[..i] + entries[i + 1..]
    decreases i
  {
    if i > 0 {
      TogglePresentRemoves(entries[1..], e, i - 1);
      assert entries[1..][..i - 1] == entries[1..i];
      assert entries[..i] == [entries[0]] + entries[1..i];
      assert entries[1..][i..] == entries[i + 1..];
    }
  }

  /** Toggling keeps the ids pairwise distinct. */
  lemma ToggledKeepsDistinct<Id>(entries: seq<Entry<Id>>, e: Entry<Id>)
    requires Distinct(Ids(entries))
    ensures Distinct(Ids(Toggled(entries, e)))
  {
    if i :| 0 <= i < |entries| && entries[i].id == e.id {
      var first := FirstWithId(entries, e.id, i);
      TogglePresentRemoves(entries, e, first);
      var rest := entries[..first] + entries[first + 1..];
      forall a, b | 0 <= a < b < |rest|
        ensures rest[a].id != rest[b].id
      {
        var a' := if a < first then a else a + 1;
        var b' := if b < first then b else b + 1;
        assert rest[a] == entries[a'] && rest[b] == entries[b'];
        assert Ids(entries)[a'] == entries[a'].id && Ids(entries)[b'] == entries[b'].id;
      }
    } else {
      ToggleAbsentAppends(entries, e);
      var grown := entries + [e];
      forall a, b | 0 <= a < b < |grown|
        ensures grown[a].id != grown[b].id
      {
        assert Ids(entries)[a] == entries[a].id;
        if b < |entries| {
          assert Ids(entries)[b] == entries[b].id;
        }
      }
    }
  }

  /** The first index holding the id, given some index that holds it. */
  lemma FirstWithId<Id>(entries: seq<Entry<Id>>, id: Id, i: int) returns (first: int)
    requires 0 <= i < |entries| && entries[i].id == id
    ensures 0 <= first <= i && entries[first].id == id
    ensures forall k :: 0 <= k < first ==> entries[k].id != id
  {
    first := 0;
    while entries[first].id != id
      invariant 0 <= first <= i
      invariant forall k :: 0 <= k < first ==> entries[k].id != id
      decreases i - first
    {
      first := first + 1;
    }
  }

  /** Adding the same id twice, starting without it, restores the list. */
  lemma ToggleTwiceRestores<Id>(entries: seq<Entry<Id>>, e: Entry<Id>, e': Entry<Id>)
    requires forall k :: 0 <= k < |entries| ==> entries[k].id != e.id
    requires e'.id == e.id
    ensures Toggled(Toggled(entries, e), e') == entries
  {
    ToggleAbsentAppends(entries, e);
    TogglePresentRemoves(entries + [e], e', |entries|);
    assert (entries + [e])[..|entries|] == entries;
  }

  /** The list after a sequence of `add`s, in order. */
  function ToggledAll<Id(==)>(entries: seq<Entry<Id>>, adds: seq<Entry<Id>>): seq<Entry<Id>>
    decreases |adds|
  {
    if adds == [] then entries else ToggledAll(Toggled(entries, adds[0]), adds[1..])
  }

  /** From an empty group, any sequence of `add`s leaves the ids pairwise distinct. */
  lemma {:induction false} AddsKeepIdsDistinct<Id>(entries: seq<Entry<Id>>, adds: seq<Entry<Id>>)
    requires Distinct(Ids(entries))
    ensures Distinct(Ids(ToggledAll(entries, adds)))
    decreases |adds|
  {
    if adds != [] {
      ToggledKeepsDistinct(entries, adds[0]);
      AddsKeepIdsDistinct(Toggled(entries, adds[0]), adds[1..]);
    }
  }

  // ---------------------------------------------------------------------------
  // The valid ids of a point

  /** The geofences of all entries. */
  ghost function AllFences<Id>(entries: seq<Entry<Id>>): set<Geofence> {
    (set i, k | 0 <= i < |entries| && 0 <= k < |Fences(entries[i].whiteouts)| :: Fences(entries[i].whiteouts)[k])
    + (set i, k | 0 <= i < |entries| && 0 <= k < |Fences(entries[i].blackouts)| :: Fences(entries[i].blackouts)[k])
  }

  /** Every geofence of every entry has been built. */
  ghost predicate AllReady<Id>(entries: seq<Entry<Id>>)
    reads AllFences(entries)
  {
    forall i :: 0 <= i < |entries| ==> Ready(entries[i])
  }

  /** The ids of those of the first `n` entries that are valid for the point, in entry order. */
  ghost function ValidIds<Id>(entries: seq<Entry<Id>>, n: int, p: Point): seq<Id>
    reads AllFences(entries)
    requires AllReady(entries) && 0 <= n <= |entries|
  {
    if n == 0 then []
    else ValidIds(entries, n - 1, p) + (if ValidEntry(entries[n - 1], p) then [entries[n - 1].id] else [])
  }

  /** An id is reported exactly when one of the first `n` entries has it and is valid for the point. */
  lemma {:induction false} ValidIdsExact<Id>(entries: seq<Entry<Id>>, n: int, p: Point, id: Id)
    requires AllReady(entries) && 0 <= n <= |entries|
    ensures id in ValidIds(entries, n, p) <==> exists i :: 0 <= i < n && entries[i].id == id && ValidEntry(entries[i], p)
  {
    if n > 0 {
      ValidIdsExact(entries, n - 1, p, id);
    }
  }

  /** When each of the first `n` entries is valid, all their ids are reported, in entry order. */
  lemma {:induction false} ValidIdsKeepOrder<Id>(entries: seq<Entry<Id>>, n: int, p: Point)
    requires AllReady(entries) && 0 <= n <= |entries|
    requires forall i :: 0 <= i < n ==> ValidEntry(entries[i], p)
    ensures ValidIds(entries, n, p) == Ids(entries[..n])
  {
    if n > 0 {
      ValidIdsKeepOrder(entries, n - 1, p);
      assert Ids(entries[..n]) == Ids(entries[..n - 1]) + [entries[n - 1].id];
    }
  }

  /** The early-exit search of `isValidEntry`: does some geofence of the list contain the point? */
  method SomeInside(fences: seq<Geofence>, point: Point) returns (hit: bool)
    requires forall g :: g in fences ==> g.Sized()
    ensures hit == AnyContains(fences, point)
  {
    var x := 0;
    while x < |fences|
      invariant 0 <= x <= |fences|
      invariant forall k :: 0 <= k < x ==> !fences[k].Contains(point)
    {
      hit := fences[x].Inside(point);
      if hit {
        return;
      }
      x := x + 1;
    }
    return false;
  }

  /** The group: its entries in insertion order. */
  class GeofencedGroup<Id(==)> {
    var entries: seq<Entry<Id>>

    /** No two entries have the same id, which `Add` preserves. */
    ghost predicate Valid()
      reads this
    {
      Distinct(Ids(entries))
    }

    constructor()
      ensures entries == [] && Valid()
    {
      entries := [];
    }

    /** `add(id, whiteoutGfs, blackoutGfs)`: removes the entry with that id, or appends a new one. */
    method Add(id: Id, whiteouts: Option<seq<Geofence>>, blackouts: Option<seq<Geofence>>)
      modifies this
      ensures entries == Toggled(old(entries), Entry(id, whiteouts, blackouts))
      ensures old(Valid()) ==> Valid()
    {
      ghost var e := Entry(id, whiteouts, blackouts);
      if Valid() {
        ToggledKeepsDistinct(entries, e);
      }
      var x := 0;
      while x < |entries|
        invariant 0 <= x <= |entries| && entries == old(entries)
        invariant forall k :: 0 <= k < x ==> entries[k].id != id
      {
        if entries[x].id == id {
          TogglePresentRemoves(entries, e, x);
          entries := entries[..x] + entries[x + 1..];
          return;
        }
        x := x + 1;
      }
      ToggleAbsentAppends(entries, e);
      entries := entries + [Entry(id, whiteouts, blackouts)];
    }

    /** `isValidEntry(point, entry)`: blackouts first, then whiteouts. */
    method IsValidEntry(point: Point, entry: Entry<Id>) returns (r: bool)
      requires Ready(entry)
      ensures r == ValidEntry(entry, point)
    {
      if entry.blackouts.Some? {
        var hit := SomeInside(entry.blackouts.value, point);
        if hit {
          return false;
        }
      }
      if entry.whiteouts.Some? {
        r := SomeInside(entry.whiteouts.value, point);
        return;
      }
      return true;
    }

    /** `getValid(point)`: the ids of the entries valid for the point, in entry order. */
    method GetValid(point: Point) returns (valid: seq<Id>)
      requires AllReady(entries)
      ensures valid == ValidIds(entries, |entries|, point)
    {
      valid := [];
      var x := 0;
      while x < |entries|
        invariant 0 <= x <= |entries|
        invariant valid == ValidIds(entries, x, point)
      {
        assert forall g :: g in AllFences(entries) ==> allocated(g);
        var ok := IsValidEntry(point, entries[x]);
        if ok {
          valid := valid + [entries[x].id];
        }
        x := x + 1;
      }
    }
  }
}
