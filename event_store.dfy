/**
 * The `events` state of src/App.jsx and the new states that `addEvent`,
 * `editEvent`, `deleteEvent` and `onDragEnd` compute from it.
 */
module EventStore {
  import opened Wrappers
  import opened EventModel

  /**
   * The day-key-to-events object. A JavaScript object lists its (non-numeric)
   * keys in the order they were first added, and the CSV export visits them in
   * that order, so the store keeps that order beside the map.
   */
  datatype Store = Store(order: seq<DayKey>, days: map<DayKey, seq<Event>>)

  /** The key order lists each key of the map exactly once. */
  ghost predicate StoreValid(s: Store) {
    && (forall i, j :: 0 <= i < j < |s.order| ==> s.order[i] != s.order[j])
    && (forall k :: k in s.days <==> k in s.order)
  }

  /** `{}` */
  const EmptyStore := Store([], map[])

  function Get(days: map<DayKey, seq<Event>>, day: DayKey): seq<Event> {
    if day in days then days[day] else []
  }

  /** `events[day] || []` */
  function Lookup(s: Store, day: DayKey): seq<Event> {
    Get(s.days, day)
  }

  /**
   * `{ ...events, [day]: list }`, and equally `updated[day] = list` on such a
   * copy: an existing key keeps its place, a new key goes last.
   */
  function Assign(s: Store, day: DayKey, list: seq<Event>): (r: Store)
    requires StoreValid(s)
    ensures StoreValid(r)
    ensures Lookup(r, day) == list
    ensures forall k :: k != day ==> Lookup(r, k) == Lookup(s, k)
    ensures day in s.days ==> r.order == s.order
    ensures day !in s.days ==> r.order == s.order + [day]
  {
    if day in s.days then Store(s.order, s.days[day := list])
    else Store(s.order + [day], s.days[day := list])
  }

  /** The events of the given days, day after day, each day's list in order. */
  function Gather(keys: seq<DayKey>, days: map<DayKey, seq<Event>>): seq<Event> {
    if keys == [] then [] else Gather(keys[..|keys| - 1], days) + Get(days, keys[|keys| - 1])
  }

  /** Every event of the store, in key order and then list order. */
  function AllEvents(s: Store): seq<Event> {
    Gather(s.order, s.days)
  }

  function TotalEvents(s: Store): nat {
    |AllEvents(s)|
  }

  /** No event object is held twice anywhere in the store. */
  ghost predicate Distinct(s: Store) {
    forall e | e in multiset(AllEvents(s)) :: multiset(AllEvents(s))[e] <= 1
  }

  /** Every gathered event is held under some key of the map. */
  lemma {:induction false} GatherFrom(keys: seq<DayKey>, days: map<DayKey, seq<Event>>, x: Event) returns (k: DayKey)
    requires x in Gather(keys, days)
    ensures k in days && x in days[k]
    decreases |keys|
  {
    var last := keys[|keys| - 1];
    if x in Get(days, last) {
      k := last;
    } else {
      k := GatherFrom(keys[..|keys| - 1], days, x);
    }
  }

  lemma {:induction false} GatherAppend(a: seq<DayKey>, b: seq<DayKey>, days: map<DayKey, seq<Event>>)
    ensures Gather(a + b, days) == Gather(a, days) + Gather(b, days)
    decreases |b|
  {
    if b == [] {
      assert a + b == a;
    } else {
      var c := a + b;
      assert c[..|c| - 1] == a + b[..|b| - 1];
      GatherAppend(a, b[..|b| - 1], days);
    }
  }

  lemma {:induction false} GatherIgnores(keys: seq<DayKey>, days: map<DayKey, seq<Event>>, day: DayKey, list: seq<Event>)
    requires day !in keys
    ensures Gather(keys, days[day := list]) == Gather(keys, days)
    decreases |keys|
  {
    if keys != [] {
      GatherIgnores(keys[..|keys| - 1], days, day, list);
    }
  }

  lemma GatherSplitAt(keys: seq<DayKey>, days: map<DayKey, seq<Event>>, i: nat)
    requires i < |keys|
    ensures Gather(keys, days) == Gather(keys[..i], days) + Get(days, keys[i]) + Gather(keys[i + 1..], days)
  {
    assert keys == (keys[..i] + [keys[i]]) + keys[i + 1..];
    assert [keys[i]][..0] == [];
    assert Gather([keys[i]], days) == Gather([], days) + Get(days, keys[i]);
    GatherAppend(keys[..i] + [keys[i]], keys[i + 1..], days);
    GatherAppend(keys[..i], [keys[i]], days);
  }

  /** In a valid store a key occurs neither before nor after its own position. */
  lemma KeyOnce(s: Store, i: nat)
    requires StoreValid(s) && i < |s.order|
    ensures s.order[i] !in s.order[..i] && s.order[i] !in s.order[i + 1..]
  {
    var before, after := s.order[..i], s.order[i + 1..];
    forall j | 0 <= j < |before| ensures before[j] != s.order[i] {
      assert before[j] == s.order[j];
    }
    forall j | 0 <= j < |after| ensures after[j] != s.order[i] {
      assert after[j] == s.order[i + 1 + j];
    }
  }

  /** Replacing one day's list changes only that day's stretch of the store's events. */
  lemma AssignSplit(s: Store, day: DayKey, list: seq<Event>) returns (pre: seq<Event>, post: seq<Event>)
    requires StoreValid(s)
    ensures AllEvents(s) == pre + Lookup(s, day) + post
    ensures AllEvents(Assign(s, day, list)) == pre + list + post
  {
    if day in s.days {
      var i :| 0 <= i < |s.order| && s.order[i] == day;
      pre, post := AssignSplitAt(s, i, list);
    } else {
      GatherIgnores(s.order, s.days, day, list);
      var o := s.order + [day];
      assert o[..|o| - 1] == s.order;
      pre, post := AllEvents(s), [];
    }
  }

  lemma AssignSplitAt(s: Store, i: nat, list: seq<Event>) returns (pre: seq<Event>, post: seq<Event>)
    requires StoreValid(s) && i < |s.order|
    ensures AllEvents(s) == pre + s.days[s.order[i]] + post
    ensures Gather(s.order, s.days[s.order[i] := list]) == pre + list + post
  {
    var day := s.order[i];
    KeyOnce(s, i);
    GatherSplitAt(s.order, s.days, i);
    GatherSplitAt(s.order, s.days[day := list], i);
    GatherIgnores(s.order[..i], s.days, day, list);
    GatherIgnores(s.order[i + 1..], s.days, day, list);
    pre, post := Gather(s.order[..i], s.days), Gather(s.order[i + 1..], s.days);
  }

  // ---- addEvent --------------------------------------------------------------

  /** The store after `addEvent` accepts `added`: appended to its day, every other day as it was. */
  function Added(s: Store, day: DayKey, added: Event): (r: Store)
    requires StoreValid(s)
    ensures StoreValid(r)
    ensures Lookup(r, day) == Lookup(s, day) + [added]
    ensures forall k :: k != day ==> Lookup(r, k) == Lookup(s, k)
  {
    Assign(s, day, Lookup(s, day) + [added])
  }

  /** Adding puts exactly one more event into the store. */
  lemma AddedEvents(s: Store, day: DayKey, added: Event)
    requires StoreValid(s)
    ensures multiset(AllEvents(Added(s, day, added))) == multiset(AllEvents(s)) + multiset{added}
    ensures TotalEvents(Added(s, day, added)) == TotalEvents(s) + 1
  {
    var pre, post := AssignSplit(s, day, Lookup(s, day) + [added]);
  }

  // ---- editEvent ---------------------------------------------------------------

  /** `findIndex(event => event === target)`, -1 when no element is the target. */
  function IndexOf(list: seq<Event>, target: Option<Event>): (i: int)
    ensures -1 <= i < |list|
    ensures i == -1 <==> target.None? || target.value !in list
    ensures 0 <= i ==> Some(list[i]) == target && list[i] !in list[..i]
  {
    if |list| == 0 then -1
    else if Some(list[0]) == target then 0
    else
      var j := IndexOf(list[1..], target);
      assert list == [list[0]] + list[1..];
      if j == -1 then -1
      else
        assert list[..j + 1] == [list[0]] + list[1..][..j];
        j + 1
  }

  /**
   * The store after `editEvent` with `edited` as the form copy: the first
   * occurrence of the target is replaced in place; without one nothing changes.
   * There is no overlap test.
   */
  function Edited(s: Store, day: DayKey, target: Option<Event>, edited: Event): (r: Store)
    requires StoreValid(s)
    ensures StoreValid(r)
    ensures IndexOf(Lookup(s, day), target) == -1 ==> r == s
    ensures var list := Lookup(s, day); var i := IndexOf(list, target);
      i >= 0 ==>
        && r.order == s.order
        && |Lookup(r, day)| == |list|
        && Lookup(r, day)[i] == edited
        && (forall j :: 0 <= j < |list| && j != i ==> Lookup(r, day)[j] == list[j])
        && (forall k :: k != day ==> Lookup(r, k) == Lookup(s, k))
  {
    var list := Lookup(s, day);
    var i := IndexOf(list, target);
    if i == -1 then s
    else
      Assign(s, day, list[..i] + [edited] + list[i + 1..])
  }

  /** Editing trades the replaced event for the edited copy and keeps the number of events. */
  lemma EditedEvents(s: Store, day: DayKey, target: Option<Event>, edited: Event)
    requires StoreValid(s) && IndexOf(Lookup(s, day), target) >= 0
    ensures var replaced := Lookup(s, day)[IndexOf(Lookup(s, day), target)];
      multiset(AllEvents(Edited(s, day, target, edited))) + multiset{replaced} ==
      multiset(AllEvents(s)) + multiset{edited}
    ensures TotalEvents(Edited(s, day, target, edited)) == TotalEvents(s)
  {
    var list := Lookup(s, day);
    var i := IndexOf(list, target);
    var before, after := list[..i], list[i + 1..];
    var updated := before + [edited] + after;
    assert Edited(s, day, target, edited) == Assign(s, day, updated);
    var pre, post := AssignSplit(s, day, updated);
    assert list == before + [list[i]] + after;
    SwapOne(pre, before, list[i], edited, after, post);
  }

  /** Swapping one element of a sequence for another trades their counts. */
  lemma SwapOne(pre: seq<Event>, a: seq<Event>, x: Event, y: Event, b: seq<Event>, post: seq<Event>)
    ensures multiset(pre + (a + [y] + b) + post) + multiset{x} == multiset(pre + (a + [x] + b) + post) + multiset{y}
  {
    var rest := multiset(pre) + multiset(a) + multiset(b) + multiset(post);
    assert multiset(pre + (a + [y] + b) + post) == rest + multiset{y};
    assert multiset(pre + (a + [x] + b) + post) == rest + multiset{x};
  }

  // ---- deleteEvent ---------------------------------------------------------------

  /** `list.filter(event => event !== target)` */
  function Without(list: seq<Event>, target: Option<Event>): (r: seq<Event>)
    ensures forall x | x in r :: x in list && Some(x) != target
    ensures forall x | x in list && Some(x) != target :: x in r
    ensures target.None? || target.value !in list ==> r == list
  {
    if list == [] then []
    else
      assert list == [list[0]] + list[1..];
      (if Some(list[0]) == target then [] else [list[0]]) + Without(list[1..], target)
  }

  /** Filtering drops every copy of the target and keeps every copy of everything else. */
  lemma {:induction false} WithoutCounts(list: seq<Event>, target: Event)
    ensures multiset(Without(list, Some(target))) == multiset(list)[target := 0]
    ensures |Without(list, Some(target))| + multiset(list)[target] == |list|
    decreases |list|
  {
    if list != [] {
      var x, rest := list[0], list[1..];
      var kept := Without(rest, Some(target));
      WithoutCounts(rest, target);
      assert list == [x] + rest;
      assert multiset(list) == multiset{x} + multiset(rest);
      var head := if x == target then [] else [x];
      assert Without(list, Some(target)) == head + kept;
      assert multiset(head + kept) == multiset(head) + multiset(kept);
      forall y ensures multiset(head + kept)[y] == multiset(list)[target := 0][y] {
      }
    }
  }

  /** Filtering keeps the relative order: it works piece by piece. */
  lemma {:induction false} WithoutConcat(a: seq<Event>, b: seq<Event>, target: Option<Event>)
    ensures Without(a + b, target) == Without(a, target) + Without(b, target)
    decreases |a|
  {
    if a == [] {
      assert a + b == b;
    } else {
      assert (a + b)[1..] == a[1..] + b;
      WithoutConcat(a[1..], b, target);
    }
  }

  /**
   * The store after `deleteEvent`: the day's list loses every occurrence of the
   * target, and the day key is written even when it was absent.
   */
  function Deleted(s: Store, day: DayKey, target: Option<Event>): (r: Store)
    requires StoreValid(s)
    ensures StoreValid(r)
    ensures Lookup(r, day) == Without(Lookup(s, day), target)
    ensures forall k :: k != day ==> Lookup(r, k) == Lookup(s, k)
    ensures r.order == if day in s.days then s.order else s.order + [day]
    ensures day in s.days && (target.None? || target.value !in s.days[day]) ==> r == s
  {
    Assign(s, day, Without(Lookup(s, day), target))
  }

  /** Deleting only ever takes events out of the store. */
  lemma DeletedEvents(s: Store, day: DayKey, target: Option<Event>)
    requires StoreValid(s)
    ensures multiset(AllEvents(Deleted(s, day, target))) <= multiset(AllEvents(s))
    ensures target.Some? ==>
      multiset(AllEvents(Deleted(s, day, target)))[target.value] + multiset(Lookup(s, day))[target.value] ==
      multiset(AllEvents(s))[target.value]
  {
    var pre, post := AssignSplit(s, day, Without(Lookup(s, day), target));
    if target.Some? {
      WithoutCounts(Lookup(s, day), target.value);
    }
  }

  // ---- onDragEnd -----------------------------------------------------------------

  /** `source` or `destination` of a drag: a droppable (a day key) and an index in it. */
  datatype DragLocation = DragLocation(day: DayKey, index: nat)

  /** A drag can only start at an event that is displayed. */
  predicate CanDragFrom(s: Store, source: DragLocation) {
    source.day in s.days && source.index < |s.days[source.day]|
  }

  /** `list.splice(i, 1)`, for an index inside the list. */
  function RemoveAt(list: seq<Event>, i: nat): (r: seq<Event>)
    requires i < |list|
    ensures |r| == |list| - 1
    ensures forall j :: 0 <= j < i ==> r[j] == list[j]
    ensures forall j :: i <= j < |r| ==> r[j] == list[j + 1]
    ensures multiset(r) + multiset{list[i]} == multiset(list)
  {
    assert list == list[..i] + [list[i]] + list[i + 1..];
    list[..i] + list[i + 1..]
  }

  /** `splice` reads a start past the end of the list as the end. */
  function Clamp(i: nat, n: nat): nat {
    if i < n then i else n
  }

  /** `list.splice(i, 0, x)` */
  function InsertAt(list: seq<Event>, i: nat, x: Event): (r: seq<Event>)
    ensures |r| == |list| + 1
    ensures r[Clamp(i, |list|)] == x
    ensures forall j :: 0 <= j < Clamp(i, |list|) ==> r[j] == list[j]
    ensures forall j :: Clamp(i, |list|) <= j < |list| ==> r[j + 1] == list[j]
    ensures multiset(r) == multiset(list) + multiset{x}
  {
    var p := Clamp(i, |list|);
    assert list == list[..p] + list[p..];
    list[..p] + [x] + list[p..]
  }

  /**
   * The store after `onDragEnd`: nothing happens without a destination or when
   * it is the source; otherwise the event leaves the source list and enters the
   * destination list, whose key is created first when absent. No validation.
   */
  function Moved(s: Store, source: DragLocation, destination: Option<DragLocation>): (r: Store)
    requires StoreValid(s) && CanDragFrom(s, source)
    ensures StoreValid(r)
    ensures destination.None? || destination.value == source ==> r == s
  {
    if destination.None? || destination.value == source then s
    else Relocated(s, source, destination.value)
  }

  /**
   * A drag that does move: the event leaves the source list and enters the
   * target list, whose key is created first when absent.
   */
  function Relocated(s: Store, source: DragLocation, target: DragLocation): (r: Store)
    requires StoreValid(s) && CanDragFrom(s, source)
    ensures StoreValid(r)
  {
    var from := s.days[source.day];
    var moving := from[source.index];
    var removed := Assign(s, source.day, RemoveAt(from, source.index));
    var initialised := Assign(removed, target.day, Lookup(removed, target.day));
    Assign(initialised, target.day, InsertAt(Lookup(initialised, target.day), target.index, moving))
  }

  /**
   * `onDragEnd` on the events object, step by step: return without a
   * destination or when it is the source; otherwise copy the object, `splice`
   * the event out of the source list, make sure the destination key holds a
   * list, and `splice` the event into it.
   */
  method DragEnd(events: Store, source: DragLocation, destination: Option<DragLocation>) returns (updated: Store)
    requires StoreValid(events) && CanDragFrom(events, source)
    ensures updated == Moved(events, source, destination)
  {
    updated := events;
    if destination.None? || destination.value == source {
      return;
    }
    var target := destination.value;
    var movedEvent := updated.days[source.day][source.index];
    updated := Assign(updated, source.day, RemoveAt(updated.days[source.day], source.index));
    updated := Assign(updated, target.day, Lookup(updated, target.day));
    updated := Assign(updated, target.day, InsertAt(Lookup(updated, target.day), target.index, movedEvent));
  }

  /**
   * A real move places the dragged event at the destination index (the end of
   * the list for a larger index) and leaves every other day alone.
   */
  lemma MovePlacesEvent(s: Store, source: DragLocation, target: DragLocation)
    requires StoreValid(s) && CanDragFrom(s, source) && target != source
    ensures var r := Moved(s, source, Some(target));
      var moving := s.days[source.day][source.index];
      var before := if target.day == source.day then RemoveAt(s.days[source.day], source.index)
                    else Lookup(s, target.day);
      && Lookup(r, target.day) == InsertAt(before, target.index, moving)
      && Lookup(r, target.day)[Clamp(target.index, |before|)] == moving
      && (forall k :: k != source.day && k != target.day ==> Lookup(r, k) == Lookup(s, k))
  {
  }

  /**
   * A move to another day takes the event out of the source list, which is one
   * shorter, and adds the destination key at the end when it was absent.
   */
  lemma MoveBetweenDays(s: Store, source: DragLocation, target: DragLocation)
    requires StoreValid(s) && CanDragFrom(s, source) && target.day != source.day
    ensures var r := Moved(s, source, Some(target));
      && Lookup(r, source.day) == RemoveAt(s.days[source.day], source.index)
      && |Lookup(r, source.day)| == |s.days[source.day]| - 1
      && r.order == (if target.day in s.days then s.order else s.order + [target.day])
      && (target.day !in s.days ==> Lookup(r, target.day) == [s.days[source.day][source.index]])
  {
  }

  /** A move inside one day only reorders that day's list. */
  lemma MoveWithinDay(s: Store, source: DragLocation, target: DragLocation)
    requires StoreValid(s) && CanDragFrom(s, source) && target.day == source.day
    ensures var r := Moved(s, source, Some(target));
      && r.order == s.order
      && |Lookup(r, source.day)| == |Lookup(s, source.day)|
      && multiset(Lookup(r, source.day)) == multiset(Lookup(s, source.day))
  {
  }

  /** A drag neither creates nor loses events: the store holds the same events, as many as before. */
  lemma MoveKeepsEvents(s: Store, source: DragLocation, destination: Option<DragLocation>)
    requires StoreValid(s) && CanDragFrom(s, source)
    ensures multiset(AllEvents(Moved(s, source, destination))) == multiset(AllEvents(s))
    ensures TotalEvents(Moved(s, source, destination)) == TotalEvents(s)
  {
    var r := Moved(s, source, destination);
    if destination.Some? && destination.value != source {
      assert r == Relocated(s, source, destination.value);
      RelocatedKeepsEvents(s, source, destination.value);
    }
    assert |multiset(AllEvents(r))| == |multiset(AllEvents(s))|;
  }

  /** The three steps of a real move keep the store's events. */
  lemma RelocatedKeepsEvents(s: Store, source: DragLocation, target: DragLocation)
    requires StoreValid(s) && CanDragFrom(s, source)
    ensures multiset(AllEvents(Relocated(s, source, target))) == multiset(AllEvents(s))
  {
    var from := s.days[source.day];
    var moving := from[source.index];
    var rest := RemoveAt(from, source.index);
    var removed := Assign(s, source.day, rest);
    var waiting := Lookup(removed, target.day);
    var initialised := Assign(removed, target.day, waiting);
    var inserted := InsertAt(Lookup(initialised, target.day), target.index, moving);
    var r := Assign(initialised, target.day, inserted);
    assert r == Relocated(s, source, target);
    AssignMultiset(s, source.day, rest);
    AssignMultiset(removed, target.day, waiting);
    AssignMultiset(initialised, target.day, inserted);
    assert Lookup(initialised, target.day) == waiting;
    MoveCounts(multiset(AllEvents(s)), multiset(AllEvents(removed)), multiset(AllEvents(initialised)),
      multiset(AllEvents(r)), multiset(from), multiset(rest), multiset(waiting), multiset(inserted), moving);
  }

  /** The bookkeeping of a move: out of the source list, through the unchanged key, into the destination list. */
  lemma MoveCounts(m0: multiset<Event>, m1: multiset<Event>, m2: multiset<Event>, m3: multiset<Event>,
                   from: multiset<Event>, rest: multiset<Event>, waiting: multiset<Event>, inserted: multiset<Event>,
                   moving: Event)
    requires m1 + from == m0 + rest && rest + multiset{moving} == from
    requires m2 + waiting == m1 + waiting
    requires m3 + waiting == m2 + inserted && inserted == waiting + multiset{moving}
    ensures m3 == m0
  {
    forall x ensures m3[x] == m0[x] {
      assert (m1 + from)[x] == (m0 + rest)[x];
      assert (rest + multiset{moving})[x] == from[x];
      assert (m2 + waiting)[x] == (m1 + waiting)[x];
      assert (m3 + waiting)[x] == (m2 + inserted)[x];
    }
  }

  /** `Assign` trades the key's old list for the new one in the store's events. */
  lemma AssignMultiset(s: Store, day: DayKey, list: seq<Event>)
    requires StoreValid(s)
    ensures multiset(AllEvents(Assign(s, day, list))) + multiset(Lookup(s, day)) == multiset(AllEvents(s)) + multiset(list)
  {
    var pre, post := AssignSplit(s, day, list);
    assert multiset(AllEvents(s)) == multiset(pre) + multiset(Lookup(s, day)) + multiset(post);
    assert multiset(AllEvents(Assign(s, day, list))) == multiset(pre) + multiset(list) + multiset(post);
  }
}
