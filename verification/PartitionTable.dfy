/**
  The partition table of a client: how one view event is turned into a table, when an
  event replaces the table the client already has, and what a whole stream of events
  leaves behind.
 */
module PartitionTables {
  import opened Wrappers

  datatype Uuid = Uuid(mostSignificant: int, leastSignificant: int)

  /** One member and the partitions it owns. */
  datatype Entry = Entry(owner: Uuid, partitions: seq<int>)

  /** Connections are equal exactly when their ids are, and no connection equals `undefined`. */
  type ConnectionId = nat

  datatype ViewEvent = ViewEvent(connection: ConnectionId, entries: seq<Entry>, version: int)

  datatype Table = Table(connection: Option<ConnectionId>, version: int, partitions: map<int, Uuid>)

  const EMPTY_TABLE := Table(None, -1, map[])

  // ---------------------------------------------------------------- conversion

  /** The table `m` after the partitions `ps` have been assigned to `owner`. */
  function Assign(m: map<int, Uuid>, owner: Uuid, ps: seq<int>): map<int, Uuid> {
    m + (map p | p in ps :: owner)
  }

  /** The map that a list of entries stands for. */
  function Convert(entries: seq<Entry>): map<int, Uuid> {
    if entries == [] then map[]
    else
      var last := entries[|entries| - 1];
      Assign(Convert(entries[..|entries| - 1]), last.owner, last.partitions)
  }

  ghost predicate Lists(entries: seq<Entry>, i: int, p: int) {
    0 <= i < |entries| && p in entries[i].partitions
  }

  /** Entry `i` is the last one that lists partition `p`. */
  ghost predicate LastToList(entries: seq<Entry>, i: int, p: int) {
    Lists(entries, i, p) && forall j :: i < j < |entries| ==> !Lists(entries, j, p)
  }

  /** The domain is the union of the lists, and the last entry to list a partition owns it. */
  lemma {:induction false} ConvertMeaning(entries: seq<Entry>)
    ensures forall p :: p in Convert(entries) <==> exists i :: Lists(entries, i, p)
    ensures forall i, p :: LastToList(entries, i, p) ==>
              p in Convert(entries) && Convert(entries)[p] == entries[i].owner
  {
    if entries == [] {
    } else {
      var n := |entries| - 1;
      var front := entries[..n];
      ConvertMeaning(front);
      forall p
        ensures p in Convert(entries) <==> exists i :: Lists(entries, i, p)
      {
        if i :| Lists(entries, i, p) {
          assert i == n || Lists(front, i, p);
        }
        if p in Convert(entries) {
          if p in entries[n].partitions {
            assert Lists(entries, n, p);
          } else {
            assert p in Convert(front);
            var i :| Lists(front, i, p);
            assert Lists(entries, i, p);
          }
        }
      }
      forall i, p | LastToList(entries, i, p)
        ensures p in Convert(entries) && Convert(entries)[p] == entries[i].owner
      {
        if i < n {
          assert !Lists(entries, n, p);
          assert LastToList(front, i, p) by {
            forall j | i < j < |front| ensures !Lists(front, j, p) { assert !Lists(entries, j, p); }
          }
        }
      }
    }
  }

  /** Every partition of the converted table is owned by some entry that lists it. */
  lemma {:induction false} OwnerListsPartition(entries: seq<Entry>, p: int) returns (i: int)
    requires p in Convert(entries)
    ensures Lists(entries, i, p) && Convert(entries)[p] == entries[i].owner
  {
    var n := |entries| - 1;
    if p in entries[n].partitions {
      i := n;
    } else {
      i := OwnerListsPartition(entries[..n], p);
    }
  }

  /** No partition is claimed by two entries with different owners. */
  ghost predicate Unconflicted(entries: seq<Entry>) {
    forall i, j, p :: Lists(entries, i, p) && Lists(entries, j, p) ==> entries[i].owner == entries[j].owner
  }

  ghost predicate Permuted(a: seq<Entry>, b: seq<Entry>) {
    multiset(a) == multiset(b)
  }

  ghost predicate OrderFree(entries: seq<Entry>) {
    forall other {:trigger Permuted(entries, other)} :: Permuted(entries, other) ==> Convert(other) == Convert(entries)
  }

  /** The lists are pairwise disjoint, as a server's table is meant to be. */
  ghost predicate Disjoint(entries: seq<Entry>) {
    forall i, j, p :: Lists(entries, i, p) && Lists(entries, j, p) ==> i == j
  }

  lemma PermutedListing(a: seq<Entry>, b: seq<Entry>, i: int, p: int) returns (j: int)
    requires Permuted(a, b) && Lists(a, i, p)
    ensures Lists(b, j, p) && b[j] == a[i]
  {
    assert a[i] in multiset(a);
    assert a[i] in b;
    j :| 0 <= j < |b| && b[j] == a[i];
  }

  lemma UnconflictedIsOrderFree(entries: seq<Entry>, other: seq<Entry>)
    requires Unconflicted(entries) && Permuted(entries, other)
    ensures Convert(other) == Convert(entries)
  {
    ConvertMeaning(entries);
    ConvertMeaning(other);
    forall p
      ensures p in Convert(entries) <==> p in Convert(other)
      ensures p in Convert(entries) ==> Convert(entries)[p] == Convert(other)[p]
    {
      if p in Convert(entries) {
        var i := OwnerListsPartition(entries, p);
        var k := PermutedListing(entries, other, i, p);
        var j := OwnerListsPartition(other, p);
        var l := PermutedListing(other, entries, j, p);
      }
      if p in Convert(other) {
        var j := OwnerListsPartition(other, p);
        var l := PermutedListing(other, entries, j, p);
      }
    }
  }

  /** Moving the entry at `i` to the end makes its owner win for every partition it lists. */
  lemma MovedLastWins(entries: seq<Entry>, i: int, p: int) returns (other: seq<Entry>)
    requires Lists(entries, i, p)
    ensures Permuted(entries, other) && p in Convert(other) && Convert(other)[p] == entries[i].owner
  {
    other := entries[..i] + entries[i + 1..] + [entries[i]];
    assert entries == entries[..i] + [entries[i]] + entries[i + 1..];
    ConvertMeaning(other);
    assert LastToList(other, |other| - 1, p);
  }

  lemma OrderFreeListers(entries: seq<Entry>, i: int, p: int)
    requires OrderFree(entries) && Lists(entries, i, p)
    ensures p in Convert(entries) && Convert(entries)[p] == entries[i].owner
  {
    var other := MovedLastWins(entries, i, p);
  }

  /**
    The converted table is the same for every order of the entries if and only if no
    partition is claimed by two different owners.
   */
  lemma OrderFreeIffUnconflicted(entries: seq<Entry>)
    ensures OrderFree(entries) <==> Unconflicted(entries)
  {
    if Unconflicted(entries) {
      forall other | Permuted(entries, other)
        ensures Convert(other) == Convert(entries)
      {
        UnconflictedIsOrderFree(entries, other);
      }
    }
    if OrderFree(entries) {
      forall i, j, p | Lists(entries, i, p) && Lists(entries, j, p)
        ensures entries[i].owner == entries[j].owner
      {
        OrderFreeListers(entries, i, p);
        OrderFreeListers(entries, j, p);
      }
    }
  }

  lemma DisjointIsOrderFree(entries: seq<Entry>)
    requires Disjoint(entries)
    ensures OrderFree(entries)
  {
    OrderFreeIffUnconflicted(entries);
  }

  // ---------------------------------------------------------------- applying events

  predicate ShouldBeApplied(event: ViewEvent, current: Table) {
    && event.entries != []
    && (current.connection != Some(event.connection) || event.version > current.version)
  }

  /** The table an accepted event leaves behind. */
  function TableOf(event: ViewEvent): Table {
    Table(Some(event.connection), event.version, Convert(event.entries))
  }

  function Apply(current: Table, event: ViewEvent): Table {
    if ShouldBeApplied(event, current) then TableOf(event) else current
  }

  function Fold(t: Table, events: seq<ViewEvent>): Table {
    if events == [] then t
    else Apply(Fold(t, events[..|events| - 1]), events[|events| - 1])
  }

  ghost predicate Carries(events: seq<ViewEvent>, i: int) {
    0 <= i < |events| && events[i].entries != []
  }

  /** All events that carry a table come from the connection `c`. */
  ghost predicate FromOneConnection(events: seq<ViewEvent>, c: ConnectionId) {
    forall i :: Carries(events, i) ==> events[i].connection == c
  }

  /** Event `k` carries a table and no other carried table has a higher version. */
  ghost predicate Newest(events: seq<ViewEvent>, k: int) {
    && Carries(events, k)
    && forall j :: Carries(events, j) ==> events[j].version <= events[k].version
  }

  /** The first of the newest events. */
  ghost predicate FirstNewest(events: seq<ViewEvent>, k: int) {
    && Newest(events, k)
    && forall j :: Carries(events, j) && j < k ==> events[j].version < events[k].version
  }

  /**
    Whatever a connection delivers after a reset, the table ends up as the first delivered
    event among those with the highest version, or stays empty if no event carries a table.
   */
  lemma {:induction false} FoldIsFirstNewest(events: seq<ViewEvent>, c: ConnectionId) returns (k: int)
    requires FromOneConnection(events, c)
    ensures if k < 0 then Fold(EMPTY_TABLE, events) == EMPTY_TABLE && forall j :: !Carries(events, j)
            else FirstNewest(events, k) && Fold(EMPTY_TABLE, events) == TableOf(events[k])
  {
    if events == [] {
      k := -1;
    } else {
      var n := |events| - 1;
      var front := events[..n];
      assert forall j :: Carries(front, j) ==> Carries(events, j) && front[j] == events[j];
      k := FoldIsFirstNewest(front, c);
      assert forall j :: Carries(events, j) && j < n ==> Carries(front, j);
      if Carries(events, n) && (k < 0 || events[n].version > events[k].version) {
        k := n;
      }
    }
  }

  /** The same events, in any order and with any duplication. */
  ghost predicate SameEvents(a: seq<ViewEvent>, b: seq<ViewEvent>) {
    forall e :: e in a <==> e in b
  }

  ghost predicate DeliveryFree(events: seq<ViewEvent>) {
    forall other {:trigger SameEvents(events, other)} ::
      SameEvents(events, other) ==> Fold(EMPTY_TABLE, other) == Fold(EMPTY_TABLE, events)
  }

  /** All events of the highest version carry the same table. */
  ghost predicate NewestAgree(events: seq<ViewEvent>) {
    forall i, j :: Newest(events, i) && Newest(events, j) ==> Convert(events[i].entries) == Convert(events[j].entries)
  }

  lemma NewestTransfers(a: seq<ViewEvent>, b: seq<ViewEvent>, k: int) returns (l: int)
    requires SameEvents(a, b) && Newest(a, k)
    ensures Newest(b, l) && b[l] == a[k]
  {
    assert a[k] in b;
    l :| 0 <= l < |b| && b[l] == a[k];
    forall j | Carries(b, j) ensures b[j].version <= b[l].version {
      assert b[j] in a;
      var i :| 0 <= i < |a| && a[i] == b[j];
      assert Carries(a, i);
    }
  }

  lemma ConnectionTransfers(a: seq<ViewEvent>, b: seq<ViewEvent>, c: ConnectionId)
    requires SameEvents(a, b) && FromOneConnection(a, c)
    ensures FromOneConnection(b, c)
  {
    forall j | Carries(b, j) ensures b[j].connection == c {
      assert b[j] in a;
      var i :| 0 <= i < |a| && a[i] == b[j];
      assert Carries(a, i);
    }
  }

  lemma AgreementConverges(events: seq<ViewEvent>, other: seq<ViewEvent>, c: ConnectionId)
    requires FromOneConnection(events, c) && NewestAgree(events) && SameEvents(events, other)
    ensures Fold(EMPTY_TABLE, other) == Fold(EMPTY_TABLE, events)
  {
    ConnectionTransfers(events, other, c);
    var k := FoldIsFirstNewest(events, c);
    var l := FoldIsFirstNewest(other, c);
    if k >= 0 {
      var l' := NewestTransfers(events, other, k);
      assert Carries(other, l');
      var k' := NewestTransfers(other, events, l);
    } else if l >= 0 {
      var k' := NewestTransfers(other, events, l);
      assert false;
    }
  }

  /** Delivering a newest event once more, ahead of all others, makes its table win. */
  lemma DeliveredFirstWins(events: seq<ViewEvent>, c: ConnectionId, i: int)
    requires FromOneConnection(events, c) && Newest(events, i)
    ensures SameEvents(events, [events[i]] + events)
    ensures Fold(EMPTY_TABLE, [events[i]] + events) == TableOf(events[i])
  {
    var other := [events[i]] + events;
    assert events[i] in events;
    ConnectionTransfers(events, other, c);
    var k := FoldIsFirstNewest(other, c);
    assert Carries(other, 0);
    assert k > 0 ==> Carries(events, k - 1);
  }

  lemma {:induction false} FreeDeliveryAgrees(events: seq<ViewEvent>, c: ConnectionId, i: int, j: int)
    requires FromOneConnection(events, c) && DeliveryFree(events) && Newest(events, i) && Newest(events, j)
    ensures Convert(events[i].entries) == Convert(events[j].entries)
  {
    DeliveredFirstWins(events, c, i);
    DeliveredFirstWins(events, c, j);
  }

  /** All events that carry a table come from one connection. */
  ghost predicate OneSource(events: seq<ViewEvent>) {
    forall i, j :: Carries(events, i) && Carries(events, j) ==> events[i].connection == events[j].connection
  }

  lemma SourceOf(events: seq<ViewEvent>) returns (c: ConnectionId)
    requires OneSource(events)
    ensures FromOneConnection(events, c)
  {
    if i :| Carries(events, i) {
      c := events[i].connection;
    } else {
      c := 0;
    }
  }

  /** Delivering an event once more, behind all others, leaves the table with its connection. */
  lemma DeliveredLastOwns(events: seq<ViewEvent>, i: int)
    requires Carries(events, i)
    ensures SameEvents(events, events + [events[i]])
    ensures Fold(EMPTY_TABLE, events + [events[i]]).connection == Some(events[i].connection)
  {
    assert (events + [events[i]])[..|events|] == events;
    assert events[i] in events;
  }

  lemma {:induction false} FreeDeliveryHasOneSource(events: seq<ViewEvent>, i: int, j: int)
    requires DeliveryFree(events) && Carries(events, i) && Carries(events, j)
    ensures events[i].connection == events[j].connection
  {
    DeliveredLastOwns(events, i);
    DeliveredLastOwns(events, j);
  }

  /**
    For every list of events, from any connections: every delivery order with any
    duplication converges to one table if and only if all carried tables come from one
    connection and those of the highest version agree.
   */
  lemma {:induction false} DeliveryFreeIffOneSourceAgrees(events: seq<ViewEvent>)
    ensures DeliveryFree(events) <==> OneSource(events) && NewestAgree(events)
  {
    if DeliveryFree(events) {
      forall i, j | Carries(events, i) && Carries(events, j)
        ensures events[i].connection == events[j].connection
      {
        FreeDeliveryHasOneSource(events, i, j);
      }
      var c := SourceOf(events);
      forall i, j | Newest(events, i) && Newest(events, j)
        ensures Convert(events[i].entries) == Convert(events[j].entries)
      {
        FreeDeliveryAgrees(events, c, i, j);
      }
    } else if OneSource(events) && NewestAgree(events) {
      var c := SourceOf(events);
      forall other | SameEvents(events, other)
        ensures Fold(EMPTY_TABLE, other) == Fold(EMPTY_TABLE, events)
      {
        AgreementConverges(events, other, c);
      }
      assert false;
    }
  }

  /** On one connection, deliveries converge if and only if the events of the highest version agree. */
  lemma DeliveryFreeIffNewestAgree(events: seq<ViewEvent>, c: ConnectionId)
    requires FromOneConnection(events, c)
    ensures DeliveryFree(events) <==> NewestAgree(events)
  {
    DeliveryFreeIffOneSourceAgrees(events);
  }

  /** Equal versions stand for equal tables, as one server's state versions do. */
  ghost predicate VersionsIdentifyTables(events: seq<ViewEvent>) {
    forall e, f :: e in events && f in events && e.version == f.version ==> Convert(e.entries) == Convert(f.entries)
  }

  lemma Convergence(events: seq<ViewEvent>, other: seq<ViewEvent>, c: ConnectionId)
    requires FromOneConnection(events, c) && VersionsIdentifyTables(events) && SameEvents(events, other)
    ensures Fold(EMPTY_TABLE, other) == Fold(EMPTY_TABLE, events)
    ensures forall k :: Newest(events, k) ==> Fold(EMPTY_TABLE, other) == TableOf(events[k])
    ensures (forall k :: !Carries(events, k)) ==> Fold(EMPTY_TABLE, other) == EMPTY_TABLE
  {
    DeliveryFreeIffNewestAgree(events, c);
    forall k | Newest(events, k) ensures Fold(EMPTY_TABLE, other) == TableOf(events[k]) {
      DeliveredFirstWins(events, c, k);
    }
    var k := FoldIsFirstNewest(events, c);
  }

  /** Two events of different connections are enough for the order to decide. */
  lemma TwoConnectionsDiverge()
    ensures exists a, b: ViewEvent ::
              VersionsIdentifyTables([a, b]) && Fold(EMPTY_TABLE, [a, b]) != Fold(EMPTY_TABLE, [b, a])
  {
    var owner := Uuid(1, 2);
    var a := ViewEvent(0, [Entry(owner, [7])], 10);
    var b := ViewEvent(1, [Entry(owner, [8])], 3);
    assert Fold(EMPTY_TABLE, [a]) == TableOf(a) by { assert [a][..0] == []; }
    assert Fold(EMPTY_TABLE, [b]) == TableOf(b) by { assert [b][..0] == []; }
    assert [a, b][..1] == [a] && [b, a][..1] == [b];
    assert Fold(EMPTY_TABLE, [a, b]) == TableOf(b);
    assert Fold(EMPTY_TABLE, [b, a]) == TableOf(a);
    assert VersionsIdentifyTables([a, b]);
  }
}
