/**
  The partition service as the client drives it: view events from changing connections,
  resets on cluster change and partition counts offered by authenticated connections.
 */
module PartitionServices {
  import opened Wrappers
  import opened PartitionTables
  import opened RoundRobin

  datatype State = State(table: Table, count: int)

  datatype Action =
    | View(event: ViewEvent)
    | Reset
    | OfferCount(offered: int)

  datatype Error = ClientOffline

  const INITIAL := State(EMPTY_TABLE, 0)

  function CountAfterOffer(count: int, offered: int): int {
    if count == 0 then offered else count
  }

  function Step(s: State, a: Action): State {
    match a
    case View(event) => s.(table := Apply(s.table, event))
    case Reset => s.(table := EMPTY_TABLE)
    case OfferCount(offered) => s.(count := CountAfterOffer(s.count, offered))
  }

  function Run(s: State, actions: seq<Action>): State {
    if actions == [] then s
    else Step(Run(s, actions[..|actions| - 1]), actions[|actions| - 1])
  }

  lemma {:induction false} RunConcat(s: State, first: seq<Action>, second: seq<Action>)
    ensures Run(s, first + second) == Run(Run(s, first), second)
  {
    if second == [] {
      assert first + second == first;
    } else {
      var n := |second| - 1;
      RunConcat(s, first, second[..n]);
      assert (first + second)[..|first + second| - 1] == first + second[..n];
    }
  }

  /** Magnitude of a number; -2^31 has magnitude 2^31, as in double arithmetic. */
  function Abs(x: int): nat {
    if x < 0 then -x else x
  }

  /** The remainder keeps the sign of its dividend, so for a non-negative one only the divisor's magnitude counts. */
  function PartitionId(hash: int, count: int): Result<int, Error> {
    if count == 0 then Failure(ClientOffline) else Success(Abs(hash) % Abs(count))
  }

  // ---------------------------------------------------------------- the count and the partition ids

  /** `x` is `q` times `n` and `r` more, which is less than `n`. */
  ghost predicate Leaves(x: int, n: int, q: int, r: int) {
    x == q * n + r && 0 <= r < n
  }

  /**
    The partition of a hash is what is left of its magnitude after taking off the magnitude
    of the count as often as possible, and nothing else is. So a hash and its negative share
    a partition, and every partition up to the count is that of the hash of the same number.
   */
  lemma PartitionIdMeaning(hash: int, count: int, id: int)
    requires count != 0
    ensures var h, n := if hash < 0 then -hash else hash, if count < 0 then -count else count;
            && (PartitionId(hash, count) == Success(id) <==> exists q :: Leaves(h, n, q, id))
            && PartitionId(-hash, count) == PartitionId(hash, count)
            && (0 <= id < n ==> PartitionId(id, count) == Success(id))
  {
    var h, n := if hash < 0 then -hash else hash, if count < 0 then -count else count;
    assert Leaves(h, n, h / n, h % n);
    if q :| Leaves(h, n, q, id) {
      DivModUnique(h, n, q, id);
    }
    if 0 <= id < n {
      assert Leaves(id, n, 0, id);
      DivModUnique(id, n, 0, id);
    }
  }

  /** Once a count is known nothing in the rest of the run alters it, a reset included. */
  lemma {:induction false} CountIsFixed(s: State, actions: seq<Action>)
    requires s.count != 0
    ensures Run(s, actions).count == s.count
  {
    if actions == [] {
    } else {
      CountIsFixed(s, actions[..|actions| - 1]);
    }
  }

  lemma {:induction false} NoOfferNoCount(actions: seq<Action>)
    requires forall a :: a in actions && a.OfferCount? ==> a.offered == 0
    ensures Run(INITIAL, actions).count == 0
  {
    if actions == [] {
    } else {
      NoOfferNoCount(actions[..|actions| - 1]);
      assert actions[|actions| - 1] in actions;
    }
  }

  /** The count of a run is the first non-zero offer. */
  lemma {:induction false} CountIsFirstOffer(actions: seq<Action>, k: nat)
    requires k < |actions| && actions[k].OfferCount? && actions[k].offered != 0
    requires forall j :: 0 <= j < k ==> actions[j].OfferCount? ==> actions[j].offered == 0
    ensures Run(INITIAL, actions).count == actions[k].offered
  {
    var before := actions[..k];
    NoOfferNoCount(before);
    RunConcat(INITIAL, before, [actions[k]]);
    RunConcat(INITIAL, before + [actions[k]], actions[k + 1..]);
    assert actions == before + [actions[k]] + actions[k + 1..];
    assert [actions[k]][..0] == [];
    var s := Run(INITIAL, before);
    assert Run(s, [actions[k]]) == Step(s, actions[k]);
    CountIsFixed(Run(INITIAL, before + [actions[k]]), actions[k + 1..]);
  }

  /**
    From the moment the count is known a key hash belongs to one partition for the rest
    of the run, and that partition exists.
   */
  lemma PartitionIdIsStable(before: seq<Action>, after: seq<Action>, hash: int)
    requires Run(INITIAL, before).count != 0
    ensures PartitionId(hash, Run(INITIAL, before + after).count) == PartitionId(hash, Run(INITIAL, before).count)
    ensures var id := PartitionId(hash, Run(INITIAL, before + after).count);
            id.Success? && 0 <= id.value < Abs(Run(INITIAL, before).count)
  {
    RunConcat(INITIAL, before, after);
    CountIsFixed(Run(INITIAL, before), after);
  }

  // ---------------------------------------------------------------- the table along a run

  /** The events accepted since the last reset. */
  function Accepted(actions: seq<Action>): seq<ViewEvent> {
    if actions == [] then []
    else
      var front := actions[..|actions| - 1];
      match actions[|actions| - 1]
      case View(event) =>
        if ShouldBeApplied(event, Run(INITIAL, front).table) then Accepted(front) + [event] else Accepted(front)
      case Reset => []
      case OfferCount(_) => Accepted(front)
  }

  /** Consecutive events of one connection have increasing versions. */
  ghost predicate VersionsClimb(events: seq<ViewEvent>) {
    forall k :: 0 < k < |events| && events[k - 1].connection == events[k].connection
                ==> events[k - 1].version < events[k].version
  }

  /** The table is that of the last of these events, whose versions climb. */
  ghost predicate Reflects(t: Table, events: seq<ViewEvent>) {
    && t == (if events == [] then EMPTY_TABLE else TableOf(events[|events| - 1]))
    && VersionsClimb(events)
    && forall e :: e in events ==> e.entries != []
  }

  lemma AcceptedReflects(t: Table, events: seq<ViewEvent>, event: ViewEvent)
    requires Reflects(t, events) && ShouldBeApplied(event, t)
    ensures Reflects(TableOf(event), events + [event])
  {
  }

  /**
    Along every run the table is empty or exactly the conversion of the latest accepted
    event, with that event's connection and version, and accepted versions climb.
   */
  lemma {:induction false} TableIsLatestAccepted(actions: seq<Action>)
    ensures Reflects(Run(INITIAL, actions).table, Accepted(actions))
  {
    if actions == [] {
    } else {
      var front, a := actions[..|actions| - 1], actions[|actions| - 1];
      TableIsLatestAccepted(front);
      var t := Run(INITIAL, front).table;
      if a.View? && ShouldBeApplied(a.event, t) {
        AcceptedReflects(t, Accepted(front), a.event);
      }
    }
  }

  /**
    Who owns a partition along a run: nobody before an event was accepted; afterwards the
    owner of the last entry of the latest accepted event that lists the partition, and nobody
    exactly if no entry of it does. Connection and version are those of that event.
   */
  lemma {:induction false} OwnerAlongRun(actions: seq<Action>, p: int)
    ensures var h, t := Accepted(actions), Run(INITIAL, actions).table;
            && (h == [] ==> t.partitions == map[] && t.connection == None)
            && (h != [] ==>
                  var e := h[|h| - 1];
                  && t.connection == Some(e.connection) && t.version == e.version
                  && (p in t.partitions <==> exists i :: Lists(e.entries, i, p))
                  && forall i :: LastToList(e.entries, i, p) ==>
                       p in t.partitions && t.partitions[p] == e.entries[i].owner)
  {
    TableIsLatestAccepted(actions);
    var h := Accepted(actions);
    if h != [] {
      ConvertMeaning(h[|h| - 1].entries);
    }
  }

  /** While the connection is unchanged, accepted versions strictly increase. */
  lemma {:induction false} VersionsIncreaseOnOneConnection(actions: seq<Action>, i: nat, j: nat)
    requires i < j < |Accepted(actions)|
    requires forall k :: i <= k <= j ==> Accepted(actions)[k].connection == Accepted(actions)[i].connection
    ensures Accepted(actions)[i].version < Accepted(actions)[j].version
    decreases j
  {
    TableIsLatestAccepted(actions);
    if i == j - 1 {
    } else {
      VersionsIncreaseOnOneConnection(actions, i, j - 1);
    }
  }

  lemma {:induction false} EmptyEventsChangeNothing(s: State, skipped: seq<Action>)
    requires s.table == EMPTY_TABLE
    requires forall a :: a in skipped ==> a.OfferCount? || a.Reset? || (a.View? && a.event.entries == [])
    ensures Run(s, skipped).table == EMPTY_TABLE
  {
    if skipped == [] {
    } else {
      EmptyEventsChangeNothing(s, skipped[..|skipped| - 1]);
      assert skipped[|skipped| - 1] in skipped;
    }
  }

  /** A reset forgets the version: the next event that carries a table is accepted whatever its version. */
  lemma ResetAcceptsAnyVersion(before: seq<Action>, skipped: seq<Action>, event: ViewEvent)
    requires forall a :: a in skipped ==> a.OfferCount? || a.Reset? || (a.View? && a.event.entries == [])
    requires event.entries != []
    ensures Run(INITIAL, before + [Reset] + skipped + [View(event)]).table == TableOf(event)
  {
    RunConcat(INITIAL, before + [Reset], skipped + [View(event)]);
    assert (before + [Reset])[..|before|] == before;
    var s := Run(INITIAL, before + [Reset]);
    EmptyEventsChangeNothing(s, skipped);
    assert (skipped + [View(event)])[..|skipped|] == skipped;
    assert before + [Reset] + skipped + [View(event)] == before + [Reset] + (skipped + [View(event)]);
  }

  // ---------------------------------------------------------------- the objects

  class PartitionTable {
    var connection: Option<ConnectionId>
    var partitionStateVersion: int
    var partitions: map<int, Uuid>

    function Value(): Table
      reads this
    {
      Table(connection, partitionStateVersion, partitions)
    }

    constructor ()
      ensures Value() == EMPTY_TABLE
    {
      connection := None;
      partitionStateVersion := -1;
      partitions := map[];
    }
  }

  lemma AssignOneMore(m: map<int, Uuid>, owner: Uuid, ps: seq<int>, j: nat)
    requires j < |ps|
    ensures Assign(m, owner, ps[..j + 1]) == Assign(m, owner, ps[..j])[ps[j] := owner]
  {
    assert ps[..j + 1] == ps[..j] + [ps[j]];
  }

  lemma ConvertOneMore(entries: seq<Entry>, i: nat)
    requires i < |entries|
    ensures Convert(entries[..i + 1]) == Assign(Convert(entries[..i]), entries[i].owner, entries[i].partitions)
  {
    assert entries[..i + 1][..i] == entries[..i];
  }

  /** The nested loops that fill the new map; `ConvertMeaning` says what the map is. */
  method ConvertToMap(entries: seq<Entry>) returns (m: map<int, Uuid>)
    ensures m == Convert(entries)
  {
    m := map[];
    for i := 0 to |entries|
      invariant m == Convert(entries[..i])
    {
      var owner, owned := entries[i].owner, entries[i].partitions;
      ghost var before := m;
      for j := 0 to |owned|
        invariant m == Assign(before, owner, owned[..j])
      {
        AssignOneMore(before, owner, owned, j);
        m := m[owned[j] := owner];
      }
      assert owned[..|owned|] == owned;
      ConvertOneMore(entries, i);
    }
    assert entries[..|entries|] == entries;
  }

  class PartitionService {
    var partitionTable: PartitionTable
    var partitionCount: int

    function Value(): State
      reads this, partitionTable
    {
      State(partitionTable.Value(), partitionCount)
    }

    constructor ()
      ensures Value() == INITIAL && fresh(partitionTable)
    {
      partitionTable := new PartitionTable();
      partitionCount := 0;
    }

    method ResetTable()
      modifies this`partitionTable
      ensures Value() == Step(old(Value()), Reset) && fresh(partitionTable)
    {
      partitionTable := new PartitionTable();
    }

    method IsToBeApplied(connection: ConnectionId, entries: seq<Entry>, version: int, current: PartitionTable)
      returns (apply: bool)
      ensures apply == ShouldBeApplied(ViewEvent(connection, entries, version), current.Value())
    {
      if |entries| == 0 {
        return false;
      }
      if current.connection != Some(connection) {
        return true;
      }
      if version <= current.partitionStateVersion {
        return false;
      }
      return true;
    }

    method HandlePartitionViewEvent(connection: ConnectionId, entries: seq<Entry>, version: int)
      modifies partitionTable
      ensures Value() == Step(old(Value()), View(ViewEvent(connection, entries, version)))
    {
      var apply := IsToBeApplied(connection, entries, version, partitionTable);
      if !apply {
        return;
      }
      var newPartitions := ConvertToMap(entries);
      partitionTable.connection := Some(connection);
      partitionTable.partitionStateVersion := version;
      partitionTable.partitions := newPartitions;
    }

    method GetPartitionOwner(partitionId: int) returns (owner: Option<Uuid>)
      ensures owner == None <==> partitionId !in Value().table.partitions
      ensures owner.Some? ==> owner.value == Value().table.partitions[partitionId]
    {
      owner := if partitionId in partitionTable.partitions then Some(partitionTable.partitions[partitionId]) else None;
    }

    method GetPartitionId(partitionHash: int) returns (id: Result<int, Error>)
      ensures id == PartitionId(partitionHash, Value().count)
      ensures id.Failure? <==> Value().count == 0
      ensures var h := if partitionHash < 0 then -partitionHash else partitionHash;
              var n := if Value().count < 0 then -Value().count else Value().count;
              id.Success? ==> exists q :: Leaves(h, n, q, id.value)
    {
      if partitionCount == 0 {
        return Failure(ClientOffline);
      }
      var magnitude := if partitionHash < 0 then -partitionHash else partitionHash;
      id := Success(magnitude % Abs(partitionCount));
      PartitionIdMeaning(partitionHash, partitionCount, id.value);
    }

    /** Answers whether the offered count is the one in force afterwards. */
    method CheckAndSetPartitionCount(newPartitionCount: int) returns (accepted: bool)
      modifies this`partitionCount
      ensures Value() == Step(old(Value()), OfferCount(newPartitionCount))
      ensures accepted <==> Value().count == newPartitionCount
    {
      if partitionCount == 0 {
        partitionCount := newPartitionCount;
        return true;
      }
      return partitionCount == newPartitionCount;
    }
  }
}
