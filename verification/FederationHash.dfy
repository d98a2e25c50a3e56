/** The hash over all logs of a federation: independent of the order of the
    nodes, and binding for every log in it. */
module FederationHash {
  import opened Text
  import opened AuditLog

  datatype NodeLog = NodeLog(nodeId: string, events: seq<AuditEvent>)

  /** One event together with the node that recorded it. */
  datatype Item = Item(nodeId: string, event: AuditEvent)

  datatype CanonicalEntry = CanonicalEntry(nodeId: string, eventId: string, requestId: string, eventHash: string)

  type ListHash = seq<CanonicalEntry> -> string

  // ---- sorting ----

  /** The order of the sort key `(node_id, event_id)`. */
  predicate KeyLess(a: Item, b: Item) {
    || Less(a.nodeId, b.nodeId)
    || (a.nodeId == b.nodeId && Less(a.event.payload.eventId, b.event.payload.eventId))
  }

  predicate SameKey(a: Item, b: Item) {
    a.nodeId == b.nodeId && a.event.payload.eventId == b.event.payload.eventId
  }

  /** After the last item that is not greater. */
  function Insert(x: Item, sorted: seq<Item>): seq<Item> {
    if sorted == [] || !KeyLess(x, sorted[|sorted| - 1]) then sorted + [x]
    else Insert(x, sorted[..|sorted| - 1]) + [sorted[|sorted| - 1]]
  }

  /** Python's stable `sorted` under the key. */
  function Sorted(items: seq<Item>): seq<Item> {
    if items == [] then [] else Insert(items[|items| - 1], Sorted(items[..|items| - 1]))
  }

  ghost predicate Ordered(items: seq<Item>) {
    forall i, j :: 0 <= i < j < |items| ==> KeyLess(items[i], items[j])
  }

  ghost predicate DistinctKeys(items: seq<Item>) {
    forall i, j :: 0 <= i < j < |items| ==> !SameKey(items[i], items[j])
  }

  lemma KeyTotal(a: Item, b: Item)
    ensures KeyLess(a, b) || SameKey(a, b) || KeyLess(b, a)
    ensures !(KeyLess(a, b) && KeyLess(b, a))
  {
    LessTotal(a.nodeId, b.nodeId);
    LessTotal(a.event.payload.eventId, b.event.payload.eventId);
    if Less(a.nodeId, b.nodeId) && Less(b.nodeId, a.nodeId) {
      LessTransitive(a.nodeId, b.nodeId, a.nodeId);
    }
    LessIrreflexive(a.nodeId);
    if Less(a.event.payload.eventId, b.event.payload.eventId)
       && Less(b.event.payload.eventId, a.event.payload.eventId)
    {
      LessTransitive(a.event.payload.eventId, b.event.payload.eventId, a.event.payload.eventId);
    }
    LessIrreflexive(a.event.payload.eventId);
  }

  lemma KeyTransitive(a: Item, b: Item, c: Item)
    requires KeyLess(a, b) && KeyLess(b, c)
    ensures KeyLess(a, c)
  {
    if Less(a.nodeId, b.nodeId) && Less(b.nodeId, c.nodeId) {
      LessTransitive(a.nodeId, b.nodeId, c.nodeId);
    }
    LessIrreflexive(a.nodeId);
    if a.nodeId == b.nodeId == c.nodeId {
      LessTransitive(a.event.payload.eventId, b.event.payload.eventId, c.event.payload.eventId);
    }
  }

  lemma {:induction false} InsertKeeps(x: Item, sorted: seq<Item>)
    requires Ordered(sorted) && forall y :: y in sorted ==> !SameKey(x, y)
    ensures Ordered(Insert(x, sorted))
    ensures multiset(Insert(x, sorted)) == multiset(sorted) + multiset{x}
  {
    hide KeyLess, SameKey;
    if sorted == [] {
      assert Insert(x, sorted) == [x];
    } else {
      var n := |sorted| - 1;
      var last := sorted[n];
      KeyTotal(x, last);
      assert last in sorted;
      assert sorted == sorted[..n] + [last];
      if KeyLess(x, last) {
        InsertKeeps(x, sorted[..n]);
        var front := Insert(x, sorted[..n]);
        forall y | y in front
          ensures KeyLess(y, last)
        {
          assert y in multiset(front);
          if y != x {
            assert y in sorted[..n];
          }
        }
      } else {
        forall i | 0 <= i < n
          ensures KeyLess(sorted[i], x)
        {
          KeyTransitive(sorted[i], last, x);
        }
      }
    }
  }

  /** Sorting items with distinct keys gives an ordered permutation. */
  lemma {:induction false} SortedIsOrdered(items: seq<Item>)
    requires DistinctKeys(items)
    ensures Ordered(Sorted(items))
    ensures multiset(Sorted(items)) == multiset(items)
  {
    hide KeyLess, Insert;
    if items == [] {
    } else {
      var n := |items| - 1;
      SortedIsOrdered(items[..n]);
      assert items == items[..n] + [items[n]];
      forall y | y in Sorted(items[..n])
        ensures !SameKey(items[n], y)
      {
        assert y in multiset(items[..n]);
        var i :| 0 <= i < n && items[i] == y;
      }
      InsertKeeps(items[n], Sorted(items[..n]));
    }
  }

  /** The items with the key of `y`, in their order. */
  function OfKey(items: seq<Item>, y: Item): seq<Item> {
    if items == [] then []
    else OfKey(items[..|items| - 1], y) + if SameKey(items[|items| - 1], y) then [items[|items| - 1]] else []
  }

  /** Sorting keeps the order of items of one key, and every item, whatever the keys. */
  lemma {:induction false} SortedIsStable(items: seq<Item>, y: Item)
    ensures OfKey(Sorted(items), y) == OfKey(items, y)
    ensures multiset(Sorted(items)) == multiset(items)
  {
    hide Insert, SameKey;
    if items == [] {
    } else {
      var n := |items| - 1;
      SortedIsStable(items[..n], y);
      InsertIsStable(items[n], Sorted(items[..n]), y);
      assert items == items[..n] + [items[n]];
    }
  }

  lemma {:induction false} InsertIsStable(x: Item, sorted: seq<Item>, y: Item)
    ensures OfKey(Insert(x, sorted), y) == OfKey(sorted, y) + if SameKey(x, y) then [x] else []
    ensures multiset(Insert(x, sorted)) == multiset(sorted) + multiset{x}
  {
    hide KeyLess, SameKey, OfKey;
    var n := |sorted| - 1;
    if sorted == [] || !KeyLess(x, sorted[n]) {
      OfKeySnoc(sorted, x, y);
    } else {
      var front, last := sorted[..n], sorted[n];
      InsertIsStable(x, front, y);
      LessIsNotSame(x, last, y);
      OfKeySnoc(Insert(x, front), last, y);
      OfKeySnoc(front, last, y);
      assert sorted == front + [last];
    }
  }

  lemma {:induction false} OfKeySnoc(items: seq<Item>, x: Item, y: Item)
    ensures OfKey(items + [x], y) == OfKey(items, y) + if SameKey(x, y) then [x] else []
  {
    hide SameKey;
    assert (items + [x])[..|items|] == items;
  }

  lemma LessIsNotSame(x: Item, last: Item, y: Item)
    requires KeyLess(x, last)
    ensures !(SameKey(x, y) && SameKey(last, y))
  {
    LessIrreflexive(x.nodeId);
    LessIrreflexive(x.event.payload.eventId);
  }

  /** The last item of an ordered arrangement is the greatest of the collection. */
  lemma SameLast(a: seq<Item>, b: seq<Item>)
    requires Ordered(a) && Ordered(b) && multiset(a) == multiset(b) && a != []
    ensures b != [] && a[|a| - 1] == b[|b| - 1]
  {
    hide KeyLess, SameKey;
    assert |a| == |multiset(a)| == |multiset(b)| == |b|;
    var n := |a| - 1;
    var x, y := a[n], b[n];
    assert x in multiset(b) && y in multiset(a);
    var i :| 0 <= i < |b| && b[i] == x;
    var j :| 0 <= j < |a| && a[j] == y;
    if x != y {
      KeyTotal(x, y);
      assert false;
    }
  }

  lemma DropLast(a: seq<Item>)
    requires a != []
    ensures multiset(a[..|a| - 1]) == multiset(a) - multiset{a[|a| - 1]}
    ensures a == a[..|a| - 1] + [a[|a| - 1]]
  {
    assert a == a[..|a| - 1] + [a[|a| - 1]];
  }

  /** There is one ordered arrangement of a collection. */
  lemma {:induction false} OrderedIsUnique(a: seq<Item>, b: seq<Item>)
    requires Ordered(a) && Ordered(b) && multiset(a) == multiset(b)
    ensures a == b
  {
    hide KeyLess;
    assert |a| == |multiset(a)| == |multiset(b)| == |b|;
    if a == [] {
    } else {
      SameLast(a, b);
      DropLast(a);
      DropLast(b);
      OrderedIsUnique(a[..|a| - 1], b[..|b| - 1]);
    }
  }

  // ---- the federation hash ----

  function ItemsOf(log: NodeLog): (r: seq<Item>)
    ensures |r| == |log.events|
  {
    seq(|log.events|, i requires 0 <= i < |log.events| => Item(log.nodeId, log.events[i]))
  }

  function AllItems(nodes: seq<NodeLog>): seq<Item> {
    if nodes == [] then [] else AllItems(nodes[..|nodes| - 1]) + ItemsOf(nodes[|nodes| - 1])
  }

  function Canonical(items: seq<Item>): (r: seq<CanonicalEntry>)
    ensures |r| == |items|
  {
    seq(|items|, i requires 0 <= i < |items| =>
      CanonicalEntry(items[i].nodeId, items[i].event.payload.eventId, items[i].event.payload.requestId,
                     items[i].event.eventHash))
  }

  function HashEvents(listHash: ListHash, items: seq<Item>): string {
    listHash(Canonical(Sorted(items)))
  }

  function FederationHashOf(listHash: ListHash, nodes: seq<NodeLog>): string {
    HashEvents(listHash, AllItems(nodes))
  }

  datatype FederationReason = FederationVerified | BrokenChain(nodeId: string, reason: string)

  datatype FederationReport = FederationReport(
    valid: bool, eventCount: nat, federationHash: string, reason: FederationReason)

  /** `FederationVerifier.verify`: every chain is replayed; the first broken one
      is named, with the replay verifier's own count and reason. */
  method Verify(hash: Hash, listHash: ListHash, nodes: seq<NodeLog>) returns (report: FederationReport)
    ensures report.valid <==> forall i :: 0 <= i < |nodes| ==> ChainValid(hash, nodes[i].events)
    ensures report.valid ==>
              report == FederationReport(true, |AllItems(nodes)|, FederationHashOf(listHash, nodes), FederationVerified)
    ensures !report.valid ==>
              exists i ::
                && 0 <= i < |nodes| && report.federationHash == ""
                && (forall k :: 0 <= k < i ==> ChainValid(hash, nodes[k].events))
                && report.reason.BrokenChain? && report.reason.nodeId == nodes[i].nodeId
                && IsReportOn(ReplayReport(false, report.eventCount, report.reason.reason), hash, nodes[i].events)
  {
    hide HashEvents, Intact, Linked;
    var allEvents: seq<Item> := [];
    for i := 0 to |nodes|
      invariant allEvents == AllItems(nodes[..i])
      invariant forall k :: 0 <= k < i ==> ChainValid(hash, nodes[k].events)
    {
      var replayed := Replay(hash, nodes[i].events);
      if !replayed.valid {
        return FederationReport(false, replayed.eventCount, "", BrokenChain(nodes[i].nodeId, replayed.reason));
      }
      allEvents := Collect(allEvents, nodes[i]);
      assert nodes[..i + 1][..i] == nodes[..i];
    }
    assert nodes[..|nodes|] == nodes;
    return FederationReport(true, |allEvents|, HashEvents(listHash, allEvents), FederationVerified);
  }

  /** `federation_hash_from_live`: the same hash, with no replay first. */
  method LiveHash(listHash: ListHash, nodes: seq<NodeLog>) returns (federationHash: string)
    ensures federationHash == FederationHashOf(listHash, nodes)
  {
    var allEvents: seq<Item> := [];
    for i := 0 to |nodes|
      invariant allEvents == AllItems(nodes[..i])
    {
      allEvents := Collect(allEvents, nodes[i]);
      assert nodes[..i + 1][..i] == nodes[..i];
    }
    assert nodes[..|nodes|] == nodes;
    federationHash := HashEvents(listHash, allEvents);
  }

  method Collect(allEvents: seq<Item>, log: NodeLog) returns (r: seq<Item>)
    ensures r == allEvents + ItemsOf(log)
  {
    r := allEvents;
    for k := 0 to |log.events|
      invariant r == allEvents + ItemsOf(log)[..k]
    {
      r := r + [Item(log.nodeId, log.events[k])];
    }
  }

  // ---- the hash is canonical ----

  ghost predicate DistinctNodes(nodes: seq<NodeLog>) {
    forall i, j :: 0 <= i < j < |nodes| ==> nodes[i].nodeId != nodes[j].nodeId
  }

  ghost predicate AllNumbered(nodes: seq<NodeLog>) {
    forall i :: 0 <= i < |nodes| ==> Numbered(nodes[i].events)
  }

  lemma {:induction false} ItemOrigin(nodes: seq<NodeLog>, x: Item)
    ensures x in AllItems(nodes) <==> exists i :: 0 <= i < |nodes| && x in ItemsOf(nodes[i])
  {
    hide ItemsOf;
    if nodes == [] {
    } else {
      var n := |nodes| - 1;
      ItemOrigin(nodes[..n], x);
      if x in AllItems(nodes[..n]) {
        var i :| 0 <= i < n && x in ItemsOf(nodes[..n][i]);
        assert x in ItemsOf(nodes[i]);
      }
      if i :| 0 <= i < |nodes| && x in ItemsOf(nodes[i]) {
        assert i < n ==> x in ItemsOf(nodes[..n][i]);
      }
    }
  }

  /** Distinct node identifiers and numbered logs make all keys distinct. */
  lemma {:induction false} KeysAreDistinct(nodes: seq<NodeLog>)
    requires DistinctNodes(nodes) && AllNumbered(nodes)
    ensures DistinctKeys(AllItems(nodes))
  {
    if nodes == [] {
    } else {
      var n := |nodes| - 1;
      KeysAreDistinct(nodes[..n]);
      var front, back := AllItems(nodes[..n]), ItemsOf(nodes[n]);
      var all := front + back;
      forall i, j | 0 <= i < j < |all|
        ensures !SameKey(all[i], all[j])
      {
        if j < |front| {
          assert !SameKey(front[i], front[j]);
        } else if i < |front| {
          assert front[i] in front;
          ItemOrigin(nodes[..n], front[i]);
        } else if SameKey(all[i], all[j]) {
          assert Numbered(nodes[n].events);
          SamePosition(nodes[n].events, i - |front|, nodes[n].events, j - |front|);
        }
      }
    }
  }

  lemma ItemsSnoc(nodes: seq<NodeLog>, last: NodeLog)
    ensures multiset(AllItems(nodes + [last])) == multiset(AllItems(nodes)) + multiset(ItemsOf(last))
  {
    assert (nodes + [last])[..|nodes|] == nodes;
  }

  lemma {:induction false} ItemsWithout(nodes: seq<NodeLog>, i: nat)
    requires i < |nodes|
    ensures multiset(AllItems(nodes))
            == multiset(AllItems(nodes[..i] + nodes[i + 1..])) + multiset(ItemsOf(nodes[i]))
  {
    hide ItemsOf, AllItems;
    var n := |nodes| - 1;
    if i == n {
      assert nodes[..i] + nodes[i + 1..] == nodes[..n];
      assert nodes == nodes[..n] + [nodes[n]];
      ItemsSnoc(nodes[..n], nodes[n]);
    } else {
      var front := nodes[..n][..i] + nodes[..n][i + 1..];
      assert nodes[..i] + nodes[i + 1..] == front + [nodes[n]];
      ItemsSnoc(front, nodes[n]);
      ItemsSnoc(nodes[..n], nodes[n]);
      assert nodes == nodes[..n] + [nodes[n]];
      ItemsWithout(nodes[..n], i);
    }
  }

  lemma {:induction false} ItemsIgnoreOrder(nodes: seq<NodeLog>, nodes': seq<NodeLog>)
    requires multiset(nodes) == multiset(nodes')
    ensures multiset(AllItems(nodes)) == multiset(AllItems(nodes'))
  {
    if nodes == [] {
      assert |nodes'| == |multiset(nodes')| == 0;
    } else {
      var n := |nodes| - 1;
      assert nodes == nodes[..n] + [nodes[n]];
      assert nodes[n] in multiset(nodes');
      var i :| 0 <= i < |nodes'| && nodes'[i] == nodes[n];
      var rest := nodes'[..i] + nodes'[i + 1..];
      assert nodes' == nodes'[..i] + [nodes'[i]] + nodes'[i + 1..];
      assert multiset(rest) == multiset(nodes') - multiset{nodes[n]} == multiset(nodes[..n]);
      ItemsIgnoreOrder(nodes[..n], rest);
      ItemsWithout(nodes', i);
    }
  }

  /** The federation hash does not depend on the order in which the nodes are given. */
  lemma HashIgnoresOrder(listHash: ListHash, nodes: seq<NodeLog>, nodes': seq<NodeLog>)
    requires DistinctNodes(nodes) && AllNumbered(nodes) && DistinctNodes(nodes') && AllNumbered(nodes')
    requires multiset(nodes) == multiset(nodes')
    ensures FederationHashOf(listHash, nodes) == FederationHashOf(listHash, nodes')
  {
    ItemsIgnoreOrder(nodes, nodes');
    KeysAreDistinct(nodes);
    KeysAreDistinct(nodes');
    SortedIsOrdered(AllItems(nodes));
    SortedIsOrdered(AllItems(nodes'));
    OrderedIsUnique(Sorted(AllItems(nodes)), Sorted(AllItems(nodes')));
  }

  // ---- what is hashed ----

  /** What is hashed for a federation. */
  function Digested(nodes: seq<NodeLog>): seq<CanonicalEntry> {
    Canonical(Sorted(AllItems(nodes)))
  }

  /** The nodes stand in the string order of their identifiers. */
  ghost predicate InIdOrder(nodes: seq<NodeLog>) {
    forall i, j :: 0 <= i < j < |nodes| ==> Less(nodes[i].nodeId, nodes[j].nodeId)
  }

  /** No log is so long that its last identifiers sort before the others. */
  ghost predicate AllShort(nodes: seq<NodeLog>) {
    forall i :: 0 <= i < |nodes| ==> |nodes[i].events| < 1_0000_0000
  }

  /** How many events the first `i` logs hold. */
  function EventsBefore(nodes: seq<NodeLog>, i: nat): nat
    requires i <= |nodes|
  {
    if i == 0 then 0 else EventsBefore(nodes, i - 1) + |nodes[i - 1].events|
  }

  /** The events of the nodes, log after log, are in the order of the sort key. */
  lemma {:induction false} LogsInOrder(nodes: seq<NodeLog>)
    requires InIdOrder(nodes) && AllShort(nodes) && AllNumbered(nodes)
    ensures Ordered(AllItems(nodes))
  {
    if nodes == [] {
    } else {
      var n := |nodes| - 1;
      LogsInOrder(nodes[..n]);
      var front, back := AllItems(nodes[..n]), ItemsOf(nodes[n]);
      forall i, j | 0 <= i < j < |front + back|
        ensures KeyLess((front + back)[i], (front + back)[j])
      {
        if j < |front| {
          assert KeyLess(front[i], front[j]);
        } else if i < |front| {
          OfEarlierNode(nodes, front[i]);
        } else {
          AppendOrder(nodes[n], i - |front|, j - |front|);
        }
      }
    }
  }

  lemma OfEarlierNode(nodes: seq<NodeLog>, x: Item)
    requires InIdOrder(nodes) && nodes != [] && x in AllItems(nodes[..|nodes| - 1])
    ensures Less(x.nodeId, nodes[|nodes| - 1].nodeId)
  {
    var n := |nodes| - 1;
    ItemOrigin(nodes[..n], x);
    var i :| 0 <= i < n && x in ItemsOf(nodes[..n][i]);
    assert x.nodeId == nodes[i].nodeId;
  }

  lemma AppendOrder(log: NodeLog, i: nat, j: nat)
    requires Numbered(log.events) && |log.events| < 1_0000_0000 && i < j < |log.events|
    ensures KeyLess(ItemsOf(log)[i], ItemsOf(log)[j])
  {
    hide AuditLog.EventId, Less;
    IdOrderExactly(|log.events|);
    assert NumberedAt(log.events, i) && NumberedAt(log.events, j);
  }

  lemma {:induction false} DistinctInOrder(nodes: seq<NodeLog>)
    requires InIdOrder(nodes)
    ensures DistinctNodes(nodes)
  {
    forall i, j | 0 <= i < j < |nodes|
      ensures nodes[i].nodeId != nodes[j].nodeId
    {
      LessIrreflexive(nodes[i].nodeId);
    }
  }

  /** What is hashed for any nodes is what their logs say when the nodes are put in
      the order of their names: whole logs, one after the other, each in the order
      of appending. */
  lemma DigestedIsLogsInOrder(listHash: ListHash, nodes: seq<NodeLog>, arranged: seq<NodeLog>)
    requires multiset(nodes) == multiset(arranged)
    requires InIdOrder(arranged) && AllShort(arranged) && AllNumbered(arranged)
    ensures Digested(nodes) == Canonical(AllItems(arranged))
    ensures FederationHashOf(listHash, nodes) == listHash(Canonical(AllItems(arranged)))
  {
    hide AllItems, Sorted, Canonical, Ordered, InIdOrder, AllShort, AllNumbered;
    SameNodes(nodes, arranged);
    ItemsIgnoreOrder(nodes, arranged);
    KeysAreDistinct(nodes);
    SortedIsOrdered(AllItems(nodes));
    LogsInOrder(arranged);
    OrderedIsUnique(Sorted(AllItems(nodes)), AllItems(arranged));
  }

  /** A rearrangement of nodes has their logs and their distinct names. */
  lemma SameNodes(nodes: seq<NodeLog>, arranged: seq<NodeLog>)
    requires multiset(nodes) == multiset(arranged) && InIdOrder(arranged) && AllNumbered(arranged)
    ensures DistinctNodes(nodes) && AllNumbered(nodes)
  {
    DistinctInOrder(arranged);
    forall i | 0 <= i < |nodes|
      ensures Numbered(nodes[i].events)
    {
      assert nodes[i] in multiset(arranged);
    }
    forall i, j | 0 <= i < j < |nodes|
      ensures nodes[i].nodeId != nodes[j].nodeId
    {
      if nodes[i].nodeId == nodes[j].nodeId {
        assert nodes[i] in multiset(arranged) && nodes[j] in multiset(arranged);
        assert nodes[i] == nodes[j];
        OnceOnly(arranged, nodes[i]);
        TwiceAtLeast(nodes, i, j);
      }
    }
  }

  lemma {:induction false} OnceOnly(nodes: seq<NodeLog>, x: NodeLog)
    requires DistinctNodes(nodes)
    ensures multiset(nodes)[x] <= 1
  {
    if nodes == [] {
    } else {
      var n := |nodes| - 1;
      OnceOnly(nodes[..n], x);
      assert nodes == nodes[..n] + [nodes[n]];
    }
  }

  lemma TwiceAtLeast(nodes: seq<NodeLog>, i: nat, j: nat)
    requires i < j < |nodes| && nodes[i] == nodes[j]
    ensures multiset(nodes)[nodes[i]] >= 2
  {
    assert nodes == nodes[..j] + [nodes[j]] + nodes[j + 1..];
    assert nodes[i] in multiset(nodes[..j]);
  }

  /** Entry by entry: the entry for event `k` of node `i` has its name, number,
      request and hash, behind those of the earlier nodes and events. */
  lemma EntryInPlace(nodes: seq<NodeLog>, i: nat, k: nat)
    requires i < |nodes| && k < |nodes[i].events| && Numbered(nodes[i].events)
    ensures var entries := Canonical(AllItems(nodes));
            var event := nodes[i].events[k];
            && |entries| == EventsBefore(nodes, |nodes|)
            && EventsBefore(nodes, i) + k < |entries|
            && entries[EventsBefore(nodes, i) + k]
               == CanonicalEntry(nodes[i].nodeId, EventId(k + 1), event.payload.requestId, event.eventHash)
  {
    hide AuditLog.EventId, AllItems, ItemsOf;
    assert NumberedAt(nodes[i].events, k);
    assert nodes[..|nodes|] == nodes;
    ItemsLength(nodes, |nodes|);
    ItemInPlace(nodes, |nodes|, i, k);
  }

  lemma {:induction false} ItemInPlace(nodes: seq<NodeLog>, n: nat, i: nat, k: nat)
    requires i < n <= |nodes| && k < |nodes[i].events|
    ensures var items := AllItems(nodes[..n]);
            && EventsBefore(nodes, i) + k < |items|
            && items[EventsBefore(nodes, i) + k] == Item(nodes[i].nodeId, nodes[i].events[k])
  {
    assert nodes[..n][..n - 1] == nodes[..n - 1];
    ItemsLength(nodes, n - 1);
    if i == n - 1 {
    } else {
      ItemInPlace(nodes, n - 1, i, k);
    }
  }

  lemma {:induction false} ItemsLength(nodes: seq<NodeLog>, n: nat)
    requires n <= |nodes|
    ensures |AllItems(nodes[..n])| == EventsBefore(nodes, n)
  {
    if n == 0 {
    } else {
      assert nodes[..n][..n - 1] == nodes[..n - 1];
      ItemsLength(nodes, n - 1);
    }
  }

  // ---- the hash binds every log ----

  /** The log of a node; a node that is not there has the empty log. */
  function LogOf(nodes: seq<NodeLog>, nodeId: string): seq<AuditEvent> {
    if nodes == [] then []
    else if nodes[|nodes| - 1].nodeId == nodeId then nodes[|nodes| - 1].events
    else LogOf(nodes[..|nodes| - 1], nodeId)
  }

  lemma {:induction false} LogOfNode(nodes: seq<NodeLog>, i: nat)
    requires DistinctNodes(nodes) && i < |nodes|
    ensures LogOf(nodes, nodes[i].nodeId) == nodes[i].events
  {
    var n := |nodes| - 1;
    if i == n {
    } else {
      LogOfNode(nodes[..n], i);
    }
  }

  lemma {:induction false} LogOfOrigin(nodes: seq<NodeLog>, nodeId: string)
    ensures || LogOf(nodes, nodeId) == []
            || exists i :: 0 <= i < |nodes| && nodes[i].nodeId == nodeId && nodes[i].events == LogOf(nodes, nodeId)
  {
    if nodes == [] || nodes[|nodes| - 1].nodeId == nodeId {
    } else {
      var n := |nodes| - 1;
      LogOfOrigin(nodes[..n], nodeId);
      if LogOf(nodes, nodeId) != [] {
        var i :| 0 <= i < n && nodes[..n][i].nodeId == nodeId && nodes[..n][i].events == LogOf(nodes, nodeId);
        assert nodes[i].nodeId == nodeId;
      }
    }
  }

  /** What is hashed says, for each event of each log, its position and its hash. */
  lemma DigestedMembers(nodes: seq<NodeLog>, nodeId: string, k: nat)
    requires DistinctNodes(nodes) && AllNumbered(nodes) && k < |LogOf(nodes, nodeId)|
    ensures exists c :: c in Digested(nodes) && c.nodeId == nodeId && c.eventId == EventId(k + 1)
              && c.eventHash == LogOf(nodes, nodeId)[k].eventHash
  {
    hide Sorted, AllItems, DistinctNodes, DistinctKeys, Ordered, LogOf, AuditLog.EventId;
    LogOfOrigin(nodes, nodeId);
    var i :| 0 <= i < |nodes| && nodes[i].nodeId == nodeId && nodes[i].events == LogOf(nodes, nodeId);
    var x := ItemsOf(nodes[i])[k];
    assert x in ItemsOf(nodes[i]);
    ItemOrigin(nodes, x);
    KeysAreDistinct(nodes);
    SortedIsOrdered(AllItems(nodes));
    assert x in multiset(Sorted(AllItems(nodes)));
    var m :| 0 <= m < |Sorted(AllItems(nodes))| && Sorted(AllItems(nodes))[m] == x;
    assert Numbered(nodes[i].events) && NumberedAt(nodes[i].events, k);
    assert Digested(nodes)[m] in Digested(nodes);
  }

  /** Every hashed entry comes from an event of some log. */
  lemma DigestedSource(nodes: seq<NodeLog>, c: CanonicalEntry) returns (i: nat, p: nat)
    requires DistinctNodes(nodes) && AllNumbered(nodes) && c in Digested(nodes)
    ensures i < |nodes| && p < |nodes[i].events| && c.nodeId == nodes[i].nodeId
    ensures c.eventId == nodes[i].events[p].payload.eventId && c.eventHash == nodes[i].events[p].eventHash
  {
    hide Sorted, AllItems, DistinctNodes, AllNumbered, DistinctKeys, Ordered;
    var items := Sorted(AllItems(nodes));
    var m :| 0 <= m < |items| && Digested(nodes)[m] == c;
    KeysAreDistinct(nodes);
    SortedIsOrdered(AllItems(nodes));
    assert items[m] in multiset(AllItems(nodes));
    ItemOrigin(nodes, items[m]);
    i :| 0 <= i < |nodes| && items[m] in ItemsOf(nodes[i]);
    p :| 0 <= p < |nodes[i].events| && ItemsOf(nodes[i])[p] == items[m];
  }

  /** And nothing else: an entry for a node and an event number is that event's. */
  lemma DigestedOrigin(nodes: seq<NodeLog>, c: CanonicalEntry, k: nat)
    requires DistinctNodes(nodes) && AllNumbered(nodes)
    requires c in Digested(nodes) && c.eventId == EventId(k + 1)
    ensures k < |LogOf(nodes, c.nodeId)| && LogOf(nodes, c.nodeId)[k].eventHash == c.eventHash
  {
    hide Digested, EventId, LogOf;
    var i, p := DigestedSource(nodes, c);
    assert Numbered(nodes[i].events) && NumberedAt(nodes[i].events, p);
    EventIdInjective(p + 1, k + 1);
    LogOfNode(nodes, i);
  }

  /** Where two logs of one node agree on their hashes they agree altogether,
      or two of their events, at one position, collide. */
  lemma SameHashesSameLog(hash: Hash, a: seq<AuditEvent>, b: seq<AuditEvent>)
    requires ChainValid(hash, a) && ChainValid(hash, b)
    requires |a| == |b| && forall k :: 0 <= k < |a| ==> a[k].eventHash == b[k].eventHash
    ensures a == b || CollisionBetween(hash, a, b)
  {
    if a != b {
      var k :| 0 <= k < |a| && a[k] != b[k];
      assert Intact(hash, a, k) && Intact(hash, b, k);
      assert Collide(hash, a[k], b[k]);
    }
  }

  lemma EventCarriesOver(nodes: seq<NodeLog>, nodes': seq<NodeLog>, nodeId: string, k: nat)
    requires DistinctNodes(nodes) && AllNumbered(nodes) && DistinctNodes(nodes') && AllNumbered(nodes')
    requires Digested(nodes) == Digested(nodes') && k < |LogOf(nodes, nodeId)|
    ensures k < |LogOf(nodes', nodeId)| && LogOf(nodes', nodeId)[k].eventHash == LogOf(nodes, nodeId)[k].eventHash
  {
    DigestedMembers(nodes, nodeId, k);
    var c :| c in Digested(nodes) && c.nodeId == nodeId && c.eventId == EventId(k + 1)
             && c.eventHash == LogOf(nodes, nodeId)[k].eventHash;
    DigestedOrigin(nodes', c, k);
  }

  lemma SameDigestedSameHashes(nodes: seq<NodeLog>, nodes': seq<NodeLog>, nodeId: string)
    requires DistinctNodes(nodes) && AllNumbered(nodes) && DistinctNodes(nodes') && AllNumbered(nodes')
    requires Digested(nodes) == Digested(nodes')
    ensures var a, b := LogOf(nodes, nodeId), LogOf(nodes', nodeId);
            && |a| == |b|
            && forall k :: 0 <= k < |a| ==> a[k].eventHash == b[k].eventHash
  {
    hide Digested;
    var a, b := LogOf(nodes, nodeId), LogOf(nodes', nodeId);
    if |a| > |b| {
      EventCarriesOver(nodes, nodes', nodeId, |b|);
    }
    if |b| > |a| {
      EventCarriesOver(nodes', nodes, nodeId, |a|);
    }
    forall k | 0 <= k < |a|
      ensures a[k].eventHash == b[k].eventHash
    {
      EventCarriesOver(nodes, nodes', nodeId, k);
    }
  }

  /** Equal federation hashes bind every log: for each node identifier the two
      logs are equal, or two events of theirs collide; unless the two lists that
      were hashed are themselves a collision. */
  lemma HashBindsLogs(hash: Hash, listHash: ListHash, nodes: seq<NodeLog>, nodes': seq<NodeLog>, nodeId: string)
    requires DistinctNodes(nodes) && AllNumbered(nodes) && DistinctNodes(nodes') && AllNumbered(nodes')
    requires forall i :: 0 <= i < |nodes| ==> ChainValid(hash, nodes[i].events)
    requires forall i :: 0 <= i < |nodes'| ==> ChainValid(hash, nodes'[i].events)
    requires FederationHashOf(listHash, nodes) == FederationHashOf(listHash, nodes')
    ensures || LogOf(nodes, nodeId) == LogOf(nodes', nodeId)
            || CollisionBetween(hash, LogOf(nodes, nodeId), LogOf(nodes', nodeId))
            || (Digested(nodes) != Digested(nodes') && listHash(Digested(nodes)) == listHash(Digested(nodes')))
  {
    if Digested(nodes) == Digested(nodes') {
      SameDigestedSameHashes(nodes, nodes', nodeId);
      LogOfOrigin(nodes, nodeId);
      LogOfOrigin(nodes', nodeId);
      SameHashesSameLog(hash, LogOf(nodes, nodeId), LogOf(nodes', nodeId));
    }
  }

  // ---- event identifiers as sort keys ----

  /** The order of the first `n` event identifiers as strings is the order of appending. */
  ghost predicate IdsInOrder(n: nat) {
    forall a, b :: 1 <= a < b <= n ==> Less(EventId(a), EventId(b))
  }

  /** String order is append order for logs of fewer than ten to the eighth
      events, and for no longer log. */
  lemma IdOrderExactly(n: nat)
    ensures IdsInOrder(n) <==> n < 1_0000_0000
  {
    if n < 1_0000_0000 {
      forall a, b | 1 <= a < b <= n
        ensures Less(EventId(a), EventId(b))
      {
        EightDigits(a);
        EightDigits(b);
        ZeroPaddedRoundTrip(8, a);
        ZeroPaddedRoundTrip(8, b);
        EqualLengthOrder(ZeroPadded(8, a), ZeroPadded(8, b));
        LessSharedPrefix("evt-", ZeroPadded(8, a), ZeroPadded(8, b));
      }
    } else {
      NineDigitsComeFirst();
      var a, b := 9999_9999, 1_0000_0000;
      assert !Less(EventId(a), EventId(b));
    }
  }

  lemma EightDigits(n: nat)
    requires n < 1_0000_0000
    ensures |ZeroPadded(8, n)| == 8
  {
    assert Pow10(8) == 1_0000_0000;
    DecimalLength(n, 8);
  }

  lemma NineDigitsComeFirst()
    ensures Less(EventId(1_0000_0000), EventId(9999_9999))
    ensures !Less(EventId(9999_9999), EventId(1_0000_0000))
  {
    var a, b := ZeroPadded(8, 9999_9999), ZeroPadded(8, 1_0000_0000);
    FirstDigit(1_0000_0000);
    FirstDigit(9999_9999);
    LessSharedPrefix("evt-", b, a);
    LessSharedPrefix("evt-", a, b);
  }

  /** A number whose digits are all that is printed starts with a non-zero digit
      that its magnitude determines. */
  lemma FirstDigit(n: nat)
    requires n == 1_0000_0000 || n == 9999_9999
    ensures ZeroPadded(8, n)[0] == if n == 1_0000_0000 then '1' else '9'
  {
    assert Pow10(7) == 1000_0000;
    DecimalLength(n, 7);
    LeadingChar(n);
  }

  function LeadingDigit(n: nat): nat {
    if n < 10 then n else LeadingDigit(n / 10)
  }

  lemma {:induction false} LeadingChar(n: nat)
    ensures LeadingDigit(n) < 10 && Decimal(n)[0] == DigitChar(LeadingDigit(n))
  {
    if n < 10 {
    } else {
      LeadingChar(n / 10);
    }
  }
}
