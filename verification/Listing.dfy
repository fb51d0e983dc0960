/** Listing the nodes: the bucket in key order, sorted in place by creation time, newest first. */
module Listing {
  import opened Nodes
  import opened Store

  // ---- the order of keys in the bucket ----

  predicate Less(a: string, b: string)
  {
    b != "" && (a == "" || a[0] < b[0] || (a[0] == b[0] && Less(a[1..], b[1..])))
  }

  // The order of bytes: a key comes before those that it is a proper prefix of, and before those that are greater at the
  // first character in which they differ.
  lemma {:induction false} LessIff(a: string, b: string)
    ensures Less(a, b) <==> exists i :: DiffersAt(a, b, i)
  {
    if a == "" || b == "" || a[0] != b[0] {
      if b != "" && (a == "" || a[0] < b[0]) {
        assert DiffersAt(a, b, 0);
      }
    } else {
      LessIff(a[1..], b[1..]);
      assert a == [a[0]] + a[1..] && b == [b[0]] + b[1..];
      if Less(a[1..], b[1..]) {
        var i :| DiffersAt(a[1..], b[1..], i);
        assert DiffersAt(a, b, i + 1);
      }
      if i :| DiffersAt(a, b, i) {
        assert DiffersAt(a[1..], b[1..], i - 1);
      }
    }
  }

  // The keys agree up to there, and the first one ends or is smaller.
  predicate DiffersAt(a: string, b: string, i: int)
  {
    0 <= i <= |a| && i < |b| && a[..i] == b[..i] && (i == |a| || a[i] < b[i])
  }

  lemma {:induction false} LessTotal(a: string, b: string)
    ensures Less(a, b) || Less(b, a) || a == b
    ensures !(Less(a, b) && Less(b, a)) && !Less(a, a)
  {
    if a != "" {
      LessTotal(a[1..], a[1..]);
      if b != "" && a[0] == b[0] {
        LessTotal(a[1..], b[1..]);
        assert a == [a[0]] + a[1..] && b == [b[0]] + b[1..];
      }
    }
  }

  lemma {:induction false} LessTransitive(a: string, b: string, c: string)
    requires Less(a, b) && Less(b, c)
    ensures Less(a, c)
  {
    if a != "" && a[0] == b[0] == c[0] {
      LessTransitive(a[1..], b[1..], c[1..]);
    }
  }

  ghost predicate MacsAscend(nodes: seq<Record>)
  {
    forall p, q | 0 <= p < q < |nodes| :: Less(nodes[p].mac, nodes[q].mac)
  }

  // The records of the bucket, each once.
  ghost predicate AreRecords(store: Bucket, nodes: seq<Record>)
  {
    && (forall i | 0 <= i < |nodes| :: nodes[i].mac in store && store[nodes[i].mac] == nodes[i])
    && (forall k | k in store :: exists i :: 0 <= i < |nodes| && nodes[i].mac == k)
  }

  method LeastKey(keys: set<string>) returns (least: string)
    requires keys != {}
    ensures least in keys && forall k | k in keys && k != least :: Less(least, k)
  {
    least :| least in keys;
    var rest := keys - {least};
    while rest != {}
      invariant rest <= keys && least in keys
      invariant forall k | k in keys && k !in rest && k != least :: Less(least, k)
      decreases |rest|
    {
      var k :| k in rest;
      rest := rest - {k};
      LessTotal(k, least);
      if Less(k, least) {
        forall x | x in keys && x !in rest && x != k && x != least
          ensures Less(k, x)
        {
          LessTransitive(k, least, x);
        }
        least := k;
      }
    }
  }

  // The database's ForEach visits the keys in ascending order.
  method ForEach(store: Bucket) returns (nodes: seq<Record>)
    requires forall k | k in store :: store[k].mac == k
    ensures AreRecords(store, nodes) && MacsAscend(nodes)
  {
    nodes := [];
    var keys := store.Keys;
    while keys != {}
      invariant keys <= store.Keys
      invariant MacsAscend(nodes)
      invariant forall i | 0 <= i < |nodes| :: nodes[i].mac in store && store[nodes[i].mac] == nodes[i]
      invariant forall k | k in store && k !in keys :: exists i :: 0 <= i < |nodes| && nodes[i].mac == k
      invariant forall i, k | 0 <= i < |nodes| && k in keys :: Less(nodes[i].mac, k)
      decreases |keys|
    {
      var k := LeastKey(keys);
      ghost var before := nodes;
      nodes := nodes + [store[k]];
      assert nodes[|before|].mac == k;
      assert forall i | 0 <= i < |before| :: nodes[i] == before[i];
      keys := keys - {k};
    }
  }

  // ---- the sort ----

  ghost predicate NewestFirst(nodes: seq<Record>)
  {
    forall p, q | 0 <= p < q < |nodes| :: nodes[p].createdAt >= nodes[q].createdAt
  }

  // The nodes created at one time, in the order in which they stand.
  ghost function CreatedAt(nodes: seq<Record>, t: int): seq<Record>
  {
    if nodes == [] then []
    else
      CreatedAt(nodes[..|nodes| - 1], t)
      + if nodes[|nodes| - 1].createdAt == t then [nodes[|nodes| - 1]] else []
  }

  // Nodes of the same creation time keep their order: the sequences are permutations of each other, and stable ones.
  ghost predicate SameRuns(a: seq<Record>, b: seq<Record>)
  {
    forall t :: CreatedAt(a, t) == CreatedAt(b, t)
  }

  lemma {:induction false} CreatedAtConcat(a: seq<Record>, b: seq<Record>, t: int)
    ensures CreatedAt(a + b, t) == CreatedAt(a, t) + CreatedAt(b, t)
  {
    if b == [] {
      assert a + b == a;
    } else {
      var n := |b| - 1;
      CreatedAtConcat(a, b[..n], t);
      assert (a + b)[..|a| + n] == a + b[..n];
    }
  }

  function Swapped(s: seq<Record>, j: nat): seq<Record>
    requires j + 1 < |s|
  {
    s[j := s[j + 1]][j + 1 := s[j]]
  }

  // Swapping neighbours of different creation times disturbs no run.
  lemma SwapKeepsRuns(s: seq<Record>, j: nat)
    requires j + 1 < |s| && s[j].createdAt != s[j + 1].createdAt
    ensures SameRuns(Swapped(s, j), s)
  {
    hide CreatedAt;
    var a, x, y, b := s[..j], s[j], s[j + 1], s[j + 2..];
    assert s == a + [x, y] + b && Swapped(s, j) == a + [y, x] + b;
    forall t
      ensures CreatedAt(Swapped(s, j), t) == CreatedAt(s, t)
    {
      CreatedAtConcat(a + [x, y], b, t);
      CreatedAtConcat(a, [x, y], t);
      CreatedAtConcat(a + [y, x], b, t);
      CreatedAtConcat(a, [y, x], t);
      PairRun(x, y, t);
      PairRun(y, x, t);
    }
  }

  lemma PairRun(x: Record, y: Record, t: int)
    ensures CreatedAt([x, y], t) == (if x.createdAt == t then [x] else []) + (if y.createdAt == t then [y] else [])
  {
    assert [x, y][..1] == [x];
    assert [x][..0] == [];
    assert CreatedAt([x], t) == CreatedAt([], t) + if x.createdAt == t then [x] else [];
  }

  // The bubble sort: neighbours change places only when the left one was created strictly before the right one.
  method SortNodes(nodes: array<Record>)
    modifies nodes
    ensures NewestFirst(nodes[..])
    ensures SameRuns(nodes[..], old(nodes[..]))
  {
    hide CreatedAt;
    var n := nodes.Length;
    var i := 0;
    while i < n - 1
      invariant 0 <= i && (n > 0 ==> i <= n - 1)
      invariant SameRuns(nodes[..], old(nodes[..]))
      invariant forall p, q | 0 <= p < q < n && n - i <= q :: nodes[p].createdAt >= nodes[q].createdAt
    {
      var j := 0;
      while j < n - i - 1
        invariant 0 <= j <= n - i - 1
        invariant SameRuns(nodes[..], old(nodes[..]))
        invariant forall p, q | 0 <= p < q < n && n - i <= q :: nodes[p].createdAt >= nodes[q].createdAt
        invariant forall p | 0 <= p < j :: nodes[p].createdAt >= nodes[j].createdAt
      {
        if nodes[j].createdAt < nodes[j + 1].createdAt {
          SwapKeepsRuns(nodes[..], j);
          ghost var before := nodes[..];
          nodes[j], nodes[j + 1] := nodes[j + 1], nodes[j];
          assert nodes[..] == Swapped(before, j);
        }
        j := j + 1;
      }
      i := i + 1;
    }
  }

  // Newest first and stable leaves no choice: the result is determined by the input.
  lemma {:induction false} StableSortUnique(a: seq<Record>, b: seq<Record>)
    requires NewestFirst(a) && NewestFirst(b) && SameRuns(a, b)
    ensures a == b
    decreases |a| + |b|
  {
    if a == [] && b == [] {
    } else {
      SameOldest(a, b);
      var n, m := |a| - 1, |b| - 1;
      forall t
        ensures CreatedAt(a[..n], t) == CreatedAt(b[..m], t)
      {
        assert CreatedAt(a, t) == CreatedAt(b, t);
        RunOfFront(a, t);
        RunOfFront(b, t);
      }
      StableSortUnique(a[..n], b[..m]);
      assert a == a[..n] + [a[n]] && b == b[..m] + [b[m]];
    }
  }

  lemma {:induction false} InItsRun(a: seq<Record>, p: nat)
    requires p < |a|
    ensures a[p] in CreatedAt(a, a[p].createdAt)
  {
    if p < |a| - 1 {
      InItsRun(a[..|a| - 1], p);
    }
  }

  lemma {:induction false} RunIsPart(a: seq<Record>, t: int, x: Record)
    requires x in CreatedAt(a, t)
    ensures x in a && x.createdAt == t
  {
    if x !in CreatedAt(a[..|a| - 1], t) {
    } else {
      RunIsPart(a[..|a| - 1], t, x);
    }
  }

  // The oldest node of one sequence lies in the other, whose last node is no younger.
  lemma OldestBound(a: seq<Record>, b: seq<Record>)
    requires NewestFirst(b) && SameRuns(a, b) && a != []
    ensures b != [] && b[|b| - 1].createdAt <= a[|a| - 1].createdAt
  {
    var x := a[|a| - 1];
    InItsRun(a, |a| - 1);
    assert x in CreatedAt(b, x.createdAt);
    RunIsPart(b, x.createdAt, x);
  }

  lemma LastOfRun(a: seq<Record>)
    requires a != []
    ensures var run := CreatedAt(a, a[|a| - 1].createdAt); run != [] && run[|run| - 1] == a[|a| - 1]
  {
  }

  lemma SameOldest(a: seq<Record>, b: seq<Record>)
    requires NewestFirst(a) && NewestFirst(b) && SameRuns(a, b) && (a != [] || b != [])
    ensures a != [] && b != [] && a[|a| - 1] == b[|b| - 1]
  {
    hide CreatedAt;
    if a != [] {
      OldestBound(a, b);
    }
    if b != [] {
      OldestBound(b, a);
    }
    LastOfRun(a);
    LastOfRun(b);
    assert CreatedAt(a, a[|a| - 1].createdAt) == CreatedAt(b, a[|a| - 1].createdAt);
  }

  lemma RunOfFront(a: seq<Record>, t: int)
    requires a != []
    ensures var run, front := CreatedAt(a, t), CreatedAt(a[..|a| - 1], t);
            front == if a[|a| - 1].createdAt == t then run[..|run| - 1] else run
  {
  }

  // ---- List ----

  ghost predicate Before(x: Record, y: Record)
  {
    x.createdAt > y.createdAt || (x.createdAt == y.createdAt && Less(x.mac, y.mac))
  }

  // Strictly by creation time, newest first, and by address within one time.
  ghost predicate ListOrder(nodes: seq<Record>)
  {
    forall p, q | 0 <= p < q < |nodes| :: Before(nodes[p], nodes[q])
  }

  lemma {:induction false} RunsAscend(a: seq<Record>, t: int)
    requires MacsAscend(a)
    ensures MacsAscend(CreatedAt(a, t))
  {
    if a != [] {
      var n := |a| - 1;
      RunsAscend(a[..n], t);
      forall x | x in CreatedAt(a[..n], t)
        ensures Less(x.mac, a[n].mac)
      {
        RunIsPart(a[..n], t, x);
      }
    }
  }

  lemma {:induction false} AscendingRunOrders(a: seq<Record>, p: nat, q: nat)
    requires p < q < |a| && a[p].createdAt == a[q].createdAt
    requires MacsAscend(CreatedAt(a, a[q].createdAt))
    ensures Less(a[p].mac, a[q].mac)
  {
    var n, t := |a| - 1, a[q].createdAt;
    var run := CreatedAt(a[..n], t);
    assert run == CreatedAt(a, t)[..|run|];
    if q < n {
      AscendingRunOrders(a[..n], p, q);
    } else {
      InItsRun(a[..n], p);
      var i :| 0 <= i < |run| && run[i] == a[p];
      assert CreatedAt(a, t)[i] == a[p] && CreatedAt(a, t)[|run|] == a[q];
    }
  }

  lemma SortedRunsAreOrdered(visited: seq<Record>, nodes: seq<Record>)
    requires MacsAscend(visited) && NewestFirst(nodes) && SameRuns(nodes, visited)
    ensures ListOrder(nodes)
    ensures forall x :: x in nodes <==> x in visited
  {
    forall p, q | 0 <= p < q < |nodes|
      ensures Before(nodes[p], nodes[q])
    {
      if nodes[p].createdAt == nodes[q].createdAt {
        RunsAscend(visited, nodes[q].createdAt);
        assert CreatedAt(nodes, nodes[q].createdAt) == CreatedAt(visited, nodes[q].createdAt);
        AscendingRunOrders(nodes, p, q);
      }
    }
    forall x | x in nodes
      ensures x in visited
    {
      SameRunsSameNodes(nodes, visited, x);
    }
    forall x | x in visited
      ensures x in nodes
    {
      SameRunsSameNodes(visited, nodes, x);
    }
  }

  lemma SameRunsSameNodes(a: seq<Record>, b: seq<Record>, x: Record)
    requires SameRuns(a, b) && x in a
    ensures x in b
  {
    var p :| 0 <= p < |a| && a[p] == x;
    InItsRun(a, p);
    assert CreatedAt(a, x.createdAt) == CreatedAt(b, x.createdAt);
    RunIsPart(b, x.createdAt, x);
  }

  // List returns the bucket's records, each exactly once, in the one order there is (see ListUnique).
  method List(store: Bucket) returns (nodes: seq<Record>)
    requires WellFormed(store)
    ensures AreRecords(store, nodes) && ListOrder(nodes)
  {
    var visited := ForEach(store);
    var slice := new Record[|visited|](i requires 0 <= i < |visited| => visited[i]);
    assert slice[..] == visited;
    SortNodes(slice);
    nodes := slice[..];
    SortedRunsAreOrdered(visited, nodes);
    RecordsAgain(store, visited, nodes);
  }

  lemma RecordsAgain(store: Bucket, visited: seq<Record>, nodes: seq<Record>)
    requires AreRecords(store, visited) && forall x :: x in nodes <==> x in visited
    ensures AreRecords(store, nodes)
  {
    forall i | 0 <= i < |nodes|
      ensures nodes[i].mac in store && store[nodes[i].mac] == nodes[i]
    {
      assert nodes[i] in visited;
    }
    forall k | k in store
      ensures exists i :: 0 <= i < |nodes| && nodes[i].mac == k
    {
      var i :| 0 <= i < |visited| && visited[i].mac == k;
      assert visited[i] in nodes;
    }
  }

  lemma BeforeIsStrict(x: Record, y: Record)
    ensures !(Before(x, y) && Before(y, x)) && !Before(x, x)
  {
    LessTotal(x.mac, y.mac);
    LessTotal(x.mac, x.mac);
  }

  // Any two lists that hold the bucket's records in that order are equal.
  lemma {:induction false} ListUnique(a: seq<Record>, b: seq<Record>)
    requires ListOrder(a) && ListOrder(b)
    requires forall x :: x in a <==> x in b
    ensures a == b
    decreases |a|
  {
    assert forall i | 0 <= i < |a| :: a[i] in b;
    assert forall i | 0 <= i < |b| :: b[i] in a;
    if a != [] {
      assert a[0] in b && b[0] in a;
      BeforeIsStrict(a[0], b[0]);
      assert a[0] == b[0];
      forall x
        ensures x in a[1..] <==> x in b[1..]
      {
        BeforeIsStrict(x, x);
        assert x in a <==> x == a[0] || x in a[1..];
        assert x in b <==> x == b[0] || x in b[1..];
      }
      ListUnique(a[1..], b[1..]);
    }
  }

  // ---- ListByStatus ----

  function WithStatus(nodes: seq<Record>, status: Status): seq<Record>
  {
    if nodes == [] then []
    else
      WithStatus(nodes[..|nodes| - 1], status)
      + if nodes[|nodes| - 1].status == status then [nodes[|nodes| - 1]] else []
  }

  method ListByStatus(store: Bucket, status: Status) returns (result: seq<Record>)
    requires WellFormed(store)
    ensures exists all :: AreRecords(store, all) && ListOrder(all) && result == WithStatus(all, status)
    ensures ListOrder(result)
    ensures forall x :: x in result <==> x.mac in store && store[x.mac] == x && x.status == status
  {
    hide ListOrder, AreRecords, WellFormed;
    var all := List(store);
    result := [];
    for i := 0 to |all|
      invariant result == WithStatus(all[..i], status)
    {
      assert all[..i + 1][..i] == all[..i];
      if all[i].status == status {
        result := result + [all[i]];
      }
    }
    assert all[..|all|] == all;
    FilterKeepsOrder(all, status);
    RecordsAreAll(store, all);
  }

  lemma RecordsAreAll(store: Bucket, nodes: seq<Record>)
    requires AreRecords(store, nodes)
    ensures forall x :: x in nodes <==> x.mac in store && store[x.mac] == x
  {
    forall k | k in store
      ensures store[k] in nodes
    {
      var i :| 0 <= i < |nodes| && nodes[i].mac == k;
    }
  }

  lemma {:induction false} FilterKeepsOrder(nodes: seq<Record>, status: Status)
    requires ListOrder(nodes)
    ensures ListOrder(WithStatus(nodes, status))
    ensures forall x :: x in WithStatus(nodes, status) <==> x in nodes && x.status == status
  {
    if nodes != [] {
      var n := |nodes| - 1;
      FilterKeepsOrder(nodes[..n], status);
      assert forall x :: x in nodes <==> x in nodes[..n] || x == nodes[n];
    }
  }

  ghost function Shares(nodes: seq<Record>): multiset<Record>
  {
    multiset(WithStatus(nodes, Discovered)) + multiset(WithStatus(nodes, Installing))
    + multiset(WithStatus(nodes, Installed))
  }

  // The three lists by status share out the whole list.
  lemma {:induction false} StatusesShareList(nodes: seq<Record>)
    requires forall x | x in nodes :: IsValidStatus(x.status)
    ensures multiset(nodes) == Shares(nodes)
  {
    if nodes != [] {
      hide Shares;
      MultisetLast(nodes);
      SharesLast(nodes);
      StatusesShareList(nodes[..|nodes| - 1]);
    } else {
      assert Shares([]) == multiset{};
    }
  }

  lemma MultisetLast<T>(s: seq<T>)
    requires s != []
    ensures multiset(s) == multiset(s[..|s| - 1]) + multiset{s[|s| - 1]}
  {
    assert s == s[..|s| - 1] + [s[|s| - 1]];
  }

  lemma SharesLast(nodes: seq<Record>)
    requires nodes != [] && IsValidStatus(nodes[|nodes| - 1].status)
    ensures Shares(nodes) == Shares(nodes[..|nodes| - 1]) + multiset{nodes[|nodes| - 1]}
  {
  }

}
