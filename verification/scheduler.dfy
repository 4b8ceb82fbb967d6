/** Kahn's topological sort as `Graph::topologicalSort` performs it
    (src/implementation/graph.cpp), over an adjacency list: `adj[u]` lists the
    consumers of node `u`'s outputs, one entry per link, duplicates kept. */
module Scheduler {
  import opened Results

  type Adjacency = seq<seq<nat>>

  /** Every edge ends at a node of the graph. */
  ghost predicate Closed(adj: Adjacency) {
    forall u, k :: 0 <= u < |adj| && 0 <= k < |adj[u]| ==> adj[u][k] < |adj|
  }

  ghost predicate DistinctNodes(s: seq<nat>) {
    forall j, k :: 0 <= j < k < |s| ==> s[j] != s[k]
  }

  /** A linearisation containing every node exactly once in which every
      producer comes before each of its consumers. */
  ghost predicate IsTopologicalOrder(adj: Adjacency, ord: seq<nat>) {
    && |ord| == |adj|
    && (forall k :: 0 <= k < |ord| ==> ord[k] < |adj|)
    && (forall v :: 0 <= v < |adj| ==> v in ord)
    && DistinctNodes(ord)
    && (forall i, j :: 0 <= i < |ord| && 0 <= j < |ord| && ord[j] in adj[ord[i]] ==> i < j)
  }

  /** A non-empty set of nodes each of which has a producer inside the set:
      following producers backwards never leaves it, so it contains a
      cycle. */
  ghost predicate CycleWitness(adj: Adjacency, s: set<nat>) {
    && s != {}
    && (forall v :: v in s ==> v < |adj|)
    && (forall v {:trigger FedFrom(adj, s, v)} :: v in s ==> FedFrom(adj, s, v))
  }

  /** Some node of `s` feeds `v`. */
  ghost predicate FedFrom(adj: Adjacency, s: set<nat>, v: nat) {
    exists u :: u in s && u < |adj| && v in adj[u]
  }

  ghost predicate HasCycle(adj: Adjacency) {
    exists s :: CycleWitness(adj, s)
  }

  /** Number of edges into `v` from nodes below `k` that are not in `done`. */
  ghost function Pending(adj: Adjacency, done: set<nat>, v: nat, k: nat): nat
    requires k <= |adj|
  {
    if k == 0 then 0
    else Pending(adj, done, v, k - 1) + (if k - 1 in done then 0 else multiset(adj[k - 1])[v])
  }

  /** Marking `x` done removes exactly its edges from the count. */
  lemma {:induction false} PendingMarkDone(adj: Adjacency, done: set<nat>, x: nat, v: nat, k: nat)
    requires k <= |adj| && x !in done
    ensures Pending(adj, done + {x}, v, k) + (if x < k then multiset(adj[x])[v] else 0)
            == Pending(adj, done, v, k)
  {
    if k > 0 {
      PendingMarkDone(adj, done, x, v, k - 1);
    }
  }

  /** No pending edges into `v` means no node outside `done` feeds `v`. */
  lemma {:induction false} PendingZero(adj: Adjacency, done: set<nat>, v: nat, k: nat)
    requires k <= |adj|
    ensures Pending(adj, done, v, k) == 0 <==>
            forall u :: 0 <= u < k && u !in done ==> v !in adj[u]
  {
    if k > 0 {
      PendingZero(adj, done, v, k - 1);
      if k - 1 !in done {
        assert v in adj[k - 1] <==> multiset(adj[k - 1])[v] > 0;
      }
    }
  }

  /** The node positions 0 .. n-1. */
  ghost function Range(n: nat): (r: set<nat>)
    ensures forall v: nat :: v in r <==> v < n
    ensures |r| == n
  {
    if n == 0 then {}
    else
      var r := Range(n - 1);
      assert n - 1 !in r;
      r + {n - 1}
  }

  lemma {:induction false} SubsetSize<T>(a: set<T>, b: set<T>)
    requires a <= b
    ensures |a| <= |b|
    ensures |a| == |b| ==> a == b
    decreases b
  {
    if a != {} {
      var x :| x in a;
      SubsetSize(a - {x}, b - {x});
      assert |a - {x}| == |a| - 1;
      assert |b - {x}| == |b| - 1;
      if |a| == |b| {
        assert a - {x} == b - {x};
        assert a == (a - {x}) + {x};
        assert b == (b - {x}) + {x};
      }
    } else if b != {} {
      var y :| y in b;
      assert |b| >= 1 by {
        assert {y} <= b;
        assert |b - {y}| == |b| - 1;
      }
    }
  }

  /** The first position of `ord` holding a member of `s`. */
  lemma {:induction false} FirstIn(ord: seq<nat>, s: set<nat>) returns (j: nat)
    requires exists i :: 0 <= i < |ord| && ord[i] in s
    ensures j < |ord| && ord[j] in s
    ensures forall i :: 0 <= i < j ==> ord[i] !in s
  {
    if ord[0] in s {
      j := 0;
    } else {
      var i :| 0 <= i < |ord| && ord[i] in s;
      assert ord[1..][i - 1] == ord[i];
      var j' := FirstIn(ord[1..], s);
      j := j' + 1;
      forall i | 0 <= i < j
        ensures ord[i] !in s
      {
        if i > 0 {
          assert ord[i] == ord[1..][i - 1];
        }
      }
    }
  }

  /** In a topological order, the earliest member of a set has no producer
      inside that set. */
  lemma EarliestHasNoProducer(adj: Adjacency, s: set<nat>, ord: seq<nat>, j: nat)
    requires IsTopologicalOrder(adj, ord)
    requires j < |ord| && forall i :: 0 <= i < j ==> ord[i] !in s
    ensures !FedFrom(adj, s, ord[j])
  {
    forall u | u in s && u < |adj|
      ensures ord[j] !in adj[u]
    {
      assert u in ord;
      var i :| 0 <= i < |ord| && ord[i] == u;
    }
  }

  /** A graph that has a topological order has no cycle. */
  lemma TopologicalOrderExcludesCycle(adj: Adjacency, ord: seq<nat>)
    requires IsTopologicalOrder(adj, ord)
    ensures !HasCycle(adj)
  {
    forall s: set<nat>
      ensures !CycleWitness(adj, s)
    {
      if s != {} && forall v :: v in s ==> v < |adj| {
        var v :| v in s;
        assert v in ord;
        var j := FirstIn(ord, s);
        EarliestHasNoProducer(adj, s, ord, j);
      }
    }
  }

  /** A two-node cycle, A feeds B and B feeds A, is a cycle. */
  lemma TwoNodeCycle(adj: Adjacency)
    requires |adj| >= 2 && 1 in adj[0] && 0 in adj[1]
    ensures HasCycle(adj)
  {
    assert CycleWitness(adj, {0, 1});
  }

  /** Step 1 of `topologicalSort`: the in-degree of every node, counting one
      per link. */
  method InDegrees(adj: Adjacency) returns (indeg: seq<int>)
    requires Closed(adj)
    ensures |indeg| == |adj|
    ensures forall v :: 0 <= v < |adj| ==> indeg[v] == Pending(adj, {}, v, |adj|)
  {
    var n := |adj|;
    indeg := seq(n, _ => 0);
    var u := 0;
    while u < n
      invariant 0 <= u <= n && |indeg| == n
      invariant forall v :: 0 <= v < n ==> indeg[v] == Pending(adj, {}, v, u)
    {
      var j := 0;
      while j < |adj[u]|
        invariant 0 <= j <= |adj[u]| && |indeg| == n
        invariant forall v :: 0 <= v < n ==> indeg[v] == Pending(adj, {}, v, u) + multiset(adj[u][..j])[v]
      {
        var w := adj[u][j];
        assert adj[u][..j + 1] == adj[u][..j] + [w];
        indeg := indeg[w := indeg[w] + 1];
        j := j + 1;
      }
      assert adj[u][..|adj[u]|] == adj[u];
      u := u + 1;
    }
  }

  /** Step 2: a queue holding each in-degree-zero node once, in an unspecified
      order (the source iterates an `unordered_map`). */
  method SeedQueue(indeg: seq<int>) returns (queue: seq<nat>)
    ensures DistinctNodes(queue)
    ensures forall k :: 0 <= k < |queue| ==> queue[k] < |indeg| && indeg[queue[k]] == 0
    ensures forall v :: 0 <= v < |indeg| && indeg[v] == 0 ==> v in queue
  {
    var n := |indeg|;
    queue := [];
    var zeros := set v: nat | v < n && indeg[v] == 0;
    while zeros != {}
      invariant forall v :: v in zeros ==> v < n && indeg[v] == 0
      invariant forall k :: 0 <= k < |queue| ==> queue[k] < n && indeg[queue[k]] == 0 && queue[k] !in zeros
      invariant DistinctNodes(queue)
      invariant forall v :: 0 <= v < n && indeg[v] == 0 ==> v in zeros || v in queue
      decreases zeros
    {
      var v :| v in zeros;
      queue := queue + [v];
      zeros := zeros - {v};
    }
  }

  /** The queue holds exactly the nodes not yet output whose in-degree is
      zero, once each. */
  ghost predicate QueueInv(n: nat, indeg: seq<int>, queue: seq<nat>, done: set<nat>) {
    && |indeg| == n
    && DistinctNodes(queue)
    && (forall k :: 0 <= k < |queue| ==> queue[k] < n && queue[k] !in done && indeg[queue[k]] == 0)
    && (forall v :: 0 <= v < n && v !in done && indeg[v] == 0 ==> v in queue)
  }

  /** Popping the front of the queue to output it keeps the queue invariant. */
  lemma PopQueue(n: nat, indeg: seq<int>, queue: seq<nat>, done: set<nat>)
    requires QueueInv(n, indeg, queue, done) && |queue| > 0
    ensures QueueInv(n, indeg, queue[1..], done + {queue[0]})
  {
    var q := queue[1..];
    forall k | 0 <= k < |q|
      ensures q[k] != queue[0]
    {
      assert q[k] == queue[k + 1];
    }
    forall v | 0 <= v < n && v !in done + {queue[0]} && indeg[v] == 0
      ensures v in q
    {
      assert v in queue;
      var k :| 0 <= k < |queue| && queue[k] == v;
      assert q[k - 1] == v;
    }
  }

  lemma AppendKeepsDistinct(s: seq<nat>, x: nat)
    requires DistinctNodes(s) && x !in s
    ensures DistinctNodes(s + [x])
  {
  }

  /** Every producer of a node already output was output too. */
  ghost predicate ProducersDone(adj: Adjacency, done: set<nat>) {
    forall v, w :: v in done && 0 <= w < |adj| && v in adj[w] ==> w in done
  }

  /** Every producer of an output node precedes it in the output. */
  ghost predicate ProducersEarlier(adj: Adjacency, sorted: seq<nat>) {
    forall i, w :: 0 <= i < |sorted| && 0 <= w < |adj| && sorted[i] in adj[w] ==> w in sorted[..i]
  }

  lemma AppendKeepsProducersEarlier(adj: Adjacency, sorted: seq<nat>, x: nat)
    requires ProducersEarlier(adj, sorted)
    requires forall w :: 0 <= w < |adj| && x in adj[w] ==> w in sorted
    ensures ProducersEarlier(adj, sorted + [x])
  {
    var s' := sorted + [x];
    assert forall i :: 0 <= i <= |sorted| ==> s'[..i] == sorted[..i];
  }

  /** The in-degrees count the links from nodes not yet output. */
  ghost predicate CountInv(adj: Adjacency, indeg: seq<int>, done: set<nat>) {
    && |indeg| == |adj|
    && forall v :: 0 <= v < |adj| ==> indeg[v] == Pending(adj, done, v, |adj|)
  }

  /** One consumer `v` of the node `x` being output: it is neither `x` nor
      already output, and the links into it not yet released are still
      pending. */
  lemma ReleaseStep(adj: Adjacency, done: set<nat>, x: nat, j: nat)
    requires Closed(adj) && x < |adj| && x !in done && j < |adj[x]|
    requires Pending(adj, done, x, |adj|) == 0 && ProducersDone(adj, done)
    ensures var v := adj[x][j];
      && v < |adj| && v != x && v !in done
      && multiset(adj[x][..j + 1]) == multiset(adj[x][..j]) + multiset{v}
      && Pending(adj, done, v, |adj|) > multiset(adj[x][..j])[v]
  {
    var v := adj[x][j];
    assert adj[x][..j + 1] == adj[x][..j] + [v];
    PendingMarkDone(adj, done, x, v, |adj|);
    assert multiset(adj[x][..j + 1])[v] <= multiset(adj[x])[v] by {
      assert adj[x] == adj[x][..j + 1] + adj[x][j + 1..];
    }
    PendingZero(adj, done, x, |adj|);
  }

  /** The in-degrees part-way through releasing `x`: its first `j` links are
      no longer counted. */
  ghost predicate PartialCount(adj: Adjacency, done: set<nat>, x: nat, j: nat, indeg: seq<int>)
    requires x < |adj| && j <= |adj[x]|
  {
    && |indeg| == |adj|
    && forall v :: 0 <= v < |adj| ==> indeg[v] == Pending(adj, done, v, |adj|) - multiset(adj[x][..j])[v]
  }

  /** Releasing link `j` of `x` decrements exactly its consumer's count. */
  lemma DecrementKeepsCount(adj: Adjacency, done: set<nat>, x: nat, j: nat, indeg: seq<int>)
    requires x < |adj| && j < |adj[x]| && adj[x][j] < |adj|
    requires PartialCount(adj, done, x, j, indeg)
    requires multiset(adj[x][..j + 1]) == multiset(adj[x][..j]) + multiset{adj[x][j]}
    ensures PartialCount(adj, done, x, j + 1, indeg[adj[x][j] := indeg[adj[x][j]] - 1])
  {
  }

  /** Decrementing a positive in-degree, and enqueuing the node when it
      reaches zero, keeps the queue invariant. */
  lemma DecrementKeepsQueue(n: nat, indeg: seq<int>, queue: seq<nat>, done: set<nat>, v: nat)
    requires QueueInv(n, indeg, queue, done) && v < n && v !in done && indeg[v] > 0
    ensures var indeg' := indeg[v := indeg[v] - 1];
      QueueInv(n, indeg', if indeg'[v] == 0 then queue + [v] else queue, done)
  {
    assert v !in queue;
    var indeg' := indeg[v := indeg[v] - 1];
    if indeg'[v] == 0 {
      AppendKeepsDistinct(queue, v);
    }
  }

  /** Once every link of `x` is released, the in-degrees count exactly the
      links from nodes other than `done` and `x`. */
  lemma ReleaseComplete(adj: Adjacency, done: set<nat>, x: nat, indeg: seq<int>)
    requires x < |adj| && x !in done
    requires PartialCount(adj, done, x, |adj[x]|, indeg)
    ensures CountInv(adj, indeg, done + {x})
  {
    assert adj[x][..|adj[x]|] == adj[x];
    forall v | 0 <= v < |adj|
      ensures indeg[v] == Pending(adj, done + {x}, v, |adj|)
    {
      PendingMarkDone(adj, done, x, v, |adj|);
    }
  }

  /** One iteration of the inner loop: release link `j` of `x`. */
  method ReleaseLink(adj: Adjacency, indeg: seq<int>, queue: seq<nat>, ghost done: set<nat>, x: nat, j: nat)
    returns (indeg': seq<int>, queue': seq<nat>)
    requires Closed(adj) && x < |adj| && x !in done && j < |adj[x]|
    requires Pending(adj, done, x, |adj|) == 0 && ProducersDone(adj, done)
    requires PartialCount(adj, done, x, j, indeg)
    requires QueueInv(|adj|, indeg, queue, done + {x})
    ensures PartialCount(adj, done, x, j + 1, indeg')
    ensures QueueInv(|adj|, indeg', queue', done + {x})
    ensures |queue| <= |queue'| && queue'[..|queue|] == queue
  {
    var v := adj[x][j];
    ReleaseStep(adj, done, x, j);
    DecrementKeepsQueue(|adj|, indeg, queue, done + {x}, v);
    DecrementKeepsCount(adj, done, x, j, indeg);
    indeg' := indeg[v := indeg[v] - 1];
    queue' := queue;
    if indeg'[v] == 0 {
      queue' := queue + [v];
      assert queue'[..|queue|] == queue;
    }
  }

  /** The inner loop of step 3: `x` has just been output; decrement the
      in-degree of each of its consumers, enqueuing those that reach zero. */
  method Release(adj: Adjacency, indeg: seq<int>, queue: seq<nat>, ghost done: set<nat>, x: nat)
    returns (indeg': seq<int>, queue': seq<nat>)
    requires Closed(adj) && x < |adj| && x !in done
    requires CountInv(adj, indeg, done) && indeg[x] == 0
    requires QueueInv(|adj|, indeg, queue, done + {x})
    requires ProducersDone(adj, done)
    ensures CountInv(adj, indeg', done + {x})
    ensures QueueInv(|adj|, indeg', queue', done + {x})
    ensures |queue| <= |queue'| && queue'[..|queue|] == queue
  {
    indeg', queue' := indeg, queue;
    assert adj[x][..0] == [];
    var j := 0;
    while j < |adj[x]|
      invariant 0 <= j <= |adj[x]|
      invariant PartialCount(adj, done, x, j, indeg')
      invariant QueueInv(|adj|, indeg', queue', done + {x})
      invariant |queue| <= |queue'| && queue'[..|queue|] == queue
    {
      ghost var prev := queue';
      indeg', queue' := ReleaseLink(adj, indeg', queue', done, x, j);
      assert queue'[..|queue|] == prev[..|queue|];
      j := j + 1;
    }
    ReleaseComplete(adj, done, x, indeg');
  }

  /** Step 3, Kahn's loop: pop the front of the queue, output it, release
      its consumers; stop when the queue is empty. */
  method Drain(adj: Adjacency, indeg0: seq<int>, queue0: seq<nat>) returns (sorted: seq<nat>, ghost done: set<nat>)
    requires Closed(adj)
    requires CountInv(adj, indeg0, {}) && QueueInv(|adj|, indeg0, queue0, {})
    ensures forall v :: v in done <==> v in sorted
    ensures done <= Range(|adj|) && |done| == |sorted| <= |adj|
    ensures DistinctNodes(sorted)
    ensures ProducersEarlier(adj, sorted)
    ensures forall v :: 0 <= v < |adj| && v !in done ==> Pending(adj, done, v, |adj|) != 0
  {
    var n := |adj|;
    ghost var range := Range(n);
    var indeg, queue := indeg0, queue0;
    sorted, done := [], {};
    while |queue| > 0
      invariant forall v :: v in done <==> v in sorted
      invariant done <= range && |done| == |sorted|
      invariant DistinctNodes(sorted)
      invariant CountInv(adj, indeg, done)
      invariant QueueInv(n, indeg, queue, done)
      invariant ProducersDone(adj, done)
      invariant ProducersEarlier(adj, sorted)
      decreases n - |sorted|
    {
      var x := queue[0];
      PopQueue(n, indeg, queue, done);
      queue := queue[1..];
      PendingZero(adj, done, x, n);
      assert ProducersDone(adj, done + {x});
      SubsetSize(done + {x}, range);
      AppendKeepsProducersEarlier(adj, sorted, x);
      AppendKeepsDistinct(sorted, x);
      sorted := sorted + [x];
      indeg, queue := Release(adj, indeg, queue, done, x);
      done := done + {x};
    }
    SubsetSize(done, range);
  }

  /** `topologicalSort`: in-degrees from the link counts, a queue seeded with
      the in-degree-zero nodes, then Kahn's loop. Fails with `CycleDetected`
      when fewer nodes come out than went in. Every property holds for every
      seeding order. */
  method TopologicalSort(adj: Adjacency) returns (r: Result<seq<nat>>)
    requires Closed(adj)
    ensures r.Ok? ==> IsTopologicalOrder(adj, r.value)
    ensures r.Err? ==> r.error == CycleDetected && HasCycle(adj)
    ensures r.Ok? <==> !HasCycle(adj)
  {
    var indeg := InDegrees(adj);
    var queue := SeedQueue(indeg);
    var sorted, done := Drain(adj, indeg, queue);
    if |sorted| != |adj| {
      StallMeansCycle(adj, done);
      r := Err(CycleDetected);
    } else {
      CompleteMeansOrder(adj, sorted, done);
      r := Ok(sorted);
      TopologicalOrderExcludesCycle(adj, sorted);
    }
  }

  /** When the queue runs dry before every node is output, the nodes left
      over all have a pending link from another left-over node. */
  lemma StallMeansCycle(adj: Adjacency, done: set<nat>)
    requires done <= Range(|adj|) && |done| < |adj|
    requires forall v :: 0 <= v < |adj| && v !in done ==> Pending(adj, done, v, |adj|) != 0
    ensures HasCycle(adj)
  {
    var n := |adj|;
    var range := Range(n);
    SubsetSize(done, range);
    var rest := range - done;
    assert rest != {};
    forall v | v in rest
      ensures FedFrom(adj, rest, v)
    {
      PendingZero(adj, done, v, n);
    }
    assert CycleWitness(adj, rest);
  }

  /** When every node has been output, the output is a topological order. */
  lemma CompleteMeansOrder(adj: Adjacency, sorted: seq<nat>, done: set<nat>)
    requires forall v :: v in done <==> v in sorted
    requires done <= Range(|adj|) && |done| == |sorted| == |adj|
    requires DistinctNodes(sorted)
    requires ProducersEarlier(adj, sorted)
    ensures IsTopologicalOrder(adj, sorted)
  {
    var range := Range(|adj|);
    SubsetSize(done, range);
    forall k | 0 <= k < |sorted|
      ensures sorted[k] < |adj|
    {
      assert sorted[k] in done;
    }
    forall i, j | 0 <= i < |sorted| && 0 <= j < |sorted| && sorted[j] in adj[sorted[i]]
      ensures i < j
    {
      assert sorted[i] in done;
      assert sorted[i] in sorted[..j];
      var k :| 0 <= k < j && sorted[..j][k] == sorted[i];
      assert sorted[k] == sorted[i];
    }
  }
}
