/**
  The bookkeeping `main` of `udral_pnp.py` does around the allocation runs: one task
  per online node, started when the node tracker first reports the node, cancelled
  and forgotten when the node goes offline, and forgotten once it has finished so
  that the next report about that node starts a fresh run.
 */
module Supervisor {
  import opened OrderedDict

  /** The `asyncio.Task` running `perform_automatic_port_id_allocation` for `node`; `serial` tells runs apart. */
  datatype Task = Task(serial: nat, node: int)

  /** `s` without `x`: the key order after `del d[x]`. */
  function Without(s: seq<int>, x: int): (r: seq<int>)
    ensures forall k :: k in r <==> k in s && k != x
  {
    if s == [] then [] else (if s[0] == x then [] else [s[0]]) + Without(s[1..], x)
  }

  /** A node whose task is absent or still running when `done` says which runs have finished. */
  predicate Pending(tasks: map<int, Task>, done: nat -> bool, k: int) {
    k !in tasks || !done(tasks[k].serial)
  }

  /** The keys of `s` whose task is pending, in order. */
  function Unfinished(s: seq<int>, tasks: map<int, Task>, done: nat -> bool): (r: seq<int>)
    ensures forall k :: k in r <==> k in s && Pending(tasks, done, k)
  {
    if s == [] then []
    else (if Pending(tasks, done, s[0]) then [s[0]] else []) + Unfinished(s[1..], tasks, done)
  }

  class AllocationTasks {
    /** `alloc_tasks`: the running or finished-but-not-yet-swept task of each node ... */
    var tasks: map<int, Task>
    /** ... and the order in which the dict lists its keys. */
    var order: seq<int>
    /** The node of every run started so far, in order; a run's serial is its index here. */
    var started: seq<int>
    /** The serials of the runs cancelled so far, in order. */
    var cancelled: seq<nat>

    /**
      The key order lists every node with a task exactly once; every task is filed
      under its own node and is one of the runs started.
     */
    predicate Valid()
      reads this
    {
      && NoDup(order)
      && (forall k :: k in order ==> k in tasks)
      && (forall k :: k in tasks ==> k in order)
      && (forall k :: k in tasks ==>
            tasks[k].node == k && tasks[k].serial < |started| && started[tasks[k].serial] == k)
    }

    constructor ()
      ensures Valid()
      ensures tasks == map[] && order == [] && started == [] && cancelled == []
    {
      tasks := map[];
      order := [];
      started := [];
      cancelled := [];
    }

    /** `del alloc_tasks[nodeId]` for a node that has a task. */
    method Forget(nodeId: int)
      requires Valid() && nodeId in tasks
      modifies this
      ensures Valid()
      ensures tasks == old(tasks) - {nodeId} && order == Without(old(order), nodeId)
      ensures started == old(started) && cancelled == old(cancelled)
    {
      WithoutNoDup(order, nodeId);
      tasks := tasks - {nodeId};
      order := Without(order, nodeId);
    }

    /**
      `on_node_status_change`: an offline report (`online` false, the entry being
      `None`) cancels and forgets the node's task if there is one, and does nothing
      otherwise (the `LookupError` is swallowed); an online report starts a run only
      for a node that has no task.
     */
    method OnNodeStatusChange(nodeId: int, online: bool)
      requires Valid()
      modifies this
      ensures Valid()
      ensures !online ==>
                && tasks == old(tasks) - {nodeId}
                && order == Without(old(order), nodeId)
                && started == old(started)
                && cancelled == old(cancelled) + (if nodeId in old(tasks) then [old(tasks)[nodeId].serial] else [])
      ensures online && nodeId in old(tasks) ==>
                tasks == old(tasks) && order == old(order) && started == old(started) && cancelled == old(cancelled)
      ensures online && nodeId !in old(tasks) ==>
                && tasks == old(tasks)[nodeId := Task(|old(started)|, nodeId)]
                && order == old(order) + [nodeId]
                && started == old(started) + [nodeId]
                && cancelled == old(cancelled)
    {
      if !online {
        if nodeId in tasks {
          cancelled := cancelled + [tasks[nodeId].serial];
          Forget(nodeId);
        } else {
          WithoutAbsent(order, nodeId);
        }
      } else if nodeId !in tasks {
        tasks := tasks[nodeId := Task(|started|, nodeId)];
        order := order + [nodeId];
        started := started + [nodeId];
      }
    }

    /**
      One pass of the loop in `main` over `list(alloc_tasks)`: every task that is done
      is forgotten, whatever its result; the others stay, in their order. `done` says
      which runs have finished.
     */
    method Sweep(done: nat -> bool)
      requires Valid()
      modifies this
      ensures Valid()
      ensures tasks == map k | k in old(tasks) && Pending(old(tasks), done, k) :: old(tasks)[k]
      ensures order == Unfinished(old(order), old(tasks), done)
      ensures started == old(started) && cancelled == old(cancelled)
    {
      var snapshot := order;
      ghost var before := tasks;
      for i := 0 to |snapshot|
        invariant Valid()
        invariant order == Unfinished(snapshot[..i], before, done) + snapshot[i..]
        invariant forall k :: k in tasks ==> k in before && tasks[k] == before[k]
        invariant started == old(started) && cancelled == old(cancelled)
      {
        var k := snapshot[i];
        if done(tasks[k].serial) {
          SweepDrops(snapshot, i, before, done);
          Forget(k);
        } else {
          SweepKeeps(snapshot, i, before, done);
        }
      }
      assert snapshot[..|snapshot|] == snapshot;
      SweptTasks(before, done, tasks, order, snapshot);
    }
  }

  // The key-order helpers.

  /** The tasks left once the sweep has passed every key of `before`. */
  lemma SweptTasks(before: map<int, Task>, done: nat -> bool, tasks: map<int, Task>, order: seq<int>, keys: seq<int>)
    requires forall k :: k in before <==> k in keys
    requires order == Unfinished(keys, before, done)
    requires (forall k :: k in order ==> k in tasks) && (forall k :: k in tasks ==> k in order)
    requires forall k :: k in tasks ==> tasks[k] == before[k]
    ensures tasks == map k | k in before && Pending(before, done, k) :: before[k]
  {
    var kept := map k | k in before && Pending(before, done, k) :: before[k];
    forall k
      ensures k in tasks <==> k in kept
    {
    }
  }

  /** A pending key stays in the key order as the sweep passes it. */
  lemma SweepKeeps(snapshot: seq<int>, i: nat, tasks: map<int, Task>, done: nat -> bool)
    requires i < |snapshot| && Pending(tasks, done, snapshot[i])
    ensures Unfinished(snapshot[..i], tasks, done) + snapshot[i..] ==
            Unfinished(snapshot[..i + 1], tasks, done) + snapshot[i + 1..]
  {
    var k := snapshot[i];
    assert snapshot[..i + 1] == snapshot[..i] + [k];
    assert snapshot[i..] == [k] + snapshot[i + 1..];
    UnfinishedConcat(snapshot[..i], [k], tasks, done);
    assert Unfinished([k], tasks, done) == [k];
  }

  /** A finished key leaves the key order as the sweep passes it. */
  lemma SweepDrops(snapshot: seq<int>, i: nat, tasks: map<int, Task>, done: nat -> bool)
    requires NoDup(snapshot) && i < |snapshot| && !Pending(tasks, done, snapshot[i])
    ensures Without(Unfinished(snapshot[..i], tasks, done) + snapshot[i..], snapshot[i]) ==
            Unfinished(snapshot[..i + 1], tasks, done) + snapshot[i + 1..]
  {
    var k := snapshot[i];
    var u := Unfinished(snapshot[..i], tasks, done);
    assert snapshot[..i + 1] == snapshot[..i] + [k];
    assert snapshot[i..] == [k] + snapshot[i + 1..];
    UnfinishedConcat(snapshot[..i], [k], tasks, done);
    assert Unfinished([k], tasks, done) == [];
    NoDupSplit(snapshot, i);
    assert u + snapshot[i..] == u + [k] + snapshot[i + 1..];
    WithoutMiddle(u, k, snapshot[i + 1..]);
  }

  lemma {:induction false} WithoutAbsent(s: seq<int>, x: int)
    requires x !in s
    ensures Without(s, x) == s
  {
    if s != [] {
      WithoutAbsent(s[1..], x);
    }
  }

  lemma {:induction false} WithoutNoDup(s: seq<int>, x: int)
    requires NoDup(s)
    ensures NoDup(Without(s, x))
  {
    if s != [] {
      assert NoDup(s[1..]);
      WithoutNoDup(s[1..], x);
      assert s[0] !in s[1..];
    }
  }

  /** Deleting a key that occurs once, between two runs without it. */
  lemma {:induction false} WithoutMiddle(a: seq<int>, x: int, b: seq<int>)
    requires x !in a && x !in b
    ensures Without(a + [x] + b, x) == a + b
  {
    if a == [] {
      assert ([x] + b)[1..] == b;
      WithoutAbsent(b, x);
    } else {
      assert (a + [x] + b)[1..] == a[1..] + [x] + b;
      WithoutMiddle(a[1..], x, b);
      assert a == [a[0]] + a[1..];
    }
  }

  lemma {:induction false} UnfinishedConcat(a: seq<int>, b: seq<int>, tasks: map<int, Task>, done: nat -> bool)
    ensures Unfinished(a + b, tasks, done) == Unfinished(a, tasks, done) + Unfinished(b, tasks, done)
  {
    if a == [] {
      assert a + b == b;
    } else {
      assert (a + b)[1..] == a[1..] + b;
      UnfinishedConcat(a[1..], b, tasks, done);
    }
  }

  /** In a sequence without duplicates an element occurs neither before nor after its position. */
  lemma NoDupSplit(s: seq<int>, i: nat)
    requires NoDup(s) && i < |s|
    ensures s[i] !in s[..i] && s[i] !in s[i + 1..]
  {
    assert forall j :: 0 <= j < i ==> s[..i][j] == s[j];
    assert forall j :: i + 1 <= j < |s| ==> s[i + 1..][j - i - 1] == s[j];
  }
}
