/**
 Round-robin scheduling over the circular run queue: a cyclic search that starts behind the
 current task, and the order in which repeated picks visit the runnable tasks.
*/
module RoundRobin {
  import opened Arith
  import opened ListHead
  import opened Seqs

  datatype Task = Task(running: bool, periodic: bool, underAnalysis: bool, execStart: int)
  datatype Choice = Null | Pick(task: nat)

  // ---- the reference: the runnable tasks in list order ------------------------------------

  ghost function Filter(c: seq<nat>, ok: set<nat>): seq<nat> {
    if c == [] then [] else (if c[0] in ok then [c[0]] else []) + Filter(c[1..], ok)
  }

  lemma {:induction false} FilterConcat(a: seq<nat>, b: seq<nat>, ok: set<nat>)
    ensures Filter(a + b, ok) == Filter(a, ok) + Filter(b, ok)
  {
    if a == [] {
      assert a + b == b;
    } else {
      assert (a + b)[1..] == a[1..] + b;
      FilterConcat(a[1..], b, ok);
      Assoc(if a[0] in ok then [a[0]] else [], Filter(a[1..], ok), Filter(b, ok));
    }
  }

  lemma {:induction false} FilterMembers(c: seq<nat>, ok: set<nat>)
    ensures forall t :: t in Filter(c, ok) <==> t in c && t in ok
  {
    if c != [] {
      FilterMembers(c[1..], ok);
      assert c == [c[0]] + c[1..];
    }
  }

  lemma {:induction false} FilterDistinct(c: seq<nat>, ok: set<nat>)
    requires Distinct(c)
    ensures Distinct(Filter(c, ok))
  {
    if c != [] {
      FilterDistinct(c[1..], ok);
      FilterMembers(c[1..], ok);
    }
  }

  // The number of runnable tasks up to position p of the ring.
  ghost function Rank(ring: seq<nat>, p: nat, ok: set<nat>): nat
    requires p < |ring|
  {
    |Filter(ring[..p + 1], ok)|
  }

  // The tasks behind position p, once around.
  ghost function Behind(ring: seq<nat>, p: nat): seq<nat>
    requires p < |ring|
  {
    ring[p + 1..] + ring[..p]
  }

  // The runnable tasks before, at and behind position p.
  lemma FilterParts(ring: seq<nat>, p: nat, ok: set<nat>)
    requires p < |ring|
    ensures var before, after := Filter(ring[..p], ok), Filter(ring[p + 1..], ok);
            var here := if ring[p] in ok then [ring[p]] else [];
            && Filter(ring[..p + 1], ok) == before + here && Filter(ring, ok) == before + here + after
            && Filter(Behind(ring, p), ok) == after + before
  {
    assert ring == ring[..p + 1] + ring[p + 1..];
    assert ring[..p + 1] == ring[..p] + [ring[p]];
    FilterConcat(ring[..p + 1], ring[p + 1..], ok);
    FilterConcat(ring[..p], [ring[p]], ok);
    FilterConcat(ring[p + 1..], ring[..p], ok);
    assert Filter([ring[p]][1..], ok) == [];
  }

  // Position i of a walk around k tasks.
  function Around(i: nat, k: nat): nat
    requires k > 0
  {
    i % k
  }

  lemma Wrap(rank: nat, k: nat)
    requires 0 < k && rank <= k
    ensures Around(rank, k) == if rank == k then 0 else rank
  {
    DivModUnique(k, k, 1, 0);
  }

  // The first runnable task behind position p is the next one in cyclic list order.
  lemma NextInOrder(ring: seq<nat>, p: nat, ok: set<nat>)
    requires p < |ring| && |Filter(ring, ok)| >= 2
    ensures var all, rank := Filter(ring, ok), Rank(ring, p, ok);
            && Filter(Behind(ring, p), ok) != []
            && Around(rank, |all|) < |all| && Filter(Behind(ring, p), ok)[0] == all[Around(rank, |all|)]
            && (ring[p] in ok ==> 1 <= rank <= |all| && all[rank - 1] == ring[p])
  {
    hide Filter, Around;
    var all, rank := Filter(ring, ok), Rank(ring, p, ok);
    FilterParts(ring, p, ok);
    Wrap(rank, |all|);
  }

  lemma AroundBelow(i: nat, k: nat)
    requires k > 0
    ensures Around(i, k) < k && Around(Around(i, k), k) == Around(i, k)
  {
  }

  lemma {:induction false} FilterLength(c: seq<nat>, ok: set<nat>)
    ensures |Filter(c, ok)| <= |c|
  {
    if c != [] {
      FilterLength(c[1..], ok);
    }
  }

  lemma {:induction false} AroundNext(a: nat, k: nat)
    requires k > 0
    ensures Around(a + 1, k) == Around(Around(a, k) + 1, k)
  {
    var q, r := a / k, a % k;
    assert a + 1 == (r + 1) + q * k;
    DivModShift(r + 1, k, q);
  }

  lemma SameAround(a: nat, b: nat, k: nat)
    requires k > 0 && Around(a, k) == Around(b, k)
    ensures Around(a + 1, k) == Around(b + 1, k)
  {
    hide Around;
    AroundNext(a, k);
    AroundNext(b, k);
  }

  // Storing the pick back advances the rank by one, around the runnable tasks.
  lemma Advance(ring: seq<nat>, p: nat, ok: set<nat>, next: nat) returns (q: nat)
    requires Distinct(ring) && p < |ring| && |Filter(ring, ok)| >= 2
    requires Filter(Behind(ring, p), ok) != [] && next == Filter(Behind(ring, p), ok)[0]
    ensures q < |ring| && ring[q] == next && next in ok
    ensures var all, rank := Filter(ring, ok), Rank(ring, p, ok);
            Around(rank, |all|) < |all| && next == all[Around(rank, |all|)] &&
            Around(Rank(ring, q, ok), |all|) == Around(rank + 1, |all|)
  {
    hide Filter, Rank, Behind, Around;
    var all, rank := Filter(ring, ok), Rank(ring, p, ok);
    AroundBelow(rank, |all|);
    NextInOrder(ring, p, ok);
    FilterMembers(ring, ok);
    FilterDistinct(ring, ok);
    assert next in all;
    q :| 0 <= q < |ring| && ring[q] == next;
    NextInOrder(ring, q, ok);
    assert Rank(ring, q, ok) - 1 == Around(rank, |all|);
    AroundNext(rank, |all|);
  }

  // With more than two nodes, there is no pick exactly when no task but the current one is runnable.
  lemma NoPick(ring: seq<nat>, p: nat, ok: set<nat>)
    requires Distinct(ring) && p < |ring|
    ensures Filter(Behind(ring, p), ok) == [] <==> forall t :: t in ring && t in ok ==> t == ring[p]
  {
    hide Filter;
    var f := Filter(Behind(ring, p), ok);
    FilterMembers(Behind(ring, p), ok);
    assert ring == ring[..p] + [ring[p]] + ring[p + 1..];
    assert forall t :: t in ring && t != ring[p] ==> t in Behind(ring, p);
    assert ring[p] !in Behind(ring, p);
    if f != [] {
      assert f[0] in f;
    }
  }

  // A pick is another node of the ring, and not its head if that is not eligible.
  lemma PickedBehind(ring: seq<nat>, p: nat, ok: set<nat>)
    requires Distinct(ring) && p < |ring|
    ensures forall t :: t in Filter(Behind(ring, p), ok) ==> t in ok && t != ring[p] && t in ring
    ensures forall t :: t in ring && t != ring[0] ==> t in ring[1..]
    ensures forall t :: t in ring[1..] ==> t in ring && t != ring[0]
  {
    hide Filter;
    FilterMembers(Behind(ring, p), ok);
    assert ring == ring[..p] + [ring[p]] + ring[p + 1..];
    assert forall t :: t in Behind(ring, p) ==> t in ring && t != ring[p];
    assert ring == [ring[0]] + ring[1..];
  }

  lemma Member(ring: seq<nat>, p: nat, i: nat)
    requires p < |ring| && i < |ring|
    ensures exists j :: 0 <= j < |ring| && (ring[p..] + ring[..p])[i] == ring[j]
  {
    var j := if i < |ring| - p then p + i else i - (|ring| - p);
    assert (ring[p..] + ring[..p])[i] == ring[j];
  }

  // Two runnable tasks and the head make a ring of more than two nodes.
  lemma Enough(ring: seq<nat>, ok: set<nat>)
    requires ring != [] && ring[0] !in ok && |Filter(ring, ok)| >= 2
    ensures |ring| > 2
  {
    FilterLength(ring[1..], ok);
  }

  // The picks go round the runnable tasks in list order, from `start` on.
  ghost predicate InOrder(picks: seq<nat>, n: nat, all: seq<nat>, start: nat) {
    |all| > 0 && |picks| == n && forall i :: 0 <= i < n ==> picks[i] == all[Around(start + i, |all|)]
  }

  lemma AroundApart(x: nat, d: nat, k: nat)
    requires 0 < d < k
    ensures Around(x, k) != Around(x + d, k)
  {
    var q, r := x / k, x % k;
    assert x == q * k + r;
    if r + d < k {
      DivModUnique(x + d, k, q, r + d);
    } else {
      assert x + d == (q + 1) * k + (r + d - k);
      DivModUnique(x + d, k, q + 1, r + d - k);
    }
  }

  lemma AroundHits(x: nat, e: nat, k: nat) returns (m: nat)
    requires e < k
    ensures m < k && Around(x + m, k) == e
  {
    var q, r := x / k, x % k;
    assert x == q * k + r;
    if e >= r {
      m := e - r;
      DivModUnique(x + m, k, q, e);
    } else {
      m := e + k - r;
      assert x + m == (q + 1) * k + e;
      DivModUnique(x + m, k, q + 1, e);
    }
  }

  // The picks from j on visit each of the tasks `all` exactly once.
  ghost predicate Covers(picks: seq<nat>, j: nat, all: seq<nat>)
    requires j + |all| <= |picks|
  {
    Distinct(picks[j..j + |all|]) && forall t :: t in picks[j..j + |all|] <==> t in all
  }

  // Any k consecutive picks visit each of the k runnable tasks exactly once.
  lemma Fair(picks: seq<nat>, n: nat, all: seq<nat>, start: nat, j: nat)
    requires InOrder(picks, n, all, start) && Distinct(all) && j + |all| <= n
    ensures Covers(picks, j, all)
  {
    hide Around;
    var k, w := |all|, picks[j..j + |all|];
    forall a, b | 0 <= a < b < k
      ensures w[a] != w[b]
    {
      AroundBelow(start + j + a, k);
      AroundBelow(start + j + b, k);
      AroundApart(start + j + a, b - a, k);
      assert w[a] == picks[j + a] == all[Around(start + (j + a), k)];
      assert w[b] == picks[j + b] == all[Around(start + (j + b), k)];
    }
    forall t | t in all
      ensures t in w
    {
      var e :| 0 <= e < k && all[e] == t;
      var m := AroundHits(start + j, e, k);
      assert w[m] == picks[j + m] == all[Around(start + (j + m), k)];
    }
    forall t | t in w
      ensures t in all
    {
      var a :| 0 <= a < k && w[a] == t;
      AroundBelow(start + (j + a), k);
      assert picks[j + a] == t;
    }
  }

  // ---- the scheduler ----------------------------------------------------------------------

  class RunQueue {
    const links: Links
    const queue: nat               // the list head, which is no task
    var tasks: map<nat, Task>
    var curr: nat
    ghost var ring: seq<nat>       // the run queue in list order, from the head on

    ghost predicate Valid()
      reads this, links
    {
      && Ring(links.next, links.prev, ring) && ring[0] == queue
      && (forall i :: 1 <= i < |ring| ==> ring[i] in tasks)
      && curr in ring[1..]
    }

    // A queue whose list is already linked.
    constructor (l: Links, head: nat, ts: map<nat, Task>, current: nat, ghost nodes: seq<nat>)
      requires Ring(l.next, l.prev, nodes) && nodes[0] == head && current in nodes[1..]
      requires forall i :: 1 <= i < |nodes| ==> nodes[i] in ts
      ensures Valid() && links == l && queue == head && tasks == ts && curr == current && ring == nodes
    {
      links, queue, tasks, curr, ring := l, head, ts, current, nodes;
    }

    // scheduler_enqueue_task: a new task goes to the end of the list.
    method Enqueue(t: nat, task: Task)
      requires Valid() && t !in ring
      modifies this`tasks, this`ring, links
      ensures Valid() && ring == old(ring) + [t] && tasks == old(tasks)[t := task] && curr == old(curr)
    {
      links.InsertBefore(t, queue, ring);
      assert (ring + [t])[1..] == ring[1..] + [t];
      tasks := tasks[t := task];
      ring := ring + [t];
    }

    predicate Eligible(t: nat, skip: bool)
      requires t in tasks
      reads this`tasks
    {
      tasks[t].running && !(tasks[t].periodic && !tasks[t].underAnalysis && skip)
    }

    ghost function Runnable(skip: bool): set<nat>
      reads this`tasks
    {
      set t | t in tasks && t != queue && Eligible(t, skip)
    }

    // __scheduler_rr; `p` is the position of the current task.
    method SchedulerRR(skip: bool, ghost p: nat) returns (r: Choice)
      requires Valid() && 1 <= p < |ring| && ring[p] == curr
      ensures |ring| <= 2 ==> r == Pick(curr)
      ensures |ring| > 2 ==> var f := Filter(Behind(ring, p), Runnable(skip)); r == if f == [] then Null else Pick(f[0])
      ensures |ring| > 2 && r.Pick? ==>
                && r.task in ring[1..] && r.task != curr && r.task in tasks && tasks[r.task].running
                && (skip && tasks[r.task].periodic ==> tasks[r.task].underAnalysis)
      ensures |ring| > 2 && r.Null? ==>
                forall t :: t in ring[1..] && t != curr && t in tasks && tasks[t].running ==>
                  skip && tasks[t].periodic && !tasks[t].underAnalysis
    {
      ghost var c := ring[p..] + ring[..p];
      Rotate(links.next, links.prev, ring, p);
      assert c[0] == curr && |c| == |ring| && c[1..] == Behind(ring, p);
      forall k | 0 <= k < |c|
        ensures c[k] == queue || c[k] in tasks
      {
        Member(ring, p, k);
      }
      hide Filter, Ring;
      var size := links.Size(curr, c);
      if size <= 1 {
        return Pick(curr);
      }
      r := Search(skip, c);
      NoPick(ring, p, Runnable(skip));
      FilterMembers(Behind(ring, p), Runnable(skip));
      PickedBehind(ring, p, Runnable(skip));
      assert r.Pick? ==> r.task in Filter(Behind(ring, p), Runnable(skip));
    }

    // The loop over the rest of the ring.
    method Search(skip: bool, ghost c: seq<nat>) returns (r: Choice)
      requires Ring(links.next, links.prev, c) && c[0] == curr && |c| > 1
      requires forall k :: 0 <= k < |c| ==> c[k] == queue || c[k] in tasks
      ensures var f := Filter(c[1..], Runnable(skip)); r == if f == [] then Null else Pick(f[0])
    {
      ghost var ok := Runnable(skip);
      assert Linked(links.next, links.prev, c[0], c[Succ(0, |c|)]);
      var it := links.next[curr];
      ghost var i := 1;
      assert c[1..][0..] == c[1..];
      while it != curr
        invariant 1 <= i <= |c| && it == c[Succ(i - 1, |c|)]
        invariant Filter(c[1..], ok) == Filter(c[i..], ok)
        decreases |c| - i
      {
        if it != queue {
          if Eligible(it, skip) {
            assert c[i] in ok;
            return Pick(it);
          }
        }
        assert c[i..][1..] == c[i + 1..];
        assert Linked(links.next, links.prev, c[i], c[Succ(i, |c|)]);
        it := links.next[it];
        i := i + 1;
      }
      assert i == |c|;
      r := Null;
    }

    // scheduler_pick_next_task
    method PickNextTask(ticks: int, ghost p: nat) returns (next: nat)
      requires Valid() && 1 <= p < |ring| && ring[p] == curr
      requires |ring| <= 2 || Filter(Behind(ring, p), Runnable(false)) != []
      modifies this`tasks
      ensures Valid() && next in ring[1..] && Runnable(false) == old(Runnable(false))
      ensures tasks == old(tasks)[next := old(tasks)[next].(execStart := ticks)]
      ensures next == if |ring| <= 2 then curr else Filter(Behind(ring, p), Runnable(false))[0]
      ensures |ring| > 2 ==> next != curr && next in old(tasks) && old(tasks)[next].running
    {
      ghost var ok := Runnable(false);
      var r := SchedulerRR(false, p);
      next := r.task;
      assert next in ring[1..] && next in tasks by {
        if |ring| > 2 {
          FilterMembers(Behind(ring, p), ok);
          assert next in Behind(ring, p) && next in ok;
          assert next in ring;
        }
      }
      tasks := tasks[next := tasks[next].(execStart := ticks)];
      assert Runnable(false) == ok;
    }

    // n picks on a fixed queue, each stored back as the current task.
    method Schedule(n: nat, ticks: int, ghost p: nat) returns (picks: seq<nat>)
      requires Valid() && 1 <= p < |ring| && ring[p] == curr && |Filter(ring, Runnable(false))| >= 2
      modifies this`tasks, this`curr
      ensures Valid() && Runnable(false) == old(Runnable(false))
      ensures InOrder(picks, n, Filter(ring, Runnable(false)), old(Rank(ring, p, Runnable(false))))
      ensures forall t :: t in picks ==> t in Runnable(false) && t in ring && t != queue
      ensures forall t :: t in picks ==> t in tasks && tasks[t].running
      ensures n > 0 ==> curr == picks[n - 1]
      ensures var all := Filter(ring, Runnable(false));
              forall j :: 0 <= j && j + |all| <= n ==> Covers(picks, j, all)
    {
      hide Filter, Rank, Behind, Around;
      ghost var ok := Runnable(false);
      ghost var all, start := Filter(ring, ok), Rank(ring, p, ok);
      ghost var at := p;
      picks := [];
      while |picks| < n
        invariant Valid() && |picks| <= n && Runnable(false) == ok
        invariant 1 <= at < |ring| && ring[at] == curr && (picks != [] ==> curr == picks[|picks| - 1])
        invariant forall t :: t in picks ==> t in ok && t in ring
        invariant InOrder(picks, |picks|, all, start) &&
                  Around(Rank(ring, at, ok), |all|) == Around(start + |picks|, |all|)
      {
        NextInOrder(ring, at, ok);
        Enough(ring, ok);
        var next := PickNextTask(ticks, at);
        ghost var rank := Rank(ring, at, ok);
        at := Advance(ring, at, ok, next);
        SameAround(rank, start + |picks|, |all|);
        curr := next;
        picks := picks + [next];
      }
      FilterDistinct(ring, ok);
      forall j | 0 <= j && j + |all| <= n
        ensures Covers(picks, j, all)
      {
        Fair(picks, n, all, start, j);
      }
    }
  }
}
