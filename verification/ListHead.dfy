/**
 The intrusive circular list of list_head.h: `prev` and `next` of nodes that live at addresses.
 A ring is the sequence of nodes met by following `next` from one of them.
*/
module ListHead {
  import opened Seqs

  function Succ(i: nat, n: nat): nat {
    if i + 1 == n then 0 else i + 1
  }

  ghost predicate Linked(next: map<nat, nat>, prev: map<nat, nat>, a: nat, b: nat) {
    a in next && b in prev && next[a] == b && prev[b] == a
  }

  ghost predicate Ring(next: map<nat, nat>, prev: map<nat, nat>, c: seq<nat>) {
    |c| > 0 && Distinct(c) && forall i :: 0 <= i < |c| ==> Linked(next, prev, c[i], c[Succ(i, |c|)])
  }

  // A ring can be entered anywhere.
  lemma Rotate(next: map<nat, nat>, prev: map<nat, nat>, c: seq<nat>, k: nat)
    requires Ring(next, prev, c) && k < |c|
    ensures Ring(next, prev, c[k..] + c[..k])
  {
    var r, n := c[k..] + c[..k], |c|;
    forall i | 0 <= i < n
      ensures Linked(next, prev, r[i], r[Succ(i, n)])
    {
      var j := if i < n - k then k + i else i - (n - k);
      assert r[i] == c[j] && r[Succ(i, n)] == c[Succ(j, n)];
    }
  }

  ghost predicate Same(m: map<nat, nat>, m': map<nat, nat>, a: nat) {
    (a in m <==> a in m') && (a in m ==> m'[a] == m[a])
  }

  // Rings without the nodes of c are as they were.
  ghost predicate OthersKept(next: map<nat, nat>, prev: map<nat, nat>, next': map<nat, nat>, prev': map<nat, nat>,
                             c: seq<nat>)
  {
    forall d :: Ring(next, prev, d) && (forall a :: a in d ==> a !in c) ==> Ring(next', prev', d)
  }

  lemma Untouched(next: map<nat, nat>, prev: map<nat, nat>, next': map<nat, nat>, prev': map<nat, nat>, c: seq<nat>)
    requires forall a :: a !in c ==> Same(next, next', a) && Same(prev, prev', a)
    ensures OthersKept(next, prev, next', prev', c)
  {
    forall d | Ring(next, prev, d) && forall a :: a in d ==> a !in c
      ensures Ring(next', prev', d)
    {
      forall i | 0 <= i < |d|
        ensures Linked(next', prev', d[i], d[Succ(i, |d|)])
      {
        assert Linked(next, prev, d[i], d[Succ(i, |d|)]) && d[i] in d && d[Succ(i, |d|)] in d;
        assert Same(next, next', d[i]) && Same(prev, prev', d[Succ(i, |d|)]);
      }
    }
  }

  // The ring fixes the links of its nodes.
  lemma RingFixes(next: map<nat, nat>, prev: map<nat, nat>, next': map<nat, nat>, prev': map<nat, nat>, c: seq<nat>)
    requires Ring(next, prev, c) && Ring(next', prev', c)
    ensures forall a :: a in c ==> Same(next, next', a) && Same(prev, prev', a)
  {
    forall i | 0 <= i < |c|
      ensures Same(next, next', c[i]) && Same(prev, prev', c[i])
    {
      var j := if i == 0 then |c| - 1 else i - 1;
      assert Linked(next, prev, c[i], c[Succ(i, |c|)]) && Linked(next', prev', c[i], c[Succ(i, |c|)]);
      assert Linked(next, prev, c[j], c[Succ(j, |c|)]) && Linked(next', prev', c[j], c[Succ(j, |c|)]);
    }
  }

  lemma SameMaps(m: map<nat, nat>, m': map<nat, nat>)
    requires forall a :: Same(m, m', a)
    ensures m' == m
  {
    forall a | a in m
      ensures a in m' && m'[a] == m[a]
    {
      assert Same(m, m', a);
    }
    forall a | a in m'
      ensures a in m
    {
      assert Same(m, m', a);
    }
  }

  class Links {
    var next: map<nat, nat>
    var prev: map<nat, nat>

    // list_head_init
    method Init(head: nat)
      modifies this
      ensures next == old(next)[head := head] && prev == old(prev)[head := head] && Ring(next, prev, [head])
    {
      next, prev := next[head := head], prev[head := head];
    }

    // list_head_empty
    method Empty(head: nat, ghost c: seq<nat>) returns (r: bool)
      requires Ring(next, prev, c) && c[0] == head
      ensures r <==> c == [head]
    {
      assert Linked(next, prev, c[0], c[Succ(0, |c|)]);
      r := next[head] == head;
      assert |c| == 1 ==> c == [head];
    }

    // list_head_size
    method Size(head: nat, ghost c: seq<nat>) returns (size: nat)
      requires Ring(next, prev, c) && c[0] == head
      ensures size == |c| - 1
    {
      size := 0;
      var empty := Empty(head, c);
      if !empty {
        assert Linked(next, prev, c[0], c[Succ(0, |c|)]);
        var it := next[head];
        while it != head
          invariant size < |c| && it == c[Succ(size, |c|)]
          decreases |c| - size
        {
          size := size + 1;
          assert Linked(next, prev, c[size], c[Succ(size, |c|)]);
          it := next[it];
        }
      }
    }

    // list_head_insert_after
    method InsertAfter(entry: nat, location: nat, ghost c: seq<nat>)
      requires Ring(next, prev, c) && c[0] == location && entry !in c
      modifies this
      ensures Ring(next, prev, [location, entry] + c[1..])
      ensures forall a :: a !in c + [entry] ==> Same(old(next), next, a) && Same(old(prev), prev, a)
      ensures OthersKept(old(next), old(prev), next, prev, c + [entry])
    {
      assert Linked(next, prev, c[0], c[Succ(0, |c|)]);
      var oldNext := next[location];
      next := next[location := entry];
      prev := prev[entry := location];
      next := next[entry := oldNext];
      prev := prev[oldNext := entry];
      ghost var r := [location, entry] + c[1..];
      forall i | 0 <= i < |r|
        ensures Linked(next, prev, r[i], r[Succ(i, |r|)])
      {
        if i >= 2 {
          assert Linked(old(next), old(prev), c[i - 1], c[Succ(i - 1, |c|)]);
        }
      }
      Untouched(old(next), old(prev), next, prev, c + [entry]);
    }

    // list_head_insert_before
    method InsertBefore(entry: nat, location: nat, ghost c: seq<nat>)
      requires Ring(next, prev, c) && c[0] == location && entry !in c
      modifies this
      ensures Ring(next, prev, c + [entry])
      ensures forall a :: a !in c + [entry] ==> Same(old(next), next, a) && Same(old(prev), prev, a)
      ensures OthersKept(old(next), old(prev), next, prev, c + [entry])
    {
      ghost var n := |c|;
      assert Linked(next, prev, c[n - 1], c[Succ(n - 1, n)]);
      var oldPrev := prev[location];
      next := next[oldPrev := entry];
      prev := prev[entry := oldPrev];
      next := next[entry := location];
      prev := prev[location := entry];
      ghost var r := c + [entry];
      forall i | 0 <= i < |r|
        ensures Linked(next, prev, r[i], r[Succ(i, |r|)])
      {
        if i < n - 1 {
          assert Linked(old(next), old(prev), c[i], c[Succ(i, n)]);
        }
      }
      Untouched(old(next), old(prev), next, prev, c + [entry]);
    }

    // list_head_remove
    method Remove(entry: nat, ghost c: seq<nat>)
      requires Ring(next, prev, c) && c[0] == entry
      modifies this
      ensures Ring(next, prev, [entry]) && (|c| > 1 ==> Ring(next, prev, c[1..]))
      ensures forall a :: a !in c ==> Same(old(next), next, a) && Same(old(prev), prev, a)
      ensures OthersKept(old(next), old(prev), next, prev, c)
    {
      var empty := Empty(entry, c);
      if !empty {
        ghost var n := |c|;
        assert Linked(next, prev, c[0], c[Succ(0, n)]);
        assert Linked(next, prev, c[n - 1], c[Succ(n - 1, n)]);
        var p, q := prev[entry], next[entry];
        next := next[p := q];
        prev := prev[q := p];
        next, prev := next[entry := entry], prev[entry := entry];
        ghost var r := c[1..];
        forall i | 0 <= i < |r|
          ensures Linked(next, prev, r[i], r[Succ(i, |r|)])
        {
          if i + 1 < |r| {
            assert Linked(old(next), old(prev), c[i + 1], c[Succ(i + 1, n)]);
          }
        }
      }
      Untouched(old(next), old(prev), next, prev, c);
    }

    // Taking an entry out again restores the list it was put into.
    method InsertThenRemove(entry: nat, location: nat, ghost c: seq<nat>)
      requires Ring(next, prev, c) && c[0] == location && entry !in c && Ring(next, prev, [entry])
      modifies this
      ensures next == old(next) && prev == old(prev)
    {
      InsertBefore(entry, location, c);
      Rotate(next, prev, c + [entry], |c|);
      ghost var r := (c + [entry])[|c|..] + (c + [entry])[..|c|];
      assert r == [entry] + c && r[1..] == c;
      Remove(entry, r);
      RingFixes(old(next), old(prev), next, prev, c);
      RingFixes(old(next), old(prev), next, prev, [entry]);
      forall a
        ensures Same(old(next), next, a) && Same(old(prev), prev, a)
      {
        assert a in c || a == entry || a !in r;
      }
      SameMaps(old(next), next);
      SameMaps(old(prev), prev);
    }
  }
}
