/**
 The plain-list variant of the timer system, which the same source file holds beside the
 wheel.
*/
module TimerList {
  import opened Arith
  import opened Seqs
  import opened TimerWheelModel
  import opened TimerWheel

  // The timers of a list that have expired, and the others.
  function Expired(list: seq<Timer>, now: word): seq<Timer> {
    if list == [] then []
    else (if list[0].expires <= now then [list[0]] else []) + Expired(list[1..], now)
  }

  function Kept(list: seq<Timer>, now: word): seq<Timer> {
    if list == [] then []
    else (if list[0].expires <= now then [] else [list[0]]) + Kept(list[1..], now)
  }

  // What the callbacks of `ts` arm, in order.
  function Offspring(ts: seq<Timer>, arms: Timer -> seq<Timer>): seq<Timer> {
    if ts == [] then [] else Offspring(ts[..|ts| - 1], arms) + arms(ts[|ts| - 1])
  }

  // The callback of an expired timer arms objects of its own, for ticks after its expiry.
  ghost predicate ArmsForward(arms: Timer -> seq<Timer>, now: word) {
    forall t, k | 0 <= k < |arms(t)| && t.expires <= now ::
      arms(t)[k].id == Child(t, k) && t.expires < arms(t)[k].expires
  }

  lemma {:induction false} ScanMembers(list: seq<Timer>, now: word)
    ensures forall t :: t in Expired(list, now) <==> t in list && t.expires <= now
    ensures forall t :: t in Kept(list, now) <==> t in list && t.expires > now
  {
    if list != [] {
      assert list == [list[0]] + list[1..];
      ScanMembers(list[1..], now);
    }
  }

  lemma {:induction false} OffspringMembers(ts: seq<Timer>, arms: Timer -> seq<Timer>)
    ensures forall c :: c in Offspring(ts, arms) <==> exists t :: t in ts && c in arms(t)
  {
    if ts != [] {
      var a, z := ts[..|ts| - 1], ts[|ts| - 1];
      assert ts == a + [z];
      OffspringMembers(a, arms);
      assert forall t :: t in ts <==> t in a || t == z;
    }
  }

  lemma {:induction false} NextInList(before: seq<Timer>, todo: seq<Timer>)
    requires todo != [] && todo[0] !in before
    ensures Next(before + todo, todo[0]) == First(todo[1..])
    ensures Without(before + todo, todo[0]) == before + todo[1..]
  {
    hide Without;
    WithoutSplit(before, todo);
    if before == [] {
      assert before + todo == todo;
    } else {
      assert before[0] in before && (before + todo)[1..] == before[1..] + todo;
      NextInList(before[1..], todo);
    }
  }

  ghost predicate Sane(list: seq<Timer>, armed: set<Timer>, fired: seq<Timer>) {
    && Distinct(list)
    && (forall t :: t in list ==> t in armed && t !in fired)
    && (forall t :: t in fired ==> t in armed)
    && (forall t :: t in armed && t.id.Child? ==> t.id.parent in fired)
  }

  // Executing `t` takes it off the list and appends what its callback arms.
  lemma ExecuteKeepsSane(before: seq<Timer>, t: Timer, after: seq<Timer>, kids: seq<Timer>,
                         armed: set<Timer>, fired: seq<Timer>)
    requires Sane(before + [t] + after, armed, fired)
    requires forall k :: 0 <= k < |kids| ==> kids[k].id == Child(t, k)
    ensures Sane(before + after + kids, armed + (set c | c in kids), fired + [t])
  {
    var list, list' := before + [t] + after, before + after + kids;
    assert list[|before|] == t;
    forall u | u in before + after
      ensures u in list && u != t
    {
      var k :| 0 <= k < |before + after| && (before + after)[k] == u;
      assert list[if k < |before| then k else k + 1] == u;
    }
    forall c | c in kids
      ensures c !in armed
    {
    }
    forall i, j | 0 <= i < j < |list'|
      ensures list'[i] != list'[j]
    {
      var n := |before + after|;
      if j < n {
        assert list'[i] == list[if i < |before| then i else i + 1];
        assert list'[j] == list[if j < |before| then j else j + 1];
      } else if i < n {
        assert list'[i] in before + after && list'[j] in kids;
      } else {
        assert list'[i] == kids[i - n] && list'[j] == kids[j - n];
      }
    }
  }

  lemma NextInListDistinct(before: seq<Timer>, todo: seq<Timer>)
    requires Distinct(before + todo) && todo != []
    ensures todo[0] !in before
    ensures Next(before + todo, todo[0]) == First(todo[1..])
  {
    var list := before + todo;
    assert list[|before|] == todo[0] && forall k :: 0 <= k < |before| ==> list[k] == before[k];
    NextInList(before, todo);
  }

  // ---- the scan ---------------------------------------------------------------------

  // How many visits a scan may owe to a timer and to those that it leads to. Expiries grow from
  // parent to child, so `depth` generations are enough.
  ghost function Visits(t: Timer, now: word, arms: Timer -> seq<Timer>, depth: nat): nat
    decreases depth, 0
  {
    if t.expires > now || depth == 0 then 1 else 1 + AllVisits(arms(t), now, arms, depth - 1)
  }

  ghost function AllVisits(list: seq<Timer>, now: word, arms: Timer -> seq<Timer>, depth: nat): nat
    decreases depth, |list| + 1
  {
    if list == [] then 0 else Visits(list[0], now, arms, depth) + AllVisits(list[1..], now, arms, depth)
  }

  // The generations that can still expire.
  function Depth(t: Timer, now: word): nat {
    if t.expires > now then 0 else now - t.expires + 1
  }

  lemma {:induction false} VisitsSettle(t: Timer, now: word, arms: Timer -> seq<Timer>, d: nat, e: nat)
    requires ArmsForward(arms, now) && Depth(t, now) <= d && Depth(t, now) <= e
    ensures Visits(t, now, arms, d) == Visits(t, now, arms, e)
    decreases d, 0
  {
    if t.expires <= now {
      assert forall k :: 0 <= k < |arms(t)| ==> Depth(arms(t)[k], now) < Depth(t, now);
      AllVisitsSettle(arms(t), now, arms, d - 1, e - 1);
    }
  }

  lemma {:induction false} AllVisitsSettle(list: seq<Timer>, now: word, arms: Timer -> seq<Timer>, d: nat, e: nat)
    requires ArmsForward(arms, now) && forall k :: 0 <= k < |list| ==>
               Depth(list[k], now) <= d && Depth(list[k], now) <= e
    ensures AllVisits(list, now, arms, d) == AllVisits(list, now, arms, e)
    decreases d, |list| + 1
  {
    if list != [] {
      VisitsSettle(list[0], now, arms, d, e);
      AllVisitsSettle(list[1..], now, arms, d, e);
    }
  }

  lemma {:induction false} AllVisitsConcat(a: seq<Timer>, b: seq<Timer>, now: word, arms: Timer -> seq<Timer>,
                                           depth: nat)
    ensures AllVisits(a + b, now, arms, depth) == AllVisits(a, now, arms, depth) + AllVisits(b, now, arms, depth)
    decreases |a|
  {
    if a == [] {
      assert a + b == b;
    } else {
      assert (a + b)[1..] == a[1..] + b;
      AllVisitsConcat(a[1..], b, now, arms, depth);
    }
  }

  // What is left of a scan that still has `todo` before it.
  ghost function Owed(todo: seq<Timer>, now: word, arms: Timer -> seq<Timer>): nat {
    AllVisits(todo, now, arms, now + 1)
  }

  // Every visit lowers what is owed.
  lemma OwesLess(todo: seq<Timer>, now: word, arms: Timer -> seq<Timer>)
    requires ArmsForward(arms, now) && todo != []
    ensures var t := todo[0];
            Owed(if t.expires <= now then todo[1..] + arms(t) else todo[1..], now, arms) < Owed(todo, now, arms)
  {
    var t, rest := todo[0], todo[1..];
    assert Owed(todo, now, arms) == Visits(t, now, arms, now + 1) + Owed(rest, now, arms);
    if t.expires <= now {
      AllVisitsConcat(rest, arms(t), now, arms, now + 1);
      AllVisitsSettle(arms(t), now, arms, now, now + 1);
      assert Visits(t, now, arms, now + 1) == 1 + AllVisits(arms(t), now, arms, now);
    }
  }

  datatype Outcome = Outcome(executed: seq<Timer>, left: seq<Timer>)

  // The scan of list_for_each_safe: the successor is read before the callback runs, so what the
  // callback of the last entry appends is not visited any more.
  ghost function Scan(todo: seq<Timer>, now: word, arms: Timer -> seq<Timer>): Outcome
    requires ArmsForward(arms, now)
    decreases Owed(todo, now, arms)
  {
    if todo == [] then Outcome([], [])
    else
      OwesLess(todo, now, arms);
      var t, rest := todo[0], todo[1..];
      if t.expires > now then
        var o := Scan(rest, now, arms);
        Outcome(o.executed, [t] + o.left)
      else if rest == [] then Outcome([t], arms(t))
      else
        var o := Scan(rest + arms(t), now, arms);
        Outcome([t] + o.executed, o.left)
  }

  // The list, the timers ever armed and the timers executed.
  datatype Queue = Queue(list: seq<Timer>, armed: set<Timer>, fired: seq<Timer>)

  // What one scan makes of a queue.
  ghost function Scanned(q: Queue, now: word, arms: Timer -> seq<Timer>): Queue
    requires ArmsForward(arms, now)
  {
    var o := Scan(q.list, now, arms);
    Queue(o.left, q.armed + (set c | c in Offspring(o.executed, arms)), q.fired + o.executed)
  }

  // Every expired timer of the list is executed, every other one is left, and what an executed
  // timer arms is executed or left.
  lemma {:induction false} ScanComplete(todo: seq<Timer>, now: word, arms: Timer -> seq<Timer>)
    requires ArmsForward(arms, now)
    ensures var o := Scan(todo, now, arms);
            && (forall t :: t in o.executed ==> t.expires <= now)
            && (forall t :: t in todo ==> if t.expires <= now then t in o.executed else t in o.left)
            && (forall t, c :: t in o.executed && c in arms(t) ==> c in o.executed || c in o.left)
    decreases Owed(todo, now, arms)
  {
    if todo != [] {
      OwesLess(todo, now, arms);
      var t, rest, o := todo[0], todo[1..], Scan(todo, now, arms);
      assert todo == [t] + rest;
      if t.expires > now {
        ScanComplete(rest, now, arms);
      } else if rest != [] {
        ScanComplete(rest + arms(t), now, arms);
        assert forall u :: u in rest || u in arms(t) ==> u in rest + arms(t);
      }
    }
  }

  // If every known timer that has expired is in `fired`, and what those arm is known, a scan of
  // known timers executes only such timers and leaves only known ones.
  lemma {:induction false} ScanCovered(todo: seq<Timer>, now: word, arms: Timer -> seq<Timer>, known: set<Timer>,
                                       fired: set<Timer>)
    requires ArmsForward(arms, now) && forall t :: t in todo ==> t in known
    requires forall t :: t in known && t.expires <= now ==> t in fired
    requires forall t, c :: t in fired && c in arms(t) ==> c in known
    ensures var o := Scan(todo, now, arms);
            (forall t :: t in o.executed ==> t in fired) && forall t :: t in o.left ==> t in known
    decreases Owed(todo, now, arms)
  {
    if todo != [] {
      OwesLess(todo, now, arms);
      var t, rest := todo[0], todo[1..];
      assert t in todo && forall u :: u in rest ==> u in todo;
      if t.expires > now {
        ScanCovered(rest, now, arms, known, fired);
      } else if rest != [] {
        ScanCovered(rest + arms(t), now, arms, known, fired);
      }
    }
  }

  lemma {:induction false} SiftConcat(a: seq<Timer>, b: seq<Timer>, now: word)
    ensures Expired(a + b, now) == Expired(a, now) + Expired(b, now)
    ensures Kept(a + b, now) == Kept(a, now) + Kept(b, now)
  {
    if a == [] {
      assert a + b == b;
    } else {
      assert (a + b)[1..] == a[1..] + b;
      SiftConcat(a[1..], b, now);
      var due := a[0].expires <= now;
      Assoc(if due then [a[0]] else [], Expired(a[1..], now), Expired(b, now));
      Assoc(if due then [] else [a[0]], Kept(a[1..], now), Kept(b, now));
    }
  }

  lemma {:induction false} SiftLater(list: seq<Timer>, now: word)
    requires forall t :: t in list ==> t.expires > now
    ensures Expired(list, now) == [] && Kept(list, now) == list
  {
    if list != [] {
      assert list[0] in list && forall t :: t in list[1..] ==> t in list;
      SiftLater(list[1..], now);
    }
  }

  lemma {:induction false} OffspringCons(t: Timer, ts: seq<Timer>, arms: Timer -> seq<Timer>)
    ensures Offspring([t] + ts, arms) == arms(t) + Offspring(ts, arms)
    decreases |ts|
  {
    var whole := [t] + ts;
    if ts == [] {
      assert whole[..0] == [] && Offspring([], arms) == [];
    } else {
      var init := ts[..|ts| - 1];
      assert whole[..|whole| - 1] == [t] + init;
      OffspringCons(t, init, arms);
      Assoc(arms(t), Offspring(init, arms), arms(ts[|ts| - 1]));
    }
  }

  lemma SiftNothing(now: word, arms: Timer -> seq<Timer>)
    ensures Expired([], now) == [] && Kept([], now) == [] && Offspring([], arms) == []
  {
  }

  // What is expired and kept of a list, and of the list that the scan goes on with.
  lemma SiftStep(todo: seq<Timer>, now: word, arms: Timer -> seq<Timer>)
    requires todo != [] && forall c :: c in arms(todo[0]) ==> c.expires > now
    ensures var t, rest := todo[0], todo[1..];
            if t.expires > now then Expired(todo, now) == Expired(rest, now) && Kept(todo, now) == [t] + Kept(rest, now)
            else
              && Expired(todo, now) == [t] + Expired(rest, now) && Kept(todo, now) == Kept(rest, now)
              && Expired(rest + arms(t), now) == Expired(rest, now) &&
              Kept(rest + arms(t), now) == Kept(rest, now) + arms(t)
              && Offspring(Expired(todo, now), arms) == arms(t) + Offspring(Expired(rest, now), arms)
  {
    var t, rest := todo[0], todo[1..];
    if t.expires <= now {
      SiftConcat(rest, arms(t), now);
      SiftLater(arms(t), now);
      OffspringCons(t, Expired(rest, now), arms);
    }
  }

  // When nothing armed expires by `now`, the scan executes exactly the expired timers of the list
  // and leaves the others, followed by what was armed.
  lemma {:induction false} ScanPlain(todo: seq<Timer>, now: word, arms: Timer -> seq<Timer>)
    requires ArmsForward(arms, now) && forall t, c :: c in arms(t) ==> c.expires > now
    ensures Scan(todo, now, arms).executed == Expired(todo, now)
    ensures Scan(todo, now, arms).left == Kept(todo, now) + Offspring(Expired(todo, now), arms)
    decreases Owed(todo, now, arms)
  {
    if todo == [] {
      assert Expired(todo, now) == [] && Kept(todo, now) == [] && Offspring([], arms) == [];
    } else {
      OwesLess(todo, now, arms);
      hide Expired, Kept, Offspring, Owed;
      var t, rest := todo[0], todo[1..];
      SiftStep(todo, now, arms);
      if t.expires > now {
        ScanPlain(rest, now, arms);
        Assoc([t], Kept(rest, now), Offspring(Expired(rest, now), arms));
      } else if rest != [] {
        ScanPlain(rest + arms(t), now, arms);
        Assoc(Kept(rest, now), arms(t), Offspring(Expired(rest, now), arms));
      } else {
        SiftNothing(now, arms);
      }
    }
  }

  // ---- what a scan misses -----------------------------------------------------------

  // The list holds no timer that has expired.
  ghost predicate NothingOverdue(list: seq<Timer>, now: word) {
    forall t :: t in list ==> t.expires > now
  }

  // What the callbacks of one pass over the list append.
  function NextGen(list: seq<Timer>, now: word, arms: Timer -> seq<Timer>): seq<Timer> {
    Offspring(Expired(list, now), arms)
  }

  // The last entry alone appends anything, and what it appends has expired in part.
  predicate Alone(list: seq<Timer>, now: word, arms: Timer -> seq<Timer>) {
    list != [] &&
    var init, t := list[..|list| - 1], list[|list| - 1];
    t.expires <= now && NextGen(init, now, arms) == [] && exists c :: c in arms(t) && c.expires <= now
  }

  lemma NextGenCons(t: Timer, list: seq<Timer>, now: word, arms: Timer -> seq<Timer>)
    ensures NextGen([t] + list, now, arms)
            == if t.expires <= now then arms(t) + NextGen(list, now, arms) else NextGen(list, now, arms)
  {
    assert ([t] + list)[1..] == list;
    if t.expires <= now {
      OffspringCons(t, Expired(list, now), arms);
    } else {
      assert [] + Expired(list, now) == Expired(list, now);
    }
  }

  // One pass over `rest` moves on to what it appends behind `acc`, and owes less.
  lemma {:induction false} PassOwesLess(rest: seq<Timer>, acc: seq<Timer>, now: word, arms: Timer -> seq<Timer>)
    requires ArmsForward(arms, now)
    ensures Owed(acc + NextGen(rest, now, arms), now, arms) + |rest| <= Owed(rest + acc, now, arms)
    decreases |rest|
  {
    if rest == [] {
      SiftNothing(now, arms);
      assert rest + acc == acc == acc + [];
    } else {
      hide Owed, NextGen;
      var t, r := rest[0], rest[1..];
      assert rest == [t] + r && (rest + acc)[1..] == r + acc;
      NextGenCons(t, r, now, arms);
      OwesLess(rest + acc, now, arms);
      if t.expires <= now {
        Assoc(r, acc, arms(t));
        Assoc(acc, arms(t), NextGen(r, now, arms));
        PassOwesLess(r, acc + arms(t), now, arms);
      } else {
        PassOwesLess(r, acc, now, arms);
      }
    }
  }

  // A scan misses an expired timer if in one of its passes the last entry alone appends any.
  predicate Misses(list: seq<Timer>, now: word, arms: Timer -> seq<Timer>)
    requires ArmsForward(arms, now)
    decreases Owed(list, now, arms)
  {
    list != [] &&
    (Alone(list, now, arms) ||
     (var next := NextGen(list, now, arms);
      PassOwesLess(list, [], now, arms);
      assert list + [] == list && [] + next == next;
      Misses(next, now, arms)))
  }

  // The pass ends with an expired entry, before which none has appended anything.
  predicate Stops(list: seq<Timer>, now: word, arms: Timer -> seq<Timer>) {
    list != [] && list[|list| - 1].expires <= now && NextGen(list[..|list| - 1], now, arms) == []
  }

  lemma StopsCons(t: Timer, r: seq<Timer>, now: word, arms: Timer -> seq<Timer>)
    ensures r != [] ==> (Stops([t] + r, now, arms) <==> Stops(r, now, arms) && (t.expires <= now ==> arms(t) == []))
    ensures Stops([t], now, arms) <==> t.expires <= now
  {
    SiftNothing(now, arms);
    assert [t][..0] == [];
    if r != [] {
      var list := [t] + r;
      assert list[..|list| - 1] == [t] + r[..|r| - 1] && list[|list| - 1] == r[|r| - 1];
      NextGenCons(t, r[..|r| - 1], now, arms);
    }
  }

  lemma StopsNothing(now: word, arms: Timer -> seq<Timer>)
    ensures !Stops([], now, arms)
  {
  }

  lemma SiftCons(t: Timer, r: seq<Timer>, now: word)
    ensures Expired([t] + r, now) == (if t.expires <= now then [t] else []) + Expired(r, now)
    ensures Kept([t] + r, now) == (if t.expires <= now then [] else [t]) + Kept(r, now)
  {
    assert ([t] + r)[1..] == r;
  }

  // The scan goes pass by pass: it executes the expired entries in list order, and then what they
  // appended, unless the pass ends with the entry that appends first.
  lemma {:induction false} ScanPass(rest: seq<Timer>, acc: seq<Timer>, now: word, arms: Timer -> seq<Timer>)
    requires ArmsForward(arms, now)
    ensures var o, next := Scan(rest + acc, now, arms), acc + NextGen(rest, now, arms);
            if acc == [] && Stops(rest, now, arms) then
              o.executed == Expired(rest, now) && o.left == Kept(rest, now) + next
            else
              && o.executed == Expired(rest, now) + Scan(next, now, arms).executed
              && o.left == Kept(rest, now) + Scan(next, now, arms).left
    decreases |rest|
  {
    if rest == [] {
      SiftNothing(now, arms);
      assert rest + acc == acc == acc + [];
    } else {
      var t, r := rest[0], rest[1..];
      assert rest == [t] + r && (rest + acc)[1..] == r + acc;
      NextGenCons(t, r, now, arms);
      StopsCons(t, r, now, arms);
      SiftCons(t, r, now);
      SiftNothing(now, arms);
      hide Stops, NextGen, ArmsForward, Owed, Expired, Kept;
      if t.expires > now {
        ScanPass(r, acc, now, arms);
        var next := acc + NextGen(r, now, arms);
        assert [] + Expired(r, now) == Expired(r, now);
        Assoc([t], Kept(r, now), next);
        Assoc([t], Kept(r, now), Scan(next, now, arms).left);
        assert r == [] ==> rest == [t] && !Stops(r, now, arms) by { if r == [] { StopsNothing(now, arms); } }
      } else if r + acc == [] {
        assert rest == [t] && acc + NextGen(rest, now, arms) == arms(t);
        assert [t] + [] == [t] && [] + arms(t) == arms(t);
      } else {
        Assoc(r, acc, arms(t));
        Assoc(acc, arms(t), NextGen(r, now, arms));
        ScanPass(r, acc + arms(t), now, arms);
        assert [] + Kept(r, now) == Kept(r, now);
        Assoc([t], Expired(r, now), Scan(acc + NextGen(rest, now, arms), now, arms).executed);
      }
    }
  }

  // The scan leaves a timer that has expired.
  ghost predicate Over(list: seq<Timer>, now: word, arms: Timer -> seq<Timer>)
    requires ArmsForward(arms, now)
  {
    !NothingOverdue(Scan(list, now, arms).left, now)
  }

  lemma {:induction false} NothingToDo(list: seq<Timer>, now: word, arms: Timer -> seq<Timer>)
    requires ArmsForward(arms, now) && NothingOverdue(list, now)
    ensures Scan(list, now, arms).left == list
    decreases |list|
  {
    if list != [] {
      assert list[0] in list && forall t :: t in list[1..] ==> t in list;
      NothingToDo(list[1..], now, arms);
    }
  }

  lemma AloneCons(t: Timer, r: seq<Timer>, now: word, arms: Timer -> seq<Timer>)
    requires r != []
    ensures Alone([t] + r, now, arms) <==> Alone(r, now, arms) && (t.expires <= now ==> arms(t) == [])
  {
    hide NextGen;
    var list := [t] + r;
    assert list[..|list| - 1] == [t] + r[..|r| - 1] && list[|list| - 1] == r[|r| - 1];
    NextGenCons(t, r[..|r| - 1], now, arms);
  }

  lemma AloneLast(t: Timer, now: word, arms: Timer -> seq<Timer>)
    ensures Alone([t], now, arms) <==> t.expires <= now && !NothingOverdue(arms(t), now)
    ensures NextGen([t], now, arms) == if t.expires <= now then arms(t) else []
  {
    SiftNothing(now, arms);
    NextGenCons(t, [], now, arms);
    assert [t] + [] == [t] && [t][..0] == [];
  }

  // One step of the scan, as far as it matters here.
  lemma OverStep(t: Timer, todo: seq<Timer>, now: word, arms: Timer -> seq<Timer>)
    requires ArmsForward(arms, now)
    ensures Over([t] + todo, now, arms)
            <==> if t.expires > now then Over(todo, now, arms)
                 else if todo == [] then !NothingOverdue(arms(t), now)
                 else Over(todo + arms(t), now, arms)
  {
    assert ([t] + todo)[1..] == todo;
    if t.expires > now {
      var left := Scan(todo, now, arms).left;
      assert forall u :: u in [t] + left <==> u == t || u in left;
    }
  }

  lemma AloneSkips(t: Timer, r: seq<Timer>, now: word, arms: Timer -> seq<Timer>)
    requires t.expires > now
    ensures Alone([t] + r, now, arms) <==> Alone(r, now, arms)
  {
    if r == [] {
      AloneLast(t, now, arms);
      assert [t] + r == [t];
    } else {
      AloneCons(t, r, now, arms);
    }
  }

  lemma LastOver(list: seq<Timer>, now: word, arms: Timer -> seq<Timer>)
    requires ArmsForward(arms, now) && NothingOverdue(list, now)
    ensures !Over(list, now, arms)
  {
    NothingToDo(list, now, arms);
  }

  // One pass: unless the last entry alone appends, the scan goes on with what the pass appends.
  lemma {:induction false} OverPass(rest: seq<Timer>, acc: seq<Timer>, now: word, arms: Timer -> seq<Timer>)
    requires ArmsForward(arms, now)
    ensures Over(rest + acc, now, arms)
            <==> (acc == [] && Alone(rest, now, arms)) || Over(acc + NextGen(rest, now, arms), now, arms)
    decreases |rest|
  {
    if rest == [] {
      SiftNothing(now, arms);
      assert rest + acc == acc == acc + [];
    } else {
      hide Over, Alone, NextGen, ArmsForward, Owed;
      var t, r := rest[0], rest[1..];
      assert rest == [t] + r && rest + acc == [t] + (r + acc);
      NextGenCons(t, r, now, arms);
      OverStep(t, r + acc, now, arms);
      if t.expires > now {
        OverPass(r, acc, now, arms);
        AloneSkips(t, r, now, arms);
      } else if r + acc == [] {
        AloneLast(t, now, arms);
        if NothingOverdue(arms(t), now) { LastOver(arms(t), now, arms); }
        assert acc + NextGen(rest, now, arms) == arms(t);
      } else {
        Assoc(r, acc, arms(t));
        Assoc(acc, arms(t), NextGen(r, now, arms));
        OverPass(r, acc + arms(t), now, arms);
        if acc == [] {
          AloneCons(t, r, now, arms);
        }
      }
    }
  }

  // The scan leaves an expired timer exactly when it misses one, which a look at the list and the
  // callbacks tells beforehand.
  lemma {:induction false} OverIsMisses(list: seq<Timer>, now: word, arms: Timer -> seq<Timer>)
    requires ArmsForward(arms, now)
    ensures NothingOverdue(Scan(list, now, arms).left, now) <==> !Misses(list, now, arms)
    decreases Owed(list, now, arms)
  {
    if list != [] {
      var next := NextGen(list, now, arms);
      OverPass(list, [], now, arms);
      PassOwesLess(list, [], now, arms);
      assert list + [] == list && [] + next == next;
      OverIsMisses(next, now, arms);
    }
  }

  // ---- the scan in steps ------------------------------------------------------------

  // The scan has kept `kept`, executed `done` and has `todo` before it.
  ghost predicate Scanning(q0: Queue, q: Queue, kept: seq<Timer>, done: seq<Timer>, todo: seq<Timer>,
                           now: word, arms: Timer -> seq<Timer>)
    requires ArmsForward(arms, now)
  {
    var all, o := Scan(q0.list, now, arms), Scan(todo, now, arms);
    && q == Queue(kept + todo, q0.armed + (set c | c in Offspring(done, arms)), q0.fired + done)
    && all.executed == done + o.executed && all.left == kept + o.left
  }

  lemma ScanBegins(q: Queue, now: word, arms: Timer -> seq<Timer>)
    requires ArmsForward(arms, now)
    ensures Scanning(q, q, [], [], q.list, now, arms)
  {
    hide Scan;
    assert q.fired + [] == q.fired;
  }

  lemma ScanSkips(q0: Queue, q: Queue, kept: seq<Timer>, done: seq<Timer>, todo: seq<Timer>, now: word,
                  arms: Timer -> seq<Timer>)
    requires ArmsForward(arms, now)
    requires Scanning(q0, q, kept, done, todo, now, arms) && todo != [] && todo[0].expires > now
    ensures Scanning(q0, q, kept + [todo[0]], done, todo[1..], now, arms)
  {
    ConsAssoc(kept, todo, []);
    Assoc(kept, [todo[0]], Scan(todo[1..], now, arms).left);
  }

  lemma UnlinkFirst(done: seq<Timer>, todo: seq<Timer>, kids: seq<Timer>)
    requires todo != [] && Distinct(done + todo)
    ensures Without(done + todo + kids, todo[0]) == done + (todo[1..] + kids)
  {
    NextInListDistinct(done, todo);
    Assoc(done, todo, kids);
    NextInList(done, todo + kids);
    ConsAssoc(done, todo, kids);
  }

  lemma OffspringSnoc(ts: seq<Timer>, t: Timer, arms: Timer -> seq<Timer>)
    ensures Offspring(ts + [t], arms) == Offspring(ts, arms) + arms(t)
    ensures (set c | c in Offspring(ts + [t], arms)) == (set c | c in Offspring(ts, arms)) + (set c | c in arms(t))
  {
    assert (ts + [t])[..|ts|] == ts;
    SetOfConcat(Offspring(ts, arms), arms(t));
  }

  // The queue after the callback of `t` ran and `t` was unlinked.
  ghost function Ended(q: Queue, t: Timer, arms: Timer -> seq<Timer>): Queue {
    Queue(Without(q.list + arms(t), t), q.armed + (set c | c in arms(t)), q.fired + [t])
  }

  lemma EndedFacts(q0: Queue, q: Queue, kept: seq<Timer>, done: seq<Timer>, todo: seq<Timer>, now: word,
                   arms: Timer -> seq<Timer>)
    requires ArmsForward(arms, now) && Sane(q.list, q.armed, q.fired)
    requires Scanning(q0, q, kept, done, todo, now, arms) && todo != [] && todo[0].expires <= now
    ensures var t := todo[0];
            var q' := Ended(q, t, arms);
            && q' == Queue(kept + (todo[1..] + arms(t)), q0.armed + (set c | c in Offspring(done + [t], arms)),
                q0.fired + (done + [t]))
            && Sane(q'.list, q'.armed, q'.fired)
  {
    hide Scan;
    var t := todo[0];
    UnlinkFirst(kept, todo, arms(t));
    ConsAssoc(kept, todo, []);
    ExecuteKeepsSane(kept, t, todo[1..], arms(t), q.armed, q.fired);
    Assoc(kept, todo[1..], arms(t));
    Assoc(q0.fired, done, [t]);
    OffspringSnoc(done, t, arms);
  }

  // An expired entry with a successor: the scan goes on with what the callback appended.
  lemma ScanFires(q0: Queue, q: Queue, kept: seq<Timer>, done: seq<Timer>, todo: seq<Timer>, now: word,
                  arms: Timer -> seq<Timer>)
    requires ArmsForward(arms, now) && Sane(q.list, q.armed, q.fired)
    requires Scanning(q0, q, kept, done, todo, now, arms) && |todo| > 1 && todo[0].expires <= now
    ensures Scanning(q0, Ended(q, todo[0], arms), kept, done + [todo[0]], todo[1..] + arms(todo[0]), now, arms)
  {
    EndedFacts(q0, q, kept, done, todo, now, arms);
    Assoc(done, [todo[0]], Scan(todo[1..] + arms(todo[0]), now, arms).executed);
  }

  // The last entry: the scan is over.
  lemma ScanEnds(q0: Queue, q: Queue, kept: seq<Timer>, done: seq<Timer>, todo: seq<Timer>, now: word,
                 arms: Timer -> seq<Timer>)
    requires ArmsForward(arms, now) && Sane(q.list, q.armed, q.fired)
    requires Scanning(q0, q, kept, done, todo, now, arms) && |todo| == 1 && todo[0].expires <= now
    ensures Ended(q, todo[0], arms) == Scanned(q0, now, arms)
  {
    EndedFacts(q0, q, kept, done, todo, now, arms);
    assert todo[1..] + arms(todo[0]) == arms(todo[0]);
  }

  lemma ScanRunsOut(q0: Queue, q: Queue, kept: seq<Timer>, done: seq<Timer>, now: word, arms: Timer -> seq<Timer>)
    requires ArmsForward(arms, now) && Scanning(q0, q, kept, done, [], now, arms)
    ensures q == Scanned(q0, now, arms)
  {
    assert Scan([], now, arms) == Outcome([], []);
    assert done + [] == done && kept + [] == kept;
  }

  lemma ScanNext(q0: Queue, q: Queue, kept: seq<Timer>, done: seq<Timer>, todo: seq<Timer>, now: word,
                 arms: Timer -> seq<Timer>)
    requires ArmsForward(arms, now) && Sane(q.list, q.armed, q.fired)
    requires Scanning(q0, q, kept, done, todo, now, arms) && todo != []
    ensures Next(q.list, todo[0]) == First(todo[1..])
  {
    hide Scan;
    NextInListDistinct(kept, todo);
  }

  class TimerQueue {
    var list: seq<Timer>
    ghost var armed: set<Timer>
    ghost var fired: seq<Timer>

    ghost predicate Valid()
      reads this
    {
      Sane(list, armed, fired)
    }

    ghost function Contents(): Queue
      reads this
    {
      Queue(list, armed, fired)
    }

    constructor ()
      ensures Valid() && list == [] && armed == {} && fired == []
    {
      list, armed, fired := [], {}, [];
    }

    method AddTimer(t: Timer)
      requires Valid() && t.id.Client? && t !in armed
      modifies this
      ensures Valid() && list == old(list) + [t] && armed == old(armed) + {t} && fired == old(fired)
    {
      list := list + [t];
      armed := armed + {t};
    }

    method DelTimer(t: Timer)
      requires Valid()
      modifies this`list
      ensures Valid() && list == Without(old(list), t)
      ensures forall u :: u in list <==> u in old(list) && u != t
    {
      if t in list {
        WithoutFacts(list, t);
      } else {
        WithoutOther(list, t);
      }
      list := Without(list, t);
    }

    // An expired timer runs its callback and leaves the list.
    method Execute(t: Timer, arms: Timer -> seq<Timer>)
      modifies this
      ensures Contents() == Ended(old(Contents()), t, arms)
    {
      list := list + arms(t);
      list := Without(list, t);
      armed := armed + (set c | c in arms(t));
      fired := fired + [t];
    }

    // One entry of the scan; `last` is whether it has no successor.
    method Visit(t: Timer, now: word, arms: Timer -> seq<Timer>, ghost q0: Queue,
                 ghost kept: seq<Timer>, ghost done: seq<Timer>, ghost todo: seq<Timer>)
      returns (ghost kept': seq<Timer>, ghost done': seq<Timer>, ghost todo': seq<Timer>)
      requires Valid() && ArmsForward(arms, now) && Scanning(q0, Contents(), kept, done, todo, now, arms)
      requires todo != [] && t == todo[0]
      modifies this
      ensures Valid()
      ensures |todo| == 1 ==> Contents() == Scanned(q0, now, arms)
      ensures |todo| > 1 ==>
                Scanning(q0, Contents(), kept', done', todo', now, arms) && todo' != [] && todo'[0] == todo[1]
      ensures |todo| > 1 ==> Owed(todo', now, arms) < Owed(todo, now, arms)
    {
      hide Scanning, Sane, Scanned, Ended, Owed;
      OwesLess(todo, now, arms);
      kept', done', todo' := kept, done, [];
      if t.expires <= now {
        EndedFacts(q0, Contents(), kept, done, todo, now, arms);
        if |todo| > 1 {
          ScanFires(q0, Contents(), kept, done, todo, now, arms);
          todo', done' := todo[1..] + arms(t), done + [t];
        } else {
          ScanEnds(q0, Contents(), kept, done, todo, now, arms);
        }
        Execute(t, arms);
      } else {
        ScanSkips(q0, Contents(), kept, done, todo, now, arms);
        todo', kept' := todo[1..], kept + [t];
        if |todo| == 1 {
          ScanRunsOut(q0, Contents(), kept', done, now, arms);
        }
      }
    }

    // The #else branch of run_timer_softirq: one scan of the whole list.
    method RunTimerSoftirq(now: word, arms: Timer -> seq<Timer>)
      requires Valid() && ArmsForward(arms, now)
      modifies this
      ensures Valid() && Contents() == Scanned(old(Contents()), now, arms)
    {
      hide Scanning, Sane, Scanned, Owed;
      ghost var q0 := Contents();
      ghost var kept: seq<Timer>, done: seq<Timer>, todo := [], [], list;
      ScanBegins(q0, now, arms);
      var it := First(list);
      var tmp := First(list);
      if it.Entry? {
        ScanNext(q0, Contents(), kept, done, todo, now, arms);
        tmp := Next(list, it.timer);
      } else {
        ScanRunsOut(q0, Contents(), kept, done, now, arms);
      }
      while it.Entry?
        invariant Valid()
        invariant it.Entry? ==> todo != [] && it == First(todo) && tmp == First(todo[1..])
        invariant it.Entry? ==> Scanning(q0, Contents(), kept, done, todo, now, arms)
        invariant it.Head? ==> Contents() == Scanned(q0, now, arms)
        decreases it.Entry?, Owed(todo, now, arms)
      {
        kept, done, todo := Visit(it.timer, now, arms, q0, kept, done, todo);
        it := tmp;
        tmp := First(list);
        if it.Entry? {
          ScanNext(q0, Contents(), kept, done, todo, now, arms);
          tmp := Next(list, it.timer);
        }
      }
    }
  }
}
