/** What the wheel executes and keeps pending against what the plain list does. */
module TimerRefinement {
  import opened Arith
  import opened Seqs
  import opened TimerWheelModel
  import opened TimerWheelState
  import opened TimerWheel
  import opened TimerList

  // Every pending timer is due at its expiry, or was armed after it and is due by now.
  ghost predicate Punctual(l: Log, now: word) {
    forall t :: t in l.loc ==> t in l.due && (l.due[t] == t.expires || t.expires < l.due[t] <= now)
  }

  // Both systems have armed, executed and kept pending the same timers.
  ghost predicate InStep(w: Wheel, l: Log, q: Queue) {
    && Punctual(l, w.ticks)
    && (forall t :: t in l.loc <==> t in q.list)
    && l.due.Keys == q.armed
    && (forall t :: t in Timers(l.fired) <==> t in q.fired)
  }

  // ---- callbacks --------------------------------------------------------------------

  // The tick in which a timer that is pending at `from` runs.
  function RunsAt(t: Timer, from: word): word {
    if t.expires < from then from else t.expires
  }

  // The callback of a timer that runs by `now` arms objects of its own, for ticks after the one
  // it runs in and less than 2^31 away.
  ghost predicate Arms(arms: Timer -> seq<Timer>, from: word, now: word) {
    && ArmsForward(arms, now)
    && forall t, k | 0 <= k < |arms(t)| && t.expires <= now ::
      arms(t)[k].id == Child(t, k) && RunsAt(t, from) < arms(t)[k].expires < RunsAt(t, from) + HALF
  }

  // Nothing that a callback arms expires by `now`.
  ghost predicate ArmsAfter(arms: Timer -> seq<Timer>, from: word, now: word) {
    forall t, k | 0 <= k < |arms(t)| :: arms(t)[k].id == Child(t, k) && now < arms(t)[k].expires < from + HALF
  }

  // The callback as the wheel calls it, in the tick that the timer runs in.
  function Timed(arms: Timer -> seq<Timer>, from: word): Callback {
    (t, tick) => if tick == RunsAt(t, from) then arms(t) else []
  }

  lemma ArmsIsArmsLater(arms: Timer -> seq<Timer>, from: word, now: word)
    requires Arms(arms, from, now) && from <= now
    ensures ArmsLater(Timed(arms, from), from, now) && ArmsForward(arms, now)
  {
    forall t, tick: word, k | from <= tick <= now && 0 <= k < |Timed(arms, from)(t, tick)|
      ensures Timed(arms, from)(t, tick)[k].id == Child(t, k) && Due(tick, Timed(arms, from)(t, tick)[k].expires) > tick
    {
      assert tick == RunsAt(t, from) && Timed(arms, from)(t, tick) == arms(t) && t.expires <= now;
      DueIsExpiry(tick, arms(t)[k].expires);
    }
  }

  lemma AfterIsArms(arms: Timer -> seq<Timer>, from: word, now: word)
    requires ArmsAfter(arms, from, now) && from <= now
    ensures Arms(arms, from, now) && forall t, c :: c in arms(t) ==> c.expires > now
  {
  }

  // ---- starting, arming and deleting --------------------------------------------------

  lemma StartInStep(w: Wheel, l: Log)
    requires l == Log(map[], map[], {}, [])
    ensures InStep(w, l, Queue([], {}, []))
  {
  }

  // A timer may be armed in both systems whenever its expiry is less than 2^31 ticks away.
  lemma ArmInStep(w: Wheel, l: Log, q: Queue, t: Timer)
    requires Rest(w, l) && InStep(w, l, q) && t !in l.due && t.id.Client?
    requires -HALF <= t.expires - w.ticks < HALF
    ensures t !in q.armed
    ensures InStep(Insert(w, t), Armed(l, w.ticks, t), Queue(q.list + [t], q.armed + {t}, q.fired))
  {
    DueIsExpiry(w.ticks, t.expires);
    var l' := Armed(l, w.ticks, t);
    forall u | u in l'.loc
      ensures u in l'.due && (l'.due[u] == u.expires || u.expires < l'.due[u] <= w.ticks)
    {
      assert u != t ==> u in l.loc;
    }
  }

  // Any timer, pending or not, may be deleted in both systems.
  lemma DeleteInStep(w: Wheel, l: Log, q: Queue, t: Timer)
    requires InStep(w, l, q) && Distinct(q.list)
    ensures InStep(Removed(w, l, t), Deleted(l, t), Queue(Without(q.list, t), q.armed, q.fired))
  {
    hide Without;
    if t in q.list {
      WithoutFacts(q.list, t);
    } else {
      WithoutOther(q.list, t);
    }
  }

  // ---- one run --------------------------------------------------------------------------

  // The facts of one run of the wheel that the comparison needs: the histories before and
  // after, with everything due by `now` executed.
  ghost predicate RanTo(l: Log, l': Log, from: word, now: word, arms: Timer -> seq<Timer>) {
    && from <= now && Accounts(l) && Families(l, {}) && Punctual(l, from)
    && Accounts(l') && OnTime(l', now)
    && (forall t :: t in l'.loc ==> t in l'.due && now < l'.due[t])
    && Grew(l, l', Timed(arms, from), from)
    && Arms(arms, from, now)
  }

  ghost function NewFirings(l: Log, l': Log): seq<Firing>
  {
    if |l.fired| <= |l'.fired| then l'.fired[|l.fired|..] else []
  }

  lemma RestRanTo(w: Wheel, l: Log, w': Wheel, l': Log, now: word, arms: Timer -> seq<Timer>)
    requires Rest(w, l) && Rest(w', l') && w.ticks <= now && w'.ticks == now + 1 && Punctual(l, w.ticks)
    requires Grew(l, l', Timed(arms, w.ticks), w.ticks) && Arms(arms, w.ticks, now)
    ensures RanTo(l, l', w.ticks, now, arms)
  {
    PendingIsNotPast(w', l');
  }

  lemma NewAmongFirings(fs: seq<Firing>, fs': seq<Firing>, f: Firing)
    requires fs <= fs' && f in fs'[|fs|..]
    requires forall i, j :: 0 <= i < j < |fs'| ==> fs'[i].timer != fs'[j].timer
    ensures f in fs' && f.timer !in Timers(fs)
  {
    var j :| 0 <= j < |fs'| - |fs| && fs'[|fs|..][j] == f;
    assert fs'[|fs| + j] == f;
    forall g | g in fs
      ensures g.timer != f.timer
    {
      var i :| 0 <= i < |fs| && fs[i] == g;
      assert fs'[i] == g;
    }
  }

  // A firing of this run is not an older one.
  lemma NewIsNotOld(l: Log, l': Log, from: word, now: word, arms: Timer -> seq<Timer>, f: Firing)
    requires RanTo(l, l', from, now, arms) && f in NewFirings(l, l')
    ensures f.timer !in Timers(l.fired) && f.timer !in l.deleted && f.timer !in l'.loc
    ensures f.timer in l'.due && from <= f.tick == l'.due[f.timer] <= now
  {
    hide Families, Arms, KidsDue, Punctual;
    NewAmongFirings(l.fired, l'.fired, f);
    assert f.timer in Timers(l'.fired);
  }

  // What a callback of this run armed is due at its expiry, and is new.
  lemma KidIsNew(l: Log, l': Log, from: word, now: word, arms: Timer -> seq<Timer>, f: Firing, c: Timer)
    requires RanTo(l, l', from, now, arms) && f in NewFirings(l, l') && c in Timed(arms, from)(f.timer, f.tick)
    ensures c in arms(f.timer) && c.id.Child? && f.tick == RunsAt(f.timer, from)
    ensures c in l'.due && l'.due[c] == c.expires > f.tick
    ensures c !in l.due
  {
    NewIsNotOld(l, l', from, now, arms, f);
    assert f.tick == RunsAt(f.timer, from) && f.timer.expires <= now;
    assert c.id.Child? && c.id.parent == f.timer;
    DueIsExpiry(f.tick, c.expires);
    assert KidsDue(l'.due, NewFirings(l, l'), Timed(arms, from));
  }

  // Where a timer of this run comes from: it was pending, or another timer of the run armed it.
  lemma Origin(l: Log, l': Log, from: word, now: word, arms: Timer -> seq<Timer>, f: Firing) returns (g: Firing)
    requires RanTo(l, l', from, now, arms) && f in NewFirings(l, l')
    ensures f.timer in l.loc || (g in NewFirings(l, l') && f.timer in Timed(arms, from)(g.timer, g.tick))
    ensures f.timer in l.loc ==> f.tick == RunsAt(f.timer, from)
  {
    hide Arms, Families;
    NewIsNotOld(l, l', from, now, arms, f);
    g := f;
    if f.timer !in l.due {
      assert f.timer in Kids(NewFirings(l, l'), Timed(arms, from));
      g :| g in NewFirings(l, l') && f.timer in Timed(arms, from)(g.timer, g.tick);
    }
  }

  // A timer runs in the tick of its expiry, or at once if that is past.
  lemma RunsOnExpiry(l: Log, l': Log, from: word, now: word, arms: Timer -> seq<Timer>, f: Firing)
    requires RanTo(l, l', from, now, arms) && f in NewFirings(l, l')
    ensures f.tick == RunsAt(f.timer, from)
  {
    hide RanTo;
    var g := Origin(l, l', from, now, arms, f);
    if f.timer !in l.loc {
      NewIsNotOld(l, l', from, now, arms, g);
      NewIsNotOld(l, l', from, now, arms, f);
      KidIsNew(l, l', from, now, arms, g, f.timer);
    }
  }

  lemma FiredAfterAll(l: Log, l': Log, t: Timer)
    requires l.fired <= l'.fired && t in Timers(l'.fired) && t !in Timers(l.fired)
    ensures t in Timers(NewFirings(l, l'))
  {
    var f :| f in l'.fired && f.timer == t;
    var i :| 0 <= i < |l'.fired| && l'.fired[i] == f;
    assert forall k :: 0 <= k < |l.fired| ==> l'.fired[k] == l.fired[k] && l.fired[k] in l.fired;
    assert NewFirings(l, l')[i - |l.fired|] == f;
  }

  // What was pending, and what the run armed.
  ghost function Known(l: Log, l': Log, arms: Timer -> seq<Timer>, from: word): set<Timer> {
    l.loc.Keys + Kids(NewFirings(l, l'), Timed(arms, from))
  }

  lemma NotOldNotDeleted(l: Log, l': Log, t: Timer)
    requires Accounts(l) && Accounts(l') && l'.deleted == l.deleted && l.fired <= l'.fired && t in l'.due
    requires t in l.loc || t !in l.due
    ensures t !in l'.deleted && t !in Timers(l.fired) && (t in l'.loc || t in Timers(l'.fired))
  {
  }

  lemma NotYetFired(l': Log, now: word, t: Timer)
    requires OnTime(l', now) && t in l'.due && l'.due[t] > now
    ensures t !in Timers(l'.fired)
  {
  }

  lemma KnownDue(l: Log, l': Log, from: word, now: word, arms: Timer -> seq<Timer>, t: Timer)
    requires RanTo(l, l', from, now, arms) && t in Known(l, l', arms, from)
    ensures t in l'.due && (l'.due[t] <= now <==> t.expires <= now) && (t.expires > now ==> l'.due[t] == t.expires)
    ensures t in l.loc || t !in l.due
  {
    hide Arms, Families, KidsDue, Accounts, OnTime;
    if t !in l.loc {
      var f :| f in NewFirings(l, l') && t in Timed(arms, from)(f.timer, f.tick);
      KidIsNew(l, l', from, now, arms, f, t);
    }
  }

  // A known timer that expires by `now` is executed, any other one is pending.
  lemma KnownRuns(l: Log, l': Log, from: word, now: word, arms: Timer -> seq<Timer>, t: Timer)
    requires RanTo(l, l', from, now, arms) && t in Known(l, l', arms, from)
    ensures t.expires <= now ==> t in Timers(NewFirings(l, l'))
    ensures t.expires > now ==> t in l'.loc && l'.due[t] == t.expires
  {
    hide Arms, Families, KidsDue, Accounts, OnTime, Kids, Timers, NewFirings, Punctual;
    KnownDue(l, l', from, now, arms, t);
    NotOldNotDeleted(l, l', t);
    if l'.due[t] <= now {
      FiredAfterAll(l, l', t);
    } else {
      NotYetFired(l', now, t);
    }
  }

  lemma KidsAreKnown(l: Log, l': Log, from: word, now: word, arms: Timer -> seq<Timer>, t: Timer, c: Timer)
    requires RanTo(l, l', from, now, arms) && t in Timers(NewFirings(l, l')) && c in arms(t)
    ensures c in Known(l, l', arms, from)
  {
    hide RanTo;
    var f :| f in NewFirings(l, l') && f.timer == t;
    RunsOnExpiry(l, l', from, now, arms, f);
    assert c in Timed(arms, from)(f.timer, f.tick);
  }

  // Every timer that the scan executes, the wheel executes; and what the scan leaves is known to
  // the wheel.
  lemma ScanWithinWheel(l: Log, l': Log, from: word, now: word, arms: Timer -> seq<Timer>, list: seq<Timer>)
    requires RanTo(l, l', from, now, arms) && ArmsForward(arms, now) && forall u :: u in l.loc <==> u in list
    ensures var o := Scan(list, now, arms);
            && (forall t :: t in o.executed ==> t in Timers(NewFirings(l, l')))
            && forall t :: t in o.left ==> t in Known(l, l', arms, from)
  {
    hide RanTo, Arms, Kids, NewFirings, ArmsForward;
    var known, fired := Known(l, l', arms, from), Timers(NewFirings(l, l'));
    forall t | t in known && t.expires <= now
      ensures t in fired
    {
      KnownRuns(l, l', from, now, arms, t);
    }
    forall t, c | t in fired && c in arms(t)
      ensures c in known
    {
      KidsAreKnown(l, l', from, now, arms, t, c);
    }
    ScanCovered(list, now, arms, known, fired);
  }

  // Unless an expired timer is left on the list, the scan executes what the wheel executes.
  lemma {:induction false} WheelWithinScan(l: Log, l': Log, from: word, now: word, arms: Timer -> seq<Timer>,
                                           list: seq<Timer>, f: Firing)
    requires RanTo(l, l', from, now, arms) && ArmsForward(arms, now) && forall u :: u in l.loc <==> u in list
    requires NothingOverdue(Scan(list, now, arms).left, now) && f in NewFirings(l, l')
    ensures f.timer in Scan(list, now, arms).executed
    decreases f.tick
  {
    hide RanTo, Scan, NewFirings, ArmsForward;
    NewIsNotOld(l, l', from, now, arms, f);
    RunsOnExpiry(l, l', from, now, arms, f);
    ScanComplete(list, now, arms);
    var g := Origin(l, l', from, now, arms, f);
    if f.timer !in l.loc {
      KidIsNew(l, l', from, now, arms, g, f.timer);
      WheelWithinScan(l, l', from, now, arms, list, g);
    }
  }

  // The two systems execute the same timers exactly when the scan misses none.
  lemma SameExecuted(l: Log, l': Log, from: word, now: word, arms: Timer -> seq<Timer>, q: Queue)
    requires RanTo(l, l', from, now, arms) && ArmsForward(arms, now) && forall u :: u in l.loc <==> u in q.list
    requires var s := Scanned(q, now, arms); Sane(s.list, s.armed, s.fired)
    ensures var o := Scan(q.list, now, arms);
            !Misses(q.list, now, arms) <==> forall t :: t in Timers(NewFirings(l, l')) ==> t in o.executed
  {
    hide RanTo, Scan, NewFirings, ArmsForward, Misses;
    OverIsMisses(q.list, now, arms);
    var o := Scan(q.list, now, arms);
    if NothingOverdue(o.left, now) {
      forall t | t in Timers(NewFirings(l, l'))
        ensures t in o.executed
      {
        var f :| f in NewFirings(l, l') && f.timer == t;
        WheelWithinScan(l, l', from, now, arms, q.list, f);
      }
    } else {
      ScanWithinWheel(l, l', from, now, arms, q.list);
      var t :| t in o.left && t.expires <= now;
      KnownRuns(l, l', from, now, arms, t);
      assert t in Scanned(q, now, arms).list && t !in q.fired + o.executed;
    }
  }

  lemma TimersPrefix(fs: seq<Firing>, fs': seq<Firing>)
    requires fs <= fs'
    ensures Timers(fs') == Timers(fs) + Timers(fs'[|fs|..])
  {
    var tail := fs'[|fs|..];
    assert fs' == fs + tail;
    assert forall f :: f in fs' <==> f in fs || f in tail;
  }

  lemma PendingIsKnown(l: Log, l': Log, from: word, now: word, arms: Timer -> seq<Timer>, t: Timer)
    requires RanTo(l, l', from, now, arms) && t in l'.loc
    ensures t in Known(l, l', arms, from) && t.expires > now
  {
    TimersPrefix(l.fired, l'.fired);
    if t in l.due {
      assert t in l.loc;
    } else {
      var f :| f in NewFirings(l, l') && t in Timed(arms, from)(f.timer, f.tick);
      KidIsNew(l, l', from, now, arms, f, t);
    }
  }

  // If the scan misses none, the same timers are pending.
  lemma PendingAlike(l: Log, l': Log, from: word, now: word, arms: Timer -> seq<Timer>, list: seq<Timer>, t: Timer)
    requires RanTo(l, l', from, now, arms) && ArmsForward(arms, now) && forall u :: u in l.loc <==> u in list
    requires !Misses(list, now, arms)
    ensures t in l'.loc <==> t in Scan(list, now, arms).left
    ensures t in l'.loc ==> t in l'.due && l'.due[t] == t.expires
  {
    hide Scan, ArmsForward, Misses;
    var o := Scan(list, now, arms);
    OverIsMisses(list, now, arms);
    ScanComplete(list, now, arms);
    ScanWithinWheel(l, l', from, now, arms, list);
    if t in o.left {
      KnownRuns(l, l', from, now, arms, t);
    }
    if t in l'.loc {
      PendingIsKnown(l, l', from, now, arms, t);
      KnownRuns(l, l', from, now, arms, t);
      if t !in l.loc {
        var f :| f in NewFirings(l, l') && t in Timed(arms, from)(f.timer, f.tick);
        KidIsNew(l, l', from, now, arms, f, t);
        WheelWithinScan(l, l', from, now, arms, list, f);
      }
    }
  }

  // What the callbacks of the run armed is what the scan's callbacks armed.
  lemma SameKids(l: Log, l': Log, from: word, now: word, arms: Timer -> seq<Timer>, executed: seq<Timer>)
    requires RanTo(l, l', from, now, arms) && forall t :: t in Timers(NewFirings(l, l')) <==> t in executed
    ensures Kids(NewFirings(l, l'), Timed(arms, from)) == set c | c in Offspring(executed, arms)
  {
    OffspringMembers(executed, arms);
    hide RanTo, Offspring;
    forall c | c in Kids(NewFirings(l, l'), Timed(arms, from))
      ensures c in Offspring(executed, arms)
    {
      var f :| f in NewFirings(l, l') && c in Timed(arms, from)(f.timer, f.tick);
      assert f.timer in executed && c in arms(f.timer);
    }
    forall c | c in Offspring(executed, arms)
      ensures c in Kids(NewFirings(l, l'), Timed(arms, from))
    {
      var t :| t in executed && c in arms(t);
      var f :| f in NewFirings(l, l') && f.timer == t;
      RunsOnExpiry(l, l', from, now, arms, f);
      assert c in Timed(arms, from)(f.timer, f.tick);
    }
  }

  lemma ExecutedInOrder(l: Log, l': Log, now: word)
    requires OnTime(l', now) && l.fired <= l'.fired
    ensures var fs := NewFirings(l, l');
            forall i, j :: 0 <= i < j < |fs| ==> fs[i].tick <= fs[j].tick
  {
  }

  lemma SameHistories(l: Log, l': Log, from: word, now: word, arms: Timer -> seq<Timer>, q: Queue, executed: seq<Timer>)
    requires RanTo(l, l', from, now, arms) && forall t :: t in Timers(NewFirings(l, l')) <==> t in executed
    requires l.due.Keys == q.armed && forall t :: t in Timers(l.fired) <==> t in q.fired
    ensures l'.due.Keys == q.armed + (set c | c in Offspring(executed, arms))
    ensures forall t :: t in Timers(l'.fired) <==> t in q.fired + executed
  {
    hide Arms, Families, Accounts, OnTime, KidsDue, Offspring, Punctual;
    SameKids(l, l', from, now, arms, executed);
    TimersPrefix(l.fired, l'.fired);
    assert l'.due.Keys == l.due.Keys + Kids(NewFirings(l, l'), Timed(arms, from));
  }

  lemma PairInStep(w: Wheel, l: Log, w': Wheel, l': Log, now: word, arms: Timer -> seq<Timer>, q: Queue)
    requires RanTo(l, l', w.ticks, now, arms) && InStep(w, l, q) && w'.ticks == now + 1 && ArmsForward(arms, now)
    requires var o := Scan(q.list, now, arms);
             !Misses(q.list, now, arms) && forall t :: t in Timers(NewFirings(l, l')) <==> t in o.executed
    ensures InStep(w', l', Scanned(q, now, arms))
  {
    hide Scan, ArmsForward, RanTo, Kids, NewFirings, Misses;
    var o := Scan(q.list, now, arms);
    forall t
      ensures t in l'.loc <==> t in o.left
      ensures t in l'.loc ==> t in l'.due && l'.due[t] == t.expires
    {
      PendingAlike(l, l', w.ticks, now, arms, q.list, t);
    }
    SameHistories(l, l', w.ticks, now, arms, q, o.executed);
  }

  // An expired timer left on the list is pending there and not in the wheel.
  lemma PairOutOfStep(l: Log, l': Log, from: word, now: word, arms: Timer -> seq<Timer>, q: Queue)
    requires RanTo(l, l', from, now, arms) && ArmsForward(arms, now) && forall u :: u in l.loc <==> u in q.list
    requires Misses(q.list, now, arms)
    ensures exists t :: t in Scan(q.list, now, arms).left && t !in l'.loc
  {
    hide Scan, ArmsForward, Misses;
    OverIsMisses(q.list, now, arms);
    ScanWithinWheel(l, l', from, now, arms, q.list);
    var t :| t in Scan(q.list, now, arms).left && t.expires <= now;
    KnownRuns(l, l', from, now, arms, t);
    var f :| f in NewFirings(l, l') && f.timer == t;
    NewIsNotOld(l, l', from, now, arms, f);
  }

  // The same timers are pending in both systems exactly when the scan misses none.
  lemma SamePending(l: Log, l': Log, from: word, now: word, arms: Timer -> seq<Timer>, q: Queue)
    requires RanTo(l, l', from, now, arms) && ArmsForward(arms, now) && forall u :: u in l.loc <==> u in q.list
    ensures !Misses(q.list, now, arms) <==> forall t :: t in l'.loc <==> t in Scan(q.list, now, arms).left
  {
    hide Scan, ArmsForward, RanTo, Misses;
    if Misses(q.list, now, arms) {
      PairOutOfStep(l, l', from, now, arms, q);
    } else {
      forall t
        ensures t in l'.loc <==> t in Scan(q.list, now, arms).left
      {
        PendingAlike(l, l', from, now, arms, q.list, t);
      }
    }
  }

  // One run of both: what the scan executes, the wheel executes, in the order in which the timers
  // are due; and both stay in step exactly when the scan misses none.
  lemma WheelRefinesList(w: Wheel, l: Log, w': Wheel, l': Log, q: Queue, now: word, arms: Timer -> seq<Timer>)
    requires Rest(w, l) && Rest(w', l') && InStep(w, l, q)
    requires w.ticks <= now && w'.ticks == now + 1
    requires Grew(l, l', Timed(arms, w.ticks), w.ticks) && Arms(arms, w.ticks, now) && ArmsForward(arms, now)
    requires var s := Scanned(q, now, arms); Sane(s.list, s.armed, s.fired)
    ensures forall t :: t in Scan(q.list, now, arms).executed ==> t in Timers(NewFirings(l, l'))
    ensures !Misses(q.list, now, arms) <==> InStep(w', l', Scanned(q, now, arms))
    ensures var fs := NewFirings(l, l');
            forall i, j :: 0 <= i < j < |fs| ==> fs[i].tick <= fs[j].tick
  {
    RestRanTo(w, l, w', l', now, arms);
    ScanWithinWheel(l, l', w.ticks, now, arms, q.list);
    SameExecuted(l, l', w.ticks, now, arms, q);
    ExecutedInOrder(l, l', now);
    if !Misses(q.list, now, arms) {
      PairInStep(w, l, w', l', now, arms, q);
    } else {
      PairOutOfStep(l, l', w.ticks, now, arms, q);
    }
  }

  // The one case in which they differ: the callback of the last entry arms a timer for a tick that
  // is also past. The scan has read the end of the list before, and leaves it.
  lemma LastEntryMissed(t: Timer, c: Timer, arms: Timer -> seq<Timer>)
    requires t.expires == 3 && c == Timer(Child(t, 0), 4) && arms == (u => if u == t then [c] else [])
    ensures Arms(arms, 0, 5) && ArmsForward(arms, 5)
    ensures Scan([t], 5, arms) == Outcome([t], [c]) && Misses([t], 5, arms)
  {
    assert [t][1..] == [] && c in [c];
    OverIsMisses([t], 5, arms);
  }

  lemma InStepIsPunctual(w: Wheel, l: Log, q: Queue)
    requires InStep(w, l, q)
    ensures Punctual(l, w.ticks)
  {
  }

  lemma AfterMissesNothing(arms: Timer -> seq<Timer>, from: word, now: word, list: seq<Timer>)
    requires ArmsAfter(arms, from, now) && from <= now && ArmsForward(arms, now)
    ensures Scan(list, now, arms).executed == Expired(list, now) && !Misses(list, now, arms)
  {
    AfterIsArms(arms, from, now);
    ScanPlain(list, now, arms);
    OverIsMisses(list, now, arms);
    ScanMembers(list, now);
    OffspringMembers(Expired(list, now), arms);
  }

  // What callbacks arm has a parent, so only callers arm clients.
  lemma RunArmsNoClient(l: Log, l': Log, from: word, now: word, arms: Timer -> seq<Timer>, t: Timer)
    requires RanTo(l, l', from, now, arms) && t in l'.due && t.id.Client?
    ensures t in l.due
  {
    hide Accounts, OnTime, Punctual, KidsDue, Families, Arms;
    if t !in l.due {
      assert t in Kids(NewFirings(l, l'), Timed(arms, from));
      var f :| f in NewFirings(l, l') && t in Timed(arms, from)(f.timer, f.tick);
      KidIsNew(l, l', from, now, arms, f, t);
    }
  }

  // Whatever the list has executed, the wheel has executed.
  ghost predicate Ahead(l: Log, q: Queue) {
    forall t :: t in q.fired ==> t in Timers(l.fired)
  }

  lemma InStepIsAhead(w: Wheel, l: Log, q: Queue)
    requires InStep(w, l, q)
    ensures Ahead(l, q)
  {
  }

  lemma RunStaysAhead(l: Log, l': Log, from: word, now: word, arms: Timer -> seq<Timer>, q: Queue)
    requires RanTo(l, l', from, now, arms) && ArmsForward(arms, now) && Ahead(l, q)
    requires forall t :: t in Scan(q.list, now, arms).executed ==> t in Timers(NewFirings(l, l'))
    ensures Ahead(l', Scanned(q, now, arms))
  {
    hide Scan, Arms, ArmsForward, Accounts, OnTime, Families, Punctual, KidsDue;
    TimersPrefix(l.fired, l'.fired);
  }

  // Both variants of run_timer_softirq, run on the same timers up to the same tick.
  method RunBoth(base: TvecBase, queue: TimerQueue, now: word, arms: Timer -> seq<Timer>)
    requires base.Valid() && queue.Valid() && InStep(base.wheel, base.log, queue.Contents())
    requires base.timerTicks <= now && now + 1 < WORD
    requires Arms(arms, base.timerTicks, now)
    modifies base, base.tv1, base.tv2, base.tv3, base.tv4, base.tv5, queue
    ensures base.Valid() && queue.Valid() && base.timerTicks == now + 1
    ensures old(queue.fired) <= queue.fired
    ensures forall t :: t in queue.fired[|old(queue.fired)|..] ==> t in Timers(NewFirings(old(base.log), base.log))
    ensures queue.Contents() == Scanned(old(queue.Contents()), now, arms)
    ensures Ahead(base.log, queue.Contents())
    ensures !Misses(old(queue.list), now, arms) <==> InStep(base.wheel, base.log, queue.Contents())
    ensures ArmsAfter(arms, old(base.timerTicks), now) ==> !Misses(old(queue.list), now, arms)
    ensures forall t :: t in base.log.due && t.id.Client? ==> t in old(base.log).due
  {
    hide Arms, ArmsAfter, InStep, Misses, Scan, ArmsForward, Rest, Sane, Grew, Ahead;
    ghost var w, l, q := base.wheel, base.log, queue.Contents();
    ArmsIsArmsLater(arms, base.timerTicks, now);
    base.RunTimerSoftirq(now, Timed(arms, base.timerTicks));
    queue.RunTimerSoftirq(now, arms);
    WheelRefinesList(w, l, base.wheel, base.log, q, now, arms);
    assert queue.fired[|q.fired|..] == Scan(q.list, now, arms).executed;
    if ArmsAfter(arms, w.ticks, now) {
      AfterMissesNothing(arms, w.ticks, now, q.list);
    }
    InStepIsPunctual(w, l, q);
    RestRanTo(w, l, base.wheel, base.log, now, arms);
    InStepIsAhead(w, l, q);
    RunStaysAhead(l, base.log, w.ticks, now, arms, q);
    forall t | t in base.log.due && t.id.Client?
      ensures t in l.due
    {
      RunArmsNoClient(l, base.log, w.ticks, now, arms, t);
    }
  }

  // ---- whole runs -------------------------------------------------------------------------

  // An advance comes with what the callbacks that run in it arm.
  datatype Event = Add(timer: Timer) | Delete(timer: Timer) | Advance(now: word, arms: Timer -> seq<Timer>)

  // What the callers keep to: every arming is one of its own, less than 2^31 ticks ahead, and
  // callbacks arm for ticks after the one they run in.
  ghost predicate Permitted(event: Event, ticks: word, q: Queue) {
    match event
    case Add(t) => t.id.Client? && t !in q.armed && -HALF <= t.expires - ticks < HALF
    case Delete(t) => true
    case Advance(now, arms) => ticks <= now && now + 1 < WORD && Arms(arms, ticks, now)
  }

  // What an event makes of the plain list.
  ghost function After(q: Queue, event: Event): Queue {
    match event
    case Add(t) => Queue(q.list + [t], q.armed + {t}, q.fired)
    case Delete(t) => q.(list := Without(q.list, t))
    case Advance(now, arms) => if ArmsForward(arms, now) then Scanned(q, now, arms) else q
  }

  // The tick after a run.
  function Clock(events: seq<Event>): int {
    if events == [] then 0
    else if events[|events| - 1].Advance? then events[|events| - 1].now + 1
    else Clock(events[..|events| - 1])
  }

  // What a run from the empty list on makes of it.
  ghost function Replay(events: seq<Event>): Queue {
    if events == [] then Queue([], {}, []) else After(Replay(events[..|events| - 1]), events[|events| - 1])
  }

  function Tick(event: Event, ticks: word): int {
    if event.Advance? then event.now + 1 else ticks
  }

  ghost predicate Playable(events: seq<Event>, ticks: word, q: Queue)
    decreases |events|
  {
    events == [] ||
    (Permitted(events[0], ticks, q) && Playable(events[1..], Tick(events[0], ticks), After(q, events[0])))
  }

  // The scan of an event misses a timer.
  ghost predicate Missing(event: Event, q: Queue) {
    event.Advance? && ArmsForward(event.arms, event.now) && Misses(q.list, event.now, event.arms)
  }

  // No scan of the run misses a timer.
  ghost predicate Smooth(events: seq<Event>, ticks: word, q: Queue)
    requires Playable(events, ticks, q)
    decreases |events|
  {
    events == [] ||
    (!Missing(events[0], q) && Smooth(events[1..], Tick(events[0], ticks), After(q, events[0])))
  }

  lemma InStepReadsTicks(w: Wheel, w': Wheel, l: Log, q: Queue)
    requires InStep(w, l, q) && w'.ticks == w.ticks
    ensures InStep(w', l, q)
  {
  }

  lemma AddInStep(w: Wheel, l: Log, q: Queue, t: Timer, w': Wheel)
    requires Rest(w, l) && InStep(w, l, q) && t.id.Client? && -HALF <= t.expires - w.ticks < HALF && w'.ticks == w.ticks
    requires t !in l.due
    ensures t !in q.armed && InStep(w', Armed(l, w.ticks, t), After(q, Add(t)))
    ensures Armed(l, w.ticks, t).due.Keys == l.due.Keys + {t}
  {
    ArmInStep(w, l, q, t);
    InStepReadsTicks(Insert(w, t), w', Armed(l, w.ticks, t), After(q, Add(t)));
  }

  // add_timer in both systems.
  method AddBoth(base: TvecBase, queue: TimerQueue, t: Timer)
    requires base.Valid() && queue.Valid() && InStep(base.wheel, base.log, queue.Contents())
    requires t.id.Client? && t !in base.log.due && -HALF <= t.expires - base.timerTicks < HALF
    modifies base`log, base`wheel, base.tv1, base.tv2, base.tv3, base.tv4, base.tv5, queue
    ensures base.Valid() && queue.Valid() && InStep(base.wheel, base.log, queue.Contents())
    ensures base.log.due.Keys == old(base.log).due.Keys + {t}
    ensures queue.Contents() == After(old(queue.Contents()), Add(t)) && base.timerTicks == old(base.timerTicks)
  {
    hide InStep, Rest, Sane, Armed;
    AddInStep(base.wheel, base.log, queue.Contents(), t, base.wheel);
    ghost var w, l, q := base.wheel, base.log, queue.Contents();
    base.AddTimer(t);
    queue.AddTimer(t);
    InStepReadsTicks(w, base.wheel, base.log, queue.Contents());
  }

  // del_timer in both systems.
  method DeleteBoth(base: TvecBase, queue: TimerQueue, t: Timer)
    requires base.Valid() && queue.Valid() && InStep(base.wheel, base.log, queue.Contents())
    modifies base`log, base`wheel, base.tv1, base.tv2, base.tv3, base.tv4, base.tv5, queue
    ensures base.Valid() && queue.Valid() && InStep(base.wheel, base.log, queue.Contents())
    ensures base.log.due == old(base.log).due
    ensures queue.Contents() == After(old(queue.Contents()), Delete(t)) && base.timerTicks == old(base.timerTicks)
  {
    ghost var w, l, q := base.wheel, base.log, queue.Contents();
    DeleteInStep(w, l, q, t);
    hide InStep, Rest, Sane, Without;
    base.DelTimer(t);
    queue.DelTimer(t);
    InStepReadsTicks(Removed(w, l, t), base.wheel, base.log, queue.Contents());
  }

  // Whether a scan would miss a timer: a test on the list and the callbacks, before the call.
  method MissesNext(event: Event, queue: TimerQueue) returns (r: bool)
    requires event.Advance? ==> ArmsForward(event.arms, event.now)
    ensures r <==> Missing(event, queue.Contents())
  {
    match event
    case Advance(now, arms) => r := Misses(queue.list, now, arms);
    case _ => r := false;
  }

  // The next event of a run, and the rest of it.
  lemma RunSplits(events: seq<Event>, n: nat, ticks: word, q: Queue)
    requires n < |events| && Playable(events[n..], ticks, q)
    ensures Permitted(events[n], ticks, q) && (events[n].Advance? ==> ArmsForward(events[n].arms, events[n].now))
    ensures 0 <= Tick(events[n], ticks) < WORD
    ensures Playable(events[n + 1..], Tick(events[n], ticks), After(q, events[n]))
    ensures Smooth(events[n..], ticks, q)
            <==> !Missing(events[n], q) && Smooth(events[n + 1..], Tick(events[n], ticks), After(q, events[n]))
  {
    hide Missing, Misses, Scanned;
    assert events[n..][1..] == events[n + 1..] && events[n..][0] == events[n];
  }

  lemma ReplayNothing()
    ensures Replay([]) == Queue([], {}, []) && Clock([]) == 0
  {
  }

  lemma RunEnd(ticks: word, q: Queue)
    ensures Playable([], ticks, q) && Smooth([], ticks, q)
  {
  }

  lemma ReplayMore(events: seq<Event>, n: nat)
    requires n < |events|
    ensures Replay(events[..n + 1]) == After(Replay(events[..n]), events[n])
    ensures Clock(events[..n + 1]) == if events[n].Advance? then events[n].now + 1 else Clock(events[..n])
  {
    assert events[..n + 1][..n] == events[..n];
  }

  // An event before a run.
  lemma RunBegins(event: Event, rest: seq<Event>, ticks: word, q: Queue)
    requires Permitted(event, ticks, q) && !Missing(event, q) && 0 <= Tick(event, ticks) < WORD
    requires Playable(rest, Tick(event, ticks), After(q, event)) && Smooth(rest, Tick(event, ticks), After(q, event))
    ensures Playable([event] + rest, ticks, q) && Smooth([event] + rest, ticks, q)
  {
    hide Permitted, Missing, After;
    assert ([event] + rest)[1..] == rest;
  }

  // The scan of a list with one expired timer.
  lemma OneScan(q: Queue, t: Timer, now: word, arms: Timer -> seq<Timer>)
    requires ArmsForward(arms, now) && q.list == [t] && t.expires <= now && NothingOverdue(arms(t), now)
    ensures After(q, Advance(now, arms)) == Queue(arms(t), q.armed + (set c | c in arms(t)), q.fired + [t])
    ensures !Missing(Advance(now, arms), q)
  {
    OverIsMisses(q.list, now, arms);
    assert [t][1..] == [] && [t][..0] == [];
    assert Offspring([t], arms) == [] + arms(t) == arms(t);
  }

  // Three events in a row.
  lemma ThreeEvents(a: Event, b: Event, c: Event, q: Queue, r: Queue, s: Queue, ticks: word, ticks': word)
    requires q == After(Queue([], {}, []), a) && r == After(q, b) && s == After(r, c)
    requires Tick(a, 0) == ticks && Tick(b, ticks) == ticks' && 0 <= Tick(c, ticks') < WORD
    requires Permitted(a, 0, Queue([], {}, [])) && Permitted(b, ticks, q) && Permitted(c, ticks', r)
    requires !Missing(a, Queue([], {}, [])) && !Missing(b, q) && !Missing(c, r)
    ensures Playable([a, b, c], 0, Queue([], {}, [])) && Smooth([a, b, c], 0, Queue([], {}, [])) &&
            Replay([a, b, c]) == s
  {
    hide Permitted, After, Missing, Playable, Smooth, Replay, Tick;
    RunEnd(Tick(c, ticks'), s);
    RunBegins(c, [], ticks', r);
    RunBegins(b, [c] + [], ticks, q);
    RunBegins(a, [b] + ([c] + []), 0, Queue([], {}, []));
    var events := [a, b, c];
    assert [a] + ([b] + ([c] + [])) == events;
    ReplayNothing();
    ReplayMore(events, 0);
    ReplayMore(events, 1);
    ReplayMore(events, 2);
    assert events[..0] == [] && events[..3] == events;
  }

  // A run in which a timer that a callback armed expires and runs in its turn.
  lemma RearmedRuns(t: Timer, c: Timer, arms: Timer -> seq<Timer>, none: Timer -> seq<Timer>)
    requires t.id.Client? && t.expires == 3 && c == Timer(Child(t, 0), 4)
    requires arms == (u => if u == t then [c] else []) && none == (u => [])
    ensures var events := [Add(t), Advance(3, arms), Advance(4, none)];
            && Playable(events, 0, Queue([], {}, [])) && Smooth(events, 0, Queue([], {}, []))
            && Replay(events) == Queue([], {t, c}, [t, c])
  {
    hide Scanned, Misses;
    var q, r := Queue([t], {t}, []), Queue([c], {t, c}, [t]);
    OneScan(q, t, 3, arms);
    OneScan(r, c, 4, none);
    ThreeEvents(Add(t), Advance(3, arms), Advance(4, none), q, r, Queue([], {t, c}, [t, c]), 0, 4);
  }

  method PlayOne(event: Event, base: TvecBase, queue: TimerQueue)
    requires base.Valid() && queue.Valid() && InStep(base.wheel, base.log, queue.Contents())
    requires Permitted(event, base.timerTicks, queue.Contents())
    modifies base, base.tv1, base.tv2, base.tv3, base.tv4, base.tv5, queue
    ensures base.Valid() && queue.Valid() && base.timerTicks == Tick(event, old(base.timerTicks))
    ensures queue.Contents() == After(old(queue.Contents()), event)
    ensures InStep(base.wheel, base.log, queue.Contents()) <==> !Missing(event, old(queue.Contents()))
    ensures Ahead(base.log, queue.Contents())
  {
    assert event.Advance? ==> ArmsForward(event.arms, event.now);
    hide InStep, Rest, Sane, Arms, ArmsForward, Misses, Scanned, Without, Ahead;
    match event
    case Add(t) =>
      AddBoth(base, queue, t);
      InStepIsAhead(base.wheel, base.log, queue.Contents());
    case Delete(t) =>
      DeleteBoth(base, queue, t);
      InStepIsAhead(base.wheel, base.log, queue.Contents());
    case Advance(now, arms) => RunBoth(base, queue, now, arms);
  }

  // Any run of arming, deleting and advancing, from the empty systems on, until a scan misses a
  // timer.  The systems are in step all the way exactly if no scan does.
  method Play(events: seq<Event>) returns (base: TvecBase, queue: TimerQueue, n: nat)
    requires Playable(events, 0, Queue([], {}, []))
    ensures base.Valid() && queue.Valid() && n <= |events|
    ensures InStep(base.wheel, base.log, queue.Contents()) <==> Smooth(events, 0, Queue([], {}, []))
    ensures queue.Contents() == Replay(events[..n]) && base.timerTicks == Clock(events[..n])
    ensures Ahead(base.log, queue.Contents())
    ensures if Smooth(events, 0, Queue([], {}, [])) then n == |events|
            else n > 0 && Missing(events[n - 1], Replay(events[..n - 1]))
  {
    hide InStep, Missing, After, Rest, Sane, Misses, Arms, ArmsForward, Replay, Playable, Smooth, Permitted, Ahead,
         Clock;
    ReplayNothing();
    base := new TvecBase();
    queue := new TimerQueue();
    StartInStep(base.wheel, base.log);
    InStepIsAhead(base.wheel, base.log, queue.Contents());
    ghost var all := Smooth(events, 0, Queue([], {}, []));
    assert events[0..] == events && events[..0] == [];
    n := 0;
    while n < |events|
      invariant base.Valid() && queue.Valid() && fresh(base) && fresh(queue) &&
                fresh({base.tv1, base.tv2, base.tv3, base.tv4, base.tv5})
      invariant n <= |events| && InStep(base.wheel, base.log, queue.Contents())
      invariant queue.Contents() == Replay(events[..n]) && base.timerTicks == Clock(events[..n])
      invariant Ahead(base.log, queue.Contents())
      invariant Playable(events[n..], base.timerTicks, queue.Contents())
      invariant all <==> Smooth(events[n..], base.timerTicks, queue.Contents())
    {
      RunSplits(events, n, base.timerTicks, queue.Contents());
      ReplayMore(events, n);
      var missing := MissesNext(events[n], queue);
      PlayOne(events[n], base, queue);
      n := n + 1;
      if missing {
        return;
      }
    }
    assert events[n..] == [];
    RunEnd(base.timerTicks, queue.Contents());
  }
}
