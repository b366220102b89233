/** The order in which a wheel runs timers that are due in the same tick, over whole runs. */
module TimerRuns {
  import opened Arith
  import opened TimerWheelModel
  import opened TimerWheelState
  import opened TimerWheel

  datatype Act = Arm(timer: Timer) | Disarm(timer: Timer) | Run(now: word, callback: Callback)

  // timer_ticks after a run from the empty wheel on.
  function Clock(acts: seq<Act>): nat {
    if acts == [] then 0
    else
      var before, last := Clock(acts[..|acts| - 1]), acts[|acts| - 1];
      if last.Run? && before <= last.now then last.now + 1 else before
  }

  lemma {:induction false} ClockGrows(acts: seq<Act>, i: nat, n: nat)
    requires i <= n <= |acts|
    ensures Clock(acts[..i]) <= Clock(acts[..n])
    decreases n
  {
    if i < n {
      assert acts[..n][..n - 1] == acts[..n - 1];
      ClockGrows(acts, i, n - 1);
    }
  }

  // Every arming is one of its own, and callbacks arm objects of their own for later ticks.
  ghost predicate Legal(acts: seq<Act>) {
    && (forall k :: 0 <= k < |acts| && acts[k].Arm? ==> acts[k].timer.id.Client?)
    && (forall i, j :: 0 <= i < j < |acts| && acts[i].Arm? && acts[j].Arm? ==> acts[i].timer != acts[j].timer)
    && (forall k :: 0 <= k < |acts| && acts[k].Run? ==>
          acts[k].now + 1 < WORD && ArmsLater(acts[k].callback, 0, acts[k].now))
  }

  // The clients' timers in the history are those armed by the first n acts.
  ghost predicate Clients(l: Log, acts: seq<Act>, n: nat)
    requires n <= |acts|
  {
    forall t :: t in l.due && t.id.Client? ==> exists k :: 0 <= k < n && acts[k] == Arm(t)
  }

  // Act i armed a timer, in the tick that the clock shows after n acts.
  ghost predicate ArmedNow(acts: seq<Act>, i: nat, n: nat)
    requires i < n <= |acts|
  {
    acts[i].Arm? && Clock(acts[..i]) == Clock(acts[..n])
  }

  // Timers armed in the current tick are where they were put.
  ghost predicate Settled(l: Log, acts: seq<Act>, n: nat)
    requires n <= |acts|
  {
    forall i :: 0 <= i < n && ArmedNow(acts, i, n) && Clock(acts[..n]) < WORD ==>
      JustArmed(l, Clock(acts[..n]), [acts[i].timer])
  }

  // Acts i and j armed timers for the same expiry in the same tick.
  ghost predicate Twins(acts: seq<Act>, i: nat, j: nat)
    requires i < j < |acts|
  {
    && acts[i].Arm? && acts[j].Arm? && acts[i].timer.expires == acts[j].timer.expires
    && Clock(acts[..i]) == Clock(acts[..j])
  }

  ghost predicate TwinsOrdered(w: Wheel, l: Log, acts: seq<Act>, n: nat)
    requires n <= |acts|
  {
    forall i, j :: 0 <= i < j < n && Twins(acts, i, j) ==> Ordered(w, l, acts[i].timer, acts[j].timer)
  }

  lemma TwinsKept(w: Wheel, l: Log, w': Wheel, l': Log, acts: seq<Act>, n: nat)
    requires n < |acts| && !acts[n].Arm? && TwinsOrdered(w, l, acts, n) && KeepsOrder(w, l, w', l')
    ensures TwinsOrdered(w', l', acts, n + 1)
  {
    hide Ordered;
  }

  lemma SettledMore(l: Log, acts: seq<Act>, n: nat)
    requires n < |acts| && acts[n].Arm? && acts[n].timer !in l.due && Settled(l, acts, n)
    requires 0 <= Clock(acts[..n]) < WORD
    ensures Settled(Armed(l, Clock(acts[..n]), acts[n].timer), acts, n + 1)
  {
    hide FindTvec, Due;
    assert acts[..n + 1][..n] == acts[..n];
    assert Clock(acts[..n + 1]) == Clock(acts[..n]);
    hide Clock;
    var t, now := acts[n].timer, Clock(acts[..n]);
    var l' := Armed(l, now, t);
    forall i | 0 <= i < n + 1 && ArmedNow(acts, i, n + 1)
      ensures JustArmed(l', now, [acts[i].timer])
    {
      if i < n {
        assert ArmedNow(acts, i, n) && acts[i].timer in [acts[i].timer];
      }
    }
  }

  // A timer is armed behind its twins.
  lemma TwinArmed(w: Wheel, l: Log, acts: seq<Act>, n: nat)
    requires n < |acts| && acts[n].Arm? && acts[n].timer !in l.due && Inv(w, l) && w.ticks == Clock(acts[..n])
    requires TwinsOrdered(w, l, acts, n) && Settled(l, acts, n)
    ensures FindTvec(w.ticks, acts[n].timer.expires) in w.slots
    ensures var w', l' := Insert(w, acts[n].timer), Armed(l, w.ticks, acts[n].timer);
            TwinsOrdered(w', l', acts, n + 1) && Settled(l', acts, n + 1)
  {
    InvHasShape(w, l);
    var t := acts[n].timer;
    var w', l' := Insert(w, t), Armed(l, w.ticks, t);
    InsertOrder(w, l, t);
    assert acts[..n + 1][..n] == acts[..n];
    hide FindTvec, Due, Insert, Inv, Clock;
    forall i, j | 0 <= i < j < n + 1 && Twins(acts, i, j)
      ensures Ordered(w', l', acts[i].timer, acts[j].timer)
    {
      if j == n {
        assert ArmedNow(acts, i, n) && acts[i].timer in [acts[i].timer];
        JoinsBehind(w, l, acts[i].timer, t);
      }
    }
    SettledMore(l, acts, n);
  }

  // An act that keeps the clock, the due ticks and the places of what stays pending.
  lemma SettledKept(l: Log, l': Log, acts: seq<Act>, n: nat)
    requires n < |acts| && !acts[n].Arm? && Settled(l, acts, n) && l'.due == l.due
    requires Clock(acts[..n + 1]) == Clock(acts[..n]) && forall t :: t in l'.loc ==> t in l.loc && l'.loc[t] == l.loc[t]
    ensures Settled(l', acts, n + 1)
  {
    hide Clock, FindTvec, Due;
    forall i | 0 <= i < n + 1 && ArmedNow(acts, i, n + 1) && Clock(acts[..n + 1]) < WORD
      ensures JustArmed(l', Clock(acts[..n + 1]), [acts[i].timer])
    {
      assert ArmedNow(acts, i, n) && acts[i].timer in [acts[i].timer];
    }
  }

  // Once the clock moves on, nothing has been armed in the current tick.
  lemma SettledNothing(l: Log, acts: seq<Act>, n: nat)
    requires n < |acts| && !acts[n].Arm? && Clock(acts[..n]) < Clock(acts[..n + 1])
    ensures Settled(l, acts, n + 1)
  {
    forall i | 0 <= i < n
      ensures Clock(acts[..i]) < Clock(acts[..n + 1])
    {
      ClockGrows(acts, i, n);
    }
  }

  // Callbacks arm children only.
  lemma NoNewClients(l: Log, l': Log, callback: Callback, from: nat, now: word, t: Timer)
    requires Grew(l, l', callback, from) && OnTime(l', now) && ArmsLater(callback, 0, now)
    requires t in l'.due && t.id.Client?
    ensures t in l.due
  {
    hide KidsDue;
  }

  lemma ClientsMore(l: Log, l': Log, acts: seq<Act>, n: nat)
    requires n < |acts| && Clients(l, acts, n)
    requires forall t :: t in l'.due && t.id.Client? ==> t in l.due || acts[n] == Arm(t)
    ensures Clients(l', acts, n + 1)
  {
  }

  lemma NotYetArmed(l: Log, acts: seq<Act>, n: nat)
    requires n < |acts| && Legal(acts) && Clients(l, acts, n) && acts[n].Arm?
    ensures acts[n].timer !in l.due
  {
  }

  lemma RestIsOnTime(w: Wheel, l: Log)
    requires Rest(w, l)
    ensures OnTime(l, w.ticks - 1) && Inv(w, l)
  {
  }

  lemma ClockNext(acts: seq<Act>, n: nat)
    requires n < |acts|
    ensures Clock(acts[..n + 1])
            == if acts[n].Run? && Clock(acts[..n]) <= acts[n].now then acts[n].now + 1 else Clock(acts[..n])
  {
    assert acts[..n + 1][..n] == acts[..n];
  }

  lemma ArmsFrom(callback: Callback, from: nat, now: word)
    requires ArmsLater(callback, 0, now)
    ensures ArmsLater(callback, from, now)
  {
  }

  method RunAct(base: TvecBase, acts: seq<Act>, n: nat)
    requires n < |acts| && Legal(acts) && acts[n].Run?
    requires base.Valid() && base.timerTicks == Clock(acts[..n]) && Clients(base.log, acts, n)
    requires Settled(base.log, acts, n) && TwinsOrdered(base.wheel, base.log, acts, n)
    modifies base, base.tv1, base.tv2, base.tv3, base.tv4, base.tv5
    ensures base.Valid() && base.timerTicks == Clock(acts[..n + 1]) && Clients(base.log, acts, n + 1)
    ensures Settled(base.log, acts, n + 1) && TwinsOrdered(base.wheel, base.log, acts, n + 1)
  {
    hide Rest, Clients, Settled, TwinsOrdered, KeepsOrder, Clock, Grew, AllLined;
    ghost var w, l, from := base.wheel, base.log, base.timerTicks;
    var now, callback := acts[n].now, acts[n].callback;
    ArmsFrom(callback, from, now);
    base.RunTimerSoftirq(now, callback);
    ClockNext(acts, n);
    TwinsKept(w, l, base.wheel, base.log, acts, n);
    if from <= now {
      RestIsOnTime(base.wheel, base.log);
      forall t | t in base.log.due && t.id.Client?
        ensures t in l.due
      {
        NoNewClients(l, base.log, callback, from, now, t);
      }
      SettledNothing(base.log, acts, n);
    } else {
      SettledKept(l, base.log, acts, n);
    }
    ClientsMore(l, base.log, acts, n);
  }

  method ArmAct(base: TvecBase, acts: seq<Act>, n: nat)
    requires n < |acts| && Legal(acts) && acts[n].Arm?
    requires base.Valid() && base.timerTicks == Clock(acts[..n]) && Clients(base.log, acts, n)
    requires Settled(base.log, acts, n) && TwinsOrdered(base.wheel, base.log, acts, n)
    modifies base, base.tv1, base.tv2, base.tv3, base.tv4, base.tv5
    ensures base.Valid() && base.timerTicks == Clock(acts[..n + 1]) && Clients(base.log, acts, n + 1)
    ensures Settled(base.log, acts, n + 1) && TwinsOrdered(base.wheel, base.log, acts, n + 1)
  {
    hide Rest, Settled, TwinsOrdered, KeepsOrder, Clock, Ordered, Inv, Insert, FindTvec, Due;
    ghost var w, l := base.wheel, base.log;
    NotYetArmed(l, acts, n);
    RestIs(w, l);
    TwinArmed(w, l, acts, n);
    base.AddTimer(acts[n].timer);
    ClockNext(acts, n);
    ClientsMore(l, base.log, acts, n);
  }

  method DisarmAct(base: TvecBase, acts: seq<Act>, n: nat)
    requires n < |acts| && Legal(acts) && acts[n].Disarm?
    requires base.Valid() && base.timerTicks == Clock(acts[..n]) && Clients(base.log, acts, n)
    requires Settled(base.log, acts, n) && TwinsOrdered(base.wheel, base.log, acts, n)
    modifies base, base.tv1, base.tv2, base.tv3, base.tv4, base.tv5
    ensures base.Valid() && base.timerTicks == Clock(acts[..n + 1]) && Clients(base.log, acts, n + 1)
    ensures Settled(base.log, acts, n + 1) && TwinsOrdered(base.wheel, base.log, acts, n + 1)
  {
    hide Rest, Clients, Settled, TwinsOrdered, KeepsOrder, Clock;
    ghost var w, l := base.wheel, base.log;
    base.DelTimer(acts[n].timer);
    ClockNext(acts, n);
    TwinsKept(w, l, base.wheel, base.log, acts, n);
    SettledKept(l, base.log, acts, n);
    ClientsMore(l, base.log, acts, n);
  }

  lemma OrderedFires(w: Wheel, l: Log)
    ensures forall a, b :: Ordered(w, l, a, b) && a in Timers(l.fired) && b in Timers(l.fired) ==>
              FiredBefore(l.fired, a, b)
  {
  }

  // Any run of arming, deleting and running from the empty wheel on.  Two timers that are armed in the
  // same tick for the same expiry run in the order in which they were armed, through every cascade,
  // unless one of them is deleted.
  method Session(acts: seq<Act>) returns (base: TvecBase)
    requires Legal(acts)
    ensures base.Valid() && base.timerTicks == Clock(acts)
    ensures forall i, j :: 0 <= i < j < |acts| && Twins(acts, i, j) ==>
              var a, b := acts[i].timer, acts[j].timer;
              && Ordered(base.wheel, base.log, a, b)
              && (a in Timers(base.log.fired) && b in Timers(base.log.fired) ==> FiredBefore(base.log.fired, a, b))
  {
    hide Rest, Legal, Ordered;
    base := new TvecBase();
    assert acts[..0] == [];
    var n := 0;
    while n < |acts|
      invariant n <= |acts| && base.Valid() && base.timerTicks == Clock(acts[..n]) && Clients(base.log, acts, n)
      invariant fresh(base) && fresh({base.tv1, base.tv2, base.tv3, base.tv4, base.tv5})
      invariant Settled(base.log, acts, n) && TwinsOrdered(base.wheel, base.log, acts, n)
    {
      hide Clients, Settled, TwinsOrdered, Clock;
      match acts[n] {
        case Arm(_) => ArmAct(base, acts, n);
        case Disarm(_) => DisarmAct(base, acts, n);
        case Run(_, _) => RunAct(base, acts, n);
      }
      n := n + 1;
    }
    assert acts[..n] == acts;
    OrderedFires(base.wheel, base.log);
  }
}
