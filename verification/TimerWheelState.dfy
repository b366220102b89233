/**
 The contents of the wheel as a value, the history of a run, and the invariant that ties
 them together, with one lemma for each kind of step.
*/
module TimerWheelState {
  import opened Arith
  import opened Seqs
  import opened TimerWheelModel

  datatype Wheel = Wheel(ticks: word, slots: map<Slot, seq<Timer>>)

  datatype Firing = Firing(timer: Timer, tick: nat)

  // History of a run: when every timer ever armed is due, where the pending ones wait, which
  // ones were deleted, and the callbacks executed so far, in order.
  datatype Log = Log(due: map<Timer, nat>, loc: map<Timer, Slot>, deleted: set<Timer>, fired: seq<Firing>)

  function Timers(fs: seq<Firing>): set<Timer> {
    set f | f in fs :: f.timer
  }

  // ---- the invariant ---------------------------------------------------------------

  ghost predicate Shape(w: Wheel) {
    forall s :: s in w.slots <==> ValidSlot(s)
  }

  // Timer `t`, found in slot `s`, is where the history says, at the place its due tick allows.
  ghost predicate Waiting(now: word, l: Log, s: Slot, t: Timer) {
    && t in l.due && t in l.loc && l.loc[t] == s
    && Placed(now, l.due[t], s)
    && l.due[t] < now + HALF
    && (s.level > 1 ==> (l.due[t] - t.expires) % WORD == 0)
  }

  ghost predicate Filed(w: Wheel, l: Log) {
    forall s, t :: s in w.slots && t in w.slots[s] ==> Waiting(w.ticks, l, s, t)
  }

  ghost predicate Single(w: Wheel) {
    forall s :: s in w.slots ==> Distinct(w.slots[s])
  }

  ghost predicate Present(w: Wheel, l: Log) {
    forall t :: t in l.loc ==> l.loc[t] in w.slots && t in w.slots[l.loc[t]]
  }

  ghost predicate Core(w: Wheel, l: Log) {
    Shape(w) && Filed(w, l) && Single(w) && Present(w, l)
  }

  // Every timer ever armed is pending, deleted or fired, and only one of these.
  ghost predicate Accounts(l: Log) {
    && l.due.Keys == l.loc.Keys + l.deleted + Timers(l.fired)
    && l.loc.Keys !! l.deleted !! Timers(l.fired)
    && (forall i, j :: 0 <= i < j < |l.fired| ==> l.fired[i].timer != l.fired[j].timer)
  }

  // Callbacks ran when due, in order, and never beyond the current tick.
  ghost predicate OnTime(l: Log, now: int) {
    && (forall f :: f in l.fired ==> f.timer in l.due && f.tick == l.due[f.timer] && f.tick <= now)
    && (forall i, j :: 0 <= i < j < |l.fired| ==> l.fired[i].tick <= l.fired[j].tick)
  }

  // A callback has allocated timers only if it ran, or is running.
  ghost predicate Families(l: Log, running: set<Timer>) {
    forall t :: t in l.due && t.id.Child? ==> t.id.parent in Timers(l.fired) + running
  }

  // The list of the slot whose timers are due now.
  ghost function DueNowList(w: Wheel): seq<Timer> {
    var s := Slot(1, w.ticks % 256);
    if s in w.slots then w.slots[s] else []
  }

  ghost predicate Inv(w: Wheel, l: Log) {
    Core(w, l) && Accounts(l) && OnTime(l, w.ticks)
  }

  // The slot of `level` whose turn it is now, if any, is empty.
  ghost predicate Drained(w: Wheel, level: int)
    requires 1 <= level <= 5 && Shape(w)
  {
    w.ticks % Grain(level) == 0 ==> w.slots[Slot(level, Index(level, w.ticks))] == []
  }

  // ---- steps -----------------------------------------------------------------------

  function Insert(w: Wheel, t: Timer): (w': Wheel)
    requires FindTvec(w.ticks, t.expires) in w.slots
  {
    var s := FindTvec(w.ticks, t.expires);
    w.(slots := w.slots[s := w.slots[s] + [t]])
  }

  function Unlink(w: Wheel, s: Slot, t: Timer): (w': Wheel)
    requires s in w.slots
  {
    w.(slots := w.slots[s := Without(w.slots[s], t)])
  }

  function Armed(l: Log, now: word, t: Timer): (l': Log) {
    l.(due := l.due[t := Due(now, t.expires)], loc := l.loc[t := FindTvec(now, t.expires)])
  }

  lemma InsertFiles(w: Wheel, l: Log, t: Timer)
    requires Shape(w) && Filed(w, l) && t !in l.loc
    ensures Filed(Insert(w, t), Armed(l, w.ticks, t))
  {
    hide FindTvec, Due, Placed;
    FindTvecPlaces(w.ticks, t.expires);
    var w', l' := Insert(w, t), Armed(l, w.ticks, t);
    forall r, u | r in w'.slots && u in w'.slots[r]
      ensures Waiting(w'.ticks, l', r, u)
    {
      assert u != t ==> u in w.slots[r] && Waiting(w.ticks, l, r, u);
      assert t in w.slots[r] ==> Waiting(w.ticks, l, r, t);
    }
  }

  lemma InsertSingle(w: Wheel, l: Log, t: Timer)
    requires Shape(w) && Filed(w, l) && Single(w) && t !in l.loc
    ensures Single(Insert(w, t))
  {
    hide FindTvec, Placed;
    var s := FindTvec(w.ticks, t.expires);
    assert t in w.slots[s] ==> Waiting(w.ticks, l, s, t);
  }

  lemma InsertPresent(w: Wheel, l: Log, t: Timer)
    requires Shape(w) && Present(w, l)
    ensures Present(Insert(w, t), Armed(l, w.ticks, t))
  {
    hide FindTvec, Due;
    var s := FindTvec(w.ticks, t.expires);
    var w', l' := Insert(w, t), Armed(l, w.ticks, t);
    forall u | u in l'.loc
      ensures l'.loc[u] in w'.slots && u in w'.slots[l'.loc[u]]
    {
      assert w'.slots[s][|w.slots[s]|] == t;
      if u != t && l.loc[u] == s {
        var k :| 0 <= k < |w.slots[s]| && w.slots[s][k] == u;
        assert w'.slots[s][k] == u;
      }
    }
  }

  lemma InsertKeepsCore(w: Wheel, l: Log, t: Timer)
    requires Core(w, l) && t !in l.loc
    ensures Core(Insert(w, t), Armed(l, w.ticks, t))
  {
    hide FindTvec, Due, Filed, Single, Present;
    InsertFiles(w, l, t);
    InsertSingle(w, l, t);
    InsertPresent(w, l, t);
  }

  lemma UnlinkKeepsCore(w: Wheel, l: Log, t: Timer)
    requires Core(w, l) && t in l.loc
    ensures Core(Unlink(w, l.loc[t], t), l.(loc := l.loc - {t}))
  {
    var s := l.loc[t];
    WithoutFacts(w.slots[s], t);
    var w', l' := Unlink(w, s, t), l.(loc := l.loc - {t});
    forall r, u | r in w'.slots && u in w'.slots[r]
      ensures Waiting(w'.ticks, l', r, u)
    {
      assert u in w.slots[r] && Waiting(w.ticks, l, r, u);
    }
  }

  // What the slots must satisfy concerns the pending timers only.
  lemma CoreReadsPending(w: Wheel, l: Log, l': Log)
    requires Core(w, l) && l'.due == l.due && l'.loc == l.loc
    ensures Core(w, l')
  {
    forall s, t | s in w.slots && t in w.slots[s]
      ensures Waiting(w.ticks, l', s, t)
    {
      assert Waiting(w.ticks, l, s, t);
    }
  }

  // An insertion never lands in a slot whose turn it is now, unless the timer is due now.
  lemma InsertSparesTurn(w: Wheel, t: Timer, level: int)
    requires Shape(w) && 1 <= level <= 5 && (level > 1 || Due(w.ticks, t.expires) > w.ticks)
    requires Drained(w, level)
    ensures Shape(Insert(w, t)) && Drained(Insert(w, t), level)
  {
    FindTvecPlaces(w.ticks, t.expires);
    var s := FindTvec(w.ticks, t.expires);
    if s.level == level {
      LaterTurnElsewhere(w.ticks, Due(w.ticks, t.expires), s);
    }
  }

  // A slot is there for every timer that is filed.
  lemma CoreFiles(w: Wheel, l: Log)
    requires Core(w, l)
    ensures Shape(w) && forall s :: ValidSlot(s) ==> s in w.slots
  {
  }

  lemma ArmKeepsInv(w: Wheel, l: Log, t: Timer)
    requires Inv(w, l) && t !in l.due
    ensures Inv(Insert(w, t), Armed(l, w.ticks, t))
  {
    hide Core, Timers;
    CoreFiles(w, l);
    InsertKeepsCore(w, l, t);
    var l' := Armed(l, w.ticks, t);
    assert l'.loc.Keys == l.loc.Keys + {t};
    assert l'.due.Keys == l.due.Keys + {t};
    forall f | f in l'.fired
      ensures f.timer in l'.due && f.tick == l'.due[f.timer] && f.tick <= w.ticks
    {
      assert f.timer in l.due;
    }
  }

  // Between two calls: everything due before the current tick has been executed, and no
  // callback is running.
  ghost predicate Rest(w: Wheel, l: Log) {
    Inv(w, l) && OnTime(l, w.ticks - 1) && Families(l, {})
  }

  lemma EmptyAtRest(w: Wheel, l: Log)
    requires Shape(w) && (forall s :: s in w.slots ==> w.slots[s] == [])
    requires l == Log(map[], map[], {}, [])
    ensures Rest(w, l)
  {
  }

  lemma RestIs(w: Wheel, l: Log)
    requires Rest(w, l)
    ensures Inv(w, l) && Families(l, {})
  {
  }

  lemma ArmKeepsRest(w: Wheel, l: Log, t: Timer)
    requires Rest(w, l) && t.id.Client? && t !in l.due
    ensures Rest(Insert(w, t), Armed(l, w.ticks, t))
  {
    ArmKeepsInv(w, l, t);
    forall f | f in l.fired
      ensures f.timer in l.due && f.timer != t
    {
    }
  }

  function Deleted(l: Log, t: Timer): Log {
    if t in l.loc then l.(loc := l.loc - {t}, deleted := l.deleted + {t}) else l
  }

  // Nothing is left to cascade at the current tick.
  ghost predicate Quiet(w: Wheel)
    requires Shape(w)
  {
    forall k :: 1 < k <= 5 ==> Drained(w, k)
  }

  // Only `kids` have been armed between the two histories.
  ghost predicate Adopted(l: Log, l': Log, kids: seq<Timer>, now: word) {
    && l'.fired == l.fired && l'.deleted == l.deleted
    && l'.due.Keys == l.due.Keys + (set c | c in kids)
    && (forall u :: u in l.due ==> u in l'.due && l'.due[u] == l.due[u])
    && (forall c :: c in kids ==> c in l'.due && l'.due[c] == Due(now, c.expires))
    && (forall u :: u in l.loc ==> u in l'.loc)
  }

  lemma InvHasShape(w: Wheel, l: Log)
    requires Inv(w, l)
    ensures Shape(w)
  {
  }

  // A timer for a later tick does not go to the slot of the current one.
  lemma InsertSparesNow(w: Wheel, t: Timer)
    requires Shape(w) && Due(w.ticks, t.expires) > w.ticks
    ensures FindTvec(w.ticks, t.expires) in w.slots && Shape(Insert(w, t))
    ensures Insert(w, t).slots[Slot(1, w.ticks % 256)] == w.slots[Slot(1, w.ticks % 256)]
  {
    hide Due, FindTvec, Placed;
    FindTvecPlaces(w.ticks, t.expires);
    var s := FindTvec(w.ticks, t.expires);
    if s.level == 1 {
      LaterTurnElsewhere(w.ticks, Due(w.ticks, t.expires), s);
    }
  }

  lemma InsertQuiet(w: Wheel, t: Timer)
    requires Shape(w) && Quiet(w) && Due(w.ticks, t.expires) > w.ticks
    ensures Shape(Insert(w, t)) && Quiet(Insert(w, t))
    ensures Insert(w, t).slots[Slot(1, w.ticks % 256)] == w.slots[Slot(1, w.ticks % 256)]
  {
    hide Due, Drained, FindTvec, Insert;
    InsertSparesNow(w, t);
    forall k | 1 < k <= 5
      ensures Drained(Insert(w, t), k)
    {
      InsertSparesTurn(w, t, k);
    }
  }

  // A timer armed by a running callback for a later tick does not touch the lists whose turn
  // it is now.
  lemma ArmLaterKeeps(w: Wheel, l: Log, t: Timer)
    requires Inv(w, l) && Quiet(w) && t !in l.due && Due(w.ticks, t.expires) > w.ticks
    requires t.id.Child? && Families(l, {t.id.parent})
    ensures Inv(Insert(w, t), Armed(l, w.ticks, t)) && Quiet(Insert(w, t))
    ensures Families(Armed(l, w.ticks, t), {t.id.parent})
    ensures Insert(w, t).slots[Slot(1, w.ticks % 256)] == w.slots[Slot(1, w.ticks % 256)]
  {
    hide Inv, FindTvec, Due, Drained, Index;
    InvHasShape(w, l);
    ArmKeepsInv(w, l, t);
    InsertQuiet(w, t);
  }

  lemma AdoptNext(l: Log, l': Log, kids: seq<Timer>, k: nat, now: word)
    requires k < |kids| && Adopted(l, l', kids[..k], now)
    requires kids[k] !in l.due && kids[k] !in kids[..k]
    ensures kids[k] !in l'.due && Adopted(l, Armed(l', now, kids[k]), kids[..k + 1], now)
  {
    assert kids[..k + 1] == kids[..k] + [kids[k]];
  }

  // A pending timer has no children; they appear only when its callback runs.
  lemma NoKidsYet(w: Wheel, l: Log, t: Timer, kids: seq<Timer>)
    requires Inv(w, l) && Families(l, {}) && t in l.loc
    requires forall k :: 0 <= k < |kids| ==> kids[k].id == Child(t, k)
    ensures forall k :: 0 <= k < |kids| ==> kids[k] !in l.due && kids[k] !in kids[..k]
    ensures Families(l, {t}) && Adopted(l, l, [], w.ticks)
  {
  }

  lemma DeleteKeepsInv(w: Wheel, l: Log, t: Timer)
    requires Inv(w, l) && t in l.loc
    ensures Inv(Unlink(w, l.loc[t], t), Deleted(l, t))
  {
    UnlinkKeepsCore(w, l, t);
    CoreReadsPending(Unlink(w, l.loc[t], t), l.(loc := l.loc - {t}),
                     l.(loc := l.loc - {t}, deleted := l.deleted + {t}));
  }

  ghost function Removed(w: Wheel, l: Log, t: Timer): Wheel {
    if t in l.loc && l.loc[t] in w.slots then Unlink(w, l.loc[t], t) else w
  }

  lemma DeleteKeepsRest(w: Wheel, l: Log, t: Timer)
    requires Rest(w, l)
    ensures Rest(Removed(w, l, t), Deleted(l, t))
  {
    if t in l.loc {
      DeleteKeepsInv(w, l, t);
    }
  }

  // Unlinking an entry from its own list is unlinking it from all lists.
  lemma UnlinkEverywhere(w: Wheel, l: Log, t: Timer)
    requires Rest(w, l)
    ensures Removed(w, l, t).ticks == w.ticks && Shape(Removed(w, l, t))
    ensures forall s :: s in w.slots ==> Removed(w, l, t).slots[s] == Without(w.slots[s], t)
  {
    forall s | s in w.slots && !(t in l.loc && l.loc[t] == s)
      ensures Without(w.slots[s], t) == w.slots[s]
    {
      assert t in w.slots[s] ==> Waiting(w.ticks, l, s, t);
      WithoutOther(w.slots[s], t);
    }
  }

  // A timer whose slot is cascaded now lands at a strictly lower level and keeps its due tick.
  lemma CascadeDescends(w: Wheel, l: Log, s: Slot, t: Timer)
    requires Filed(w, l) && s in w.slots && t in w.slots[s]
    requires 1 < s.level <= 5 && w.ticks % Grain(s.level) == 0 && s.index == Index(s.level, w.ticks)
    ensures t in l.due && Due(w.ticks, t.expires) == l.due[t]
    ensures FindTvec(w.ticks, t.expires).level < s.level
  {
    assert Waiting(w.ticks, l, s, t);
    TurnsApart(w.ticks, l.due[t], s);
    DueStable(w.ticks, l.due[t], t.expires);
    FindTvecPlaces(w.ticks, t.expires);
    assert Span(s.level - 1) == Grain(s.level);
    assert l.due[t] < w.ticks + Span(s.level - 1);
  }

  lemma AccountsReadKeys(l: Log, l': Log, now: int)
    requires Accounts(l) && OnTime(l, now)
    requires l'.due == l.due && l'.deleted == l.deleted && l'.fired == l.fired && l'.loc.Keys == l.loc.Keys
    ensures Accounts(l') && OnTime(l', now)
  {
  }

  lemma Refiled(due: map<Timer, nat>, loc: map<Timer, Slot>, t: Timer, s: Slot)
    requires t in due
    ensures due[t := due[t]] == due && (loc - {t})[t := s] == loc[t := s]
  {
  }

  lemma FoundWhereFiled(w: Wheel, l: Log, s: Slot, t: Timer)
    requires Core(w, l) && s in w.slots && t in w.slots[s]
    ensures t in l.loc && l.loc[t] == s && forall r :: ValidSlot(r) <==> r in w.slots
  {
    assert Waiting(w.ticks, l, s, t);
  }

  lemma MoveKeepsCore(w: Wheel, l: Log, s: Slot, t: Timer)
    requires Core(w, l) && s in w.slots && t in w.slots[s]
    requires t in l.due && Due(w.ticks, t.expires) == l.due[t]
    ensures Core(Insert(Unlink(w, s, t), t), l.(loc := l.loc[t := FindTvec(w.ticks, t.expires)]))
  {
    FoundWhereFiled(w, l, s, t);
    hide Core, FindTvec, Due, Without;
    UnlinkKeepsCore(w, l, t);
    var w1, l1 := Unlink(w, s, t), l.(loc := l.loc - {t});
    InsertKeepsCore(w1, l1, t);
    hide Insert;
    var l' := l.(loc := l.loc[t := FindTvec(w.ticks, t.expires)]);
    Refiled(l.due, l.loc, t, FindTvec(w.ticks, t.expires));
    CoreReadsPending(Insert(w1, t), Armed(l1, w.ticks, t), l');
  }

  // Moving one timer down: what a cascade does to each timer of the slot.
  lemma CascadeStep(w: Wheel, l: Log, s: Slot, t: Timer)
    requires Inv(w, l) && s in w.slots && t in w.slots[s]
    requires t in l.due && Due(w.ticks, t.expires) == l.due[t]
    ensures Inv(Insert(Unlink(w, s, t), t), l.(loc := l.loc[t := FindTvec(w.ticks, t.expires)]))
  {
    var l' := l.(loc := l.loc[t := FindTvec(w.ticks, t.expires)]);
    MoveKeepsCore(w, l, s, t);
    assert Waiting(w.ticks, l, s, t);
    AccountsReadKeys(l, l', w.ticks);
  }

  // One move of a cascade: the timer goes down, the lower levels stay drained, and the list
  // that is being walked loses this timer only.
  lemma CascadeMove(w: Wheel, l: Log, s: Slot, t: Timer)
    requires Inv(w, l) && s in w.slots && t in w.slots[s]
    requires 1 < s.level <= 5 && w.ticks % Grain(s.level) == 0 && s.index == Index(s.level, w.ticks)
    ensures FindTvec(w.ticks, t.expires).level < s.level
    ensures Inv(Insert(Unlink(w, s, t), t), l.(loc := l.loc[t := FindTvec(w.ticks, t.expires)]))
    ensures Insert(Unlink(w, s, t), t).slots[s] == Without(w.slots[s], t)
    ensures l.loc[t := FindTvec(w.ticks, t.expires)].Keys == l.loc.Keys
    ensures forall k :: 1 < k < s.level && Drained(w, k) ==> Drained(Insert(Unlink(w, s, t), t), k)
  {
    CascadeDescends(w, l, s, t);
    CascadeStep(w, l, s, t);
    assert Waiting(w.ticks, l, s, t);
    forall k | 1 < k < s.level && Drained(w, k)
      ensures Drained(Insert(Unlink(w, s, t), t), k)
    {
      InsertSparesTurn(Unlink(w, s, t), t, k);
    }
  }

  lemma TimersAppend(fs: seq<Firing>, f: Firing)
    ensures Timers(fs + [f]) == Timers(fs) + {f.timer}
  {
    forall u | u in Timers(fs) + {f.timer}
      ensures u in Timers(fs + [f])
    {
      if u == f.timer {
        assert (fs + [f])[|fs|] == f;
      } else {
        var g :| g in fs && g.timer == u;
        assert g in fs + [f];
      }
    }
  }

  function Fired(l: Log, t: Timer, now: nat): Log {
    l.(loc := l.loc - {t}, fired := l.fired + [Firing(t, now)])
  }

  lemma FiredAccounts(l: Log, t: Timer, now: nat)
    requires Accounts(l) && t in l.loc
    ensures Accounts(Fired(l, t, now))
  {
    TimersAppend(l.fired, Firing(t, now));
    forall i | 0 <= i < |l.fired|
      ensures l.fired[i].timer != t
    {
      assert l.fired[i] in l.fired && l.fired[i].timer in Timers(l.fired);
    }
    hide Timers;
    assert Fired(l, t, now).loc.Keys == l.loc.Keys - {t};
  }

  lemma FiredOnTime(l: Log, t: Timer, now: nat)
    requires OnTime(l, now) && t in l.due && l.due[t] == now
    ensures OnTime(Fired(l, t, now), now)
  {
    assert forall i :: 0 <= i < |l.fired| ==> l.fired[i] in l.fired;
  }

  lemma FireAccounts(l: Log, t: Timer, now: nat)
    requires Accounts(l) && OnTime(l, now)
    requires t in l.loc && t in l.due && l.due[t] == now
    ensures Accounts(Fired(l, t, now)) && OnTime(Fired(l, t, now), now)
  {
    hide Accounts, OnTime;
    FiredAccounts(l, t, now);
    FiredOnTime(l, t, now);
  }

  lemma DueNow(w: Wheel, l: Log, t: Timer)
    requires Inv(w, l)
    requires Slot(1, w.ticks % 256) in w.slots && t in w.slots[Slot(1, w.ticks % 256)]
    ensures t in l.due && t in l.loc && l.loc[t] == Slot(1, w.ticks % 256)
    ensures l.due[t] == w.ticks
  {
    var s := Slot(1, w.ticks % 256);
    assert Waiting(w.ticks, l, s, t);
    TurnsApart(w.ticks, l.due[t], s);
  }

  // Executing a timer of the current slot: its due tick is now.
  lemma FireStep(w: Wheel, l: Log, t: Timer)
    requires Inv(w, l)
    requires Slot(1, w.ticks % 256) in w.slots && t in w.slots[Slot(1, w.ticks % 256)]
    ensures Inv(Unlink(w, Slot(1, w.ticks % 256), t), Fired(l, t, w.ticks))
  {
    DueNow(w, l, t);
    var s := Slot(1, w.ticks % 256);
    UnlinkKeepsCore(w, l, t);
    CoreReadsPending(Unlink(w, s, t), l.(loc := l.loc - {t}), Fired(l, t, w.ticks));
    FireAccounts(l, t, w.ticks);
  }

  // The callback of `t` ran at tick `now` and armed `kids`.
  ghost predicate Ran(l: Log, l': Log, t: Timer, now: word, kids: seq<Timer>) {
    && l'.fired == l.fired + [Firing(t, now)]
    && l'.deleted == l.deleted
    && l'.due.Keys == l.due.Keys + (set c | c in kids)
    && (forall u :: u in l.due ==> u in l'.due && l'.due[u] == l.due[u])
    && (forall c :: c in kids ==> c in l'.due && l'.due[c] == Due(now, c.expires))
  }

  lemma FireAfterCallback(w: Wheel, l: Log, mid: Log, t: Timer, kids: seq<Timer>)
    requires Inv(w, mid) && Quiet(w) && Families(mid, {t}) && Adopted(l, mid, kids, w.ticks)
    requires t in w.slots[Slot(1, w.ticks % 256)]
    ensures var s := Slot(1, w.ticks % 256);
            && Inv(Unlink(w, s, t), Fired(mid, t, w.ticks))
            && Quiet(Unlink(w, s, t))
            && Families(Fired(mid, t, w.ticks), {})
            && Ran(l, Fired(mid, t, w.ticks), t, w.ticks, kids)
  {
    FireStep(w, mid, t);
    TimersAppend(mid.fired, Firing(t, w.ticks));
    forall k | 1 < k <= 5
      ensures Drained(Unlink(w, Slot(1, w.ticks % 256), t), k)
    {
      assert Drained(w, k);
    }
  }

  lemma NotAtTurn(w: Wheel, k: int)
    requires Shape(w) && 1 <= k <= 5 && w.ticks % Grain(k) != 0
    ensures Drained(w, k)
  {
  }

  lemma QuietOffTurn(w: Wheel)
    requires Shape(w) && w.ticks % 256 != 0
    ensures Quiet(w)
  {
    forall k | 1 < k <= 5
      ensures Drained(w, k)
    {
      NotAtHigherTurn(2, k, w.ticks);
    }
  }

  lemma FamiliesReadDue(l: Log, l': Log, running: set<Timer>)
    requires Families(l, running) && l'.due == l.due && l'.fired == l.fired
    ensures Families(l', running)
  {
  }

  // When nothing is left whose turn it is, the wheel may move on.
  lemma AdvanceToRest(w: Wheel, l: Log)
    requires Inv(w, l) && Families(l, {}) && w.ticks + 1 < WORD
    requires Quiet(w) && w.slots[Slot(1, w.ticks % 256)] == []
    ensures Rest(w.(ticks := w.ticks + 1), l)
  {
    var w' := w.(ticks := w.ticks + 1);
    forall s, t | s in w'.slots && t in w'.slots[s]
      ensures Waiting(w'.ticks, l, s, t)
    {
      assert Waiting(w.ticks, l, s, t);
      assert Drained(w, s.level);
      PlacedNextTick(w.ticks, l.due[t], s);
    }
  }

  // ---- the order of timers that are due in the same tick -------------------------------

  ghost predicate FiredBefore(fs: seq<Firing>, a: Timer, b: Timer) {
    exists i, j :: 0 <= i < j < |fs| && fs[i].timer == a && fs[j].timer == b
  }

  // Of two pending timers that are due in the same tick, `a` is nearer: at a lower level, or before
  // `b` in the same list.
  ghost predicate Nearer(w: Wheel, l: Log, a: Timer, b: Timer)
    requires a in l.loc && b in l.loc
  {
    || l.loc[a].level < l.loc[b].level
    || (l.loc[a] == l.loc[b] && l.loc[a] in w.slots && Before(w.slots[l.loc[a]], a, b))
  }

  // `a` and `b` are due in the same tick, and `a` runs first unless one of them is deleted.
  ghost predicate Ordered(w: Wheel, l: Log, a: Timer, b: Timer) {
    && a != b && a in l.due && b in l.due && l.due[a] == l.due[b]
    && (a in l.loc && b in l.loc ==> Nearer(w, l, a, b))
    && (b in Timers(l.fired) ==> a !in l.loc)
    && (b in Timers(l.fired) && a in Timers(l.fired) ==> FiredBefore(l.fired, a, b))
  }

  ghost predicate KeepsOrder(w: Wheel, l: Log, w': Wheel, l': Log) {
    forall a, b :: Ordered(w, l, a, b) ==> Ordered(w', l', a, b)
  }

  // What does not touch the order: the ticks, and the places of the timers as long as each stays
  // in its list.
  lemma OrderFrame(w: Wheel, l: Log, w': Wheel, l': Log)
    requires l'.fired == l.fired && forall t :: t in l.due ==> t in l'.due && l'.due[t] == l.due[t]
    requires forall t :: t in l.due && t in l'.loc ==> t in l.loc && l'.loc[t] == l.loc[t]
    requires forall s :: s in w.slots ==> s in w'.slots
    requires forall s, a, b ::
               s in w.slots && a in l.due && b in l.due && a in l'.loc && b in l'.loc && Before(w.slots[s], a, b) ==>
                 Before(w'.slots[s], a, b)
    ensures KeepsOrder(w, l, w', l')
  {
    hide Before, Timers;
  }

  lemma InsertOrder(w: Wheel, l: Log, t: Timer)
    requires Shape(w) && t !in l.due
    ensures KeepsOrder(w, l, Insert(w, t), Armed(l, w.ticks, t))
  {
    hide FindTvec, Due, Before, Ordered;
    var w', l' := Insert(w, t), Armed(l, w.ticks, t);
    var r := FindTvec(w.ticks, t.expires);
    forall s, a, b | s in w.slots && a in l.due && b in l.due && a in l'.loc && b in l'.loc && Before(w.slots[s], a, b)
      ensures Before(w'.slots[s], a, b)
    {
      BeforeSnoc(w.slots[s], t, a, b);
    }
    OrderFrame(w, l, w', l');
  }

  lemma DeleteOrder(w: Wheel, l: Log, t: Timer)
    requires Shape(w)
    ensures KeepsOrder(w, l, Removed(w, l, t), Deleted(l, t))
  {
    hide Before, Ordered, Without;
    var w', l' := Removed(w, l, t), Deleted(l, t);
    forall s, a, b | s in w.slots && a in l.due && b in l.due && a in l'.loc && b in l'.loc && Before(w.slots[s], a, b)
      ensures Before(w'.slots[s], a, b)
    {
      if t in l.loc {
        WithoutOrder(w.slots[s], t, a, b);
      }
    }
    OrderFrame(w, l, w', l');
  }

  lemma TurnBelow(level: int, above: int, tick: nat)
    requires 1 <= level <= above <= 5 && tick % Grain(above) == 0
    ensures tick % Grain(level) == 0
  {
    if tick % Grain(level) != 0 {
      NotAtHigherTurn(level, above, tick);
    }
  }

  lemma SpanBelow(level: int, above: int)
    requires 1 <= level < above <= 5
    ensures Span(level) <= Grain(above)
  {
  }

  // A turn that is not now is at least one grain away.
  lemma TurnIsLater(level: int, now: word, due: nat)
    requires 1 <= level <= 5 && now % Grain(level) == 0 && now <= Turn(level, due)
    ensures Index(level, due) == Index(level, now) || now + Grain(level) <= due
  {
    var g := Grain(level);
    var p, q := now / g, due / g;
    assert now == p * g;
    if q > p {
      MulMonotone(p + 1, q, g);
      MulSucc(p, g);
    } else if q < p {
      MulMonotone(q + 1, p, g);
      MulSucc(q, g);
    }
  }

  // A timer that is due in the same tick as one of a cascading slot, and nearer, is not above the
  // level that one goes to.
  lemma NearerStays(w: Wheel, l: Log, s: Slot, t: Timer, u: Timer)
    requires Core(w, l) && s in w.slots && t in w.slots[s] && u in l.loc && u in l.due && t in l.due
    requires l.due[u] == l.due[t] && l.loc[u].level < s.level
    requires 1 < s.level <= 5 && w.ticks % Grain(s.level) == 0 && s.index == Index(s.level, w.ticks)
    requires forall k :: 1 < k < s.level ==> Drained(w, k)
    ensures var r := FindTvec(w.ticks, t.expires); l.loc[u].level < r.level || l.loc[u] == r
  {
    CascadeDescends(w, l, s, t);
    var r, m, d := FindTvec(w.ticks, t.expires), l.loc[u], l.due[t];
    assert Waiting(w.ticks, l, m, u);
    FindTvecIndex(w.ticks, t.expires);
    hide FindTvec, Due;
    if r.level < m.level {
      TurnBelow(m.level, s.level, w.ticks);
      assert Drained(w, m.level);
      assert u in w.slots[m];
      TurnIsLater(m.level, w.ticks, d);
      SpanBelow(r.level, m.level);
    }
  }

  lemma NotBeforeFirst(list: seq<Timer>, a: Timer)
    requires Distinct(list) && list != []
    ensures !Before(list, a, list[0])
  {
  }

  lemma MoveNearer(w: Wheel, l: Log, s: Slot, t: Timer, r: Slot, a: Timer, b: Timer)
    requires Inv(w, l) && s in w.slots && w.slots[s] != [] && t == w.slots[s][0] && t in l.loc && l.loc[t] == s
    requires 1 < s.level <= 5 && w.ticks % Grain(s.level) == 0 && s.index == Index(s.level, w.ticks)
    requires forall k :: 1 < k < s.level ==> Drained(w, k)
    requires r == FindTvec(w.ticks, t.expires) && r.level < s.level && r in w.slots
    requires Ordered(w, l, a, b) && a in l.loc && b in l.loc
    ensures Nearer(Insert(Unlink(w, s, t), t), l.(loc := l.loc[t := r]), a, b)
  {
    var w1 := Unlink(w, s, t);
    var w', l' := Insert(w1, t), l.(loc := l.loc[t := r]);
    assert Present(w, l) && Single(w);
    if b == t {
      NotBeforeFirst(w.slots[s], a);
      NearerStays(w, l, s, t, a);
      hide FindTvec, Inv, Drained, Without;
      if l.loc[a] == r {
        assert a in w1.slots[r];
        BeforeSnoc(w1.slots[r], t, a, t);
      }
    } else if a != t && l.loc[a] == l.loc[b] {
      hide FindTvec, Inv, Drained, Without;
      var x := l.loc[a];
      WithoutOrder(w.slots[x], t, a, b);
      BeforeSnoc(w1.slots[x], t, a, b);
    }
  }

  // One move of a cascade, of the first timer of the list.
  lemma CascadeOrder(w: Wheel, l: Log, s: Slot, t: Timer)
    requires Inv(w, l) && s in w.slots && w.slots[s] != [] && t == w.slots[s][0]
    requires 1 < s.level <= 5 && w.ticks % Grain(s.level) == 0 && s.index == Index(s.level, w.ticks)
    requires forall k :: 1 < k < s.level ==> Drained(w, k)
    ensures FindTvec(w.ticks, t.expires) in Unlink(w, s, t).slots
    ensures KeepsOrder(w, l, Insert(Unlink(w, s, t), t), l.(loc := l.loc[t := FindTvec(w.ticks, t.expires)]))
  {
    InvHasShape(w, l);
    FoundWhereFiled(w, l, s, t);
    CascadeDescends(w, l, s, t);
    var r := FindTvec(w.ticks, t.expires);
    var w', l' := Insert(Unlink(w, s, t), t), l.(loc := l.loc[t := r]);
    hide FindTvec, Due, Drained, Index, Grain;
    forall a, b | Ordered(w, l, a, b)
      ensures Ordered(w', l', a, b)
    {
      if a in l.loc && b in l.loc {
        MoveNearer(w, l, s, t, r, a, b);
      }
    }
  }

  lemma NowPlaces(w: Wheel, l: Log)
    requires Inv(w, l)
    ensures forall t :: t in l.loc ==> 1 <= l.loc[t].level && l.loc[t] in w.slots
    ensures l.loc.Keys !! Timers(l.fired)
    ensures forall s :: s in w.slots ==> Distinct(w.slots[s])
  {
  }

  lemma FirstIsNearest(w: Wheel, l: Log, s: Slot, t: Timer, a: Timer)
    requires s in w.slots && Distinct(w.slots[s]) && w.slots[s] != [] && t == w.slots[s][0] && s.level == 1
    requires a in l.loc && t in l.loc && l.loc[t] == s && 1 <= l.loc[a].level
    ensures !Nearer(w, l, a, t)
  {
    NotBeforeFirst(w.slots[s], a);
  }

  lemma FiredMore(fs: seq<Firing>, f: Firing, a: Timer, b: Timer)
    ensures FiredBefore(fs, a, b) ==> FiredBefore(fs + [f], a, b)
    ensures a in Timers(fs) && b == f.timer ==> FiredBefore(fs + [f], a, b)
  {
    var gs := fs + [f];
    if FiredBefore(fs, a, b) {
      var i, j :| 0 <= i < j < |fs| && fs[i].timer == a && fs[j].timer == b;
      assert gs[i] == fs[i] && gs[j] == fs[j];
    }
    if a in Timers(fs) && b == f.timer {
      var g :| g in fs && g.timer == a;
      var i :| 0 <= i < |fs| && fs[i] == g;
      assert gs[i] == g && gs[|fs|] == f;
    }
  }

  // Executing the first timer of the list of the tick.
  lemma FireOrder(w: Wheel, l: Log, t: Timer)
    requires Inv(w, l) && Slot(1, w.ticks % 256) in w.slots
    requires w.slots[Slot(1, w.ticks % 256)] != [] && t == w.slots[Slot(1, w.ticks % 256)][0]
    ensures KeepsOrder(w, l, Unlink(w, Slot(1, w.ticks % 256), t), Fired(l, t, w.ticks))
  {
    var s := Slot(1, w.ticks % 256);
    DueNow(w, l, t);
    var w', l' := Unlink(w, s, t), Fired(l, t, w.ticks);
    TimersAppend(l.fired, Firing(t, w.ticks));
    NowPlaces(w, l);
    forall a, b | Ordered(w, l, a, b)
      ensures Ordered(w', l', a, b)
    {
      hide Inv, Without, Timers, Distinct;
      FiredMore(l.fired, Firing(t, w.ticks), a, b);
      if b == t && a in l.loc {
        FirstIsNearest(w, l, s, t, a);
      } else if a in l'.loc && b in l'.loc && l.loc[a] == l.loc[b] {
        WithoutOrder(w.slots[l.loc[a]], t, a, b);
      }
    }
  }

  lemma KeptOn(w: Wheel, l: Log, w1: Wheel, l1: Log, w2: Wheel, l2: Log)
    requires KeepsOrder(w, l, w1, l1) && KeepsOrder(w1, l1, w2, l2)
    ensures KeepsOrder(w, l, w2, l2)
  {
    hide Ordered;
  }

  lemma KeptAsIs(w: Wheel, l: Log, w': Wheel)
    requires w'.slots == w.slots
    ensures KeepsOrder(w, l, w', l)
  {
  }

  // A timer that is armed runs after the pending ones that are due in the same tick and wait in the
  // list it joins, and before all others.
  lemma ArmedBehind(w: Wheel, l: Log, t: Timer, u: Timer)
    requires Inv(w, l) && t !in l.due && u in l.loc && u in l.due && l.due[u] == Due(w.ticks, t.expires)
    requires FindTvec(w.ticks, t.expires) in w.slots
    ensures var w', l' := Insert(w, t), Armed(l, w.ticks, t);
            if l.loc[u] == FindTvec(w.ticks, t.expires) then Ordered(w', l', u, t) else Ordered(w', l', t, u)
  {
    var r, m, d := FindTvec(w.ticks, t.expires), l.loc[u], l.due[u];
    assert Waiting(w.ticks, l, m, u) && u in w.slots[m];
    FindTvecIndex(w.ticks, t.expires);
    NowPlaces(w, l);
    assert t !in Timers(l.fired) && u !in Timers(l.fired);
    hide FindTvec, Due, Timers, Inv;
    if m == r {
      BeforeSnoc(w.slots[r], t, u, t);
    } else if m.level < r.level {
      SpanBelow(m.level, r.level);
    }
  }

  // ---- consequences ----------------------------------------------------------------

  lemma PendingIsNotPast(w: Wheel, l: Log)
    requires Core(w, l)
    ensures forall t :: t in l.loc ==> t in l.due && w.ticks <= l.due[t]
  {
    forall t | t in l.loc
      ensures t in l.due && w.ticks <= l.due[t]
    {
      assert Waiting(w.ticks, l, l.loc[t], t);
    }
  }

  // A timer that was armed, not deleted and whose due tick is past has fired exactly once, at
  // its due tick; a timer that is not due yet has not fired.
  lemma FiresExactlyWhenDue(w: Wheel, l: Log, t: Timer)
    requires Inv(w, l) && OnTime(l, w.ticks - 1)
    requires t in l.due && t !in l.deleted
    ensures l.due[t] < w.ticks ==>
              exists i :: 0 <= i < |l.fired| && l.fired[i] == Firing(t, l.due[t])
                          && forall j :: 0 <= j < |l.fired| && l.fired[j].timer == t ==> j == i
    ensures l.due[t] >= w.ticks ==> t in l.loc && forall j :: 0 <= j < |l.fired| ==> l.fired[j].timer != t
  {
    if l.due[t] < w.ticks {
      PendingIsNotPast(w, l);
      var f :| f in l.fired && f.timer == t;
      var i :| 0 <= i < |l.fired| && l.fired[i] == f;
      assert l.fired[i] == Firing(t, l.due[t]);
    } else {
      forall j | 0 <= j < |l.fired|
        ensures l.fired[j].timer != t
      {
        assert l.fired[j] in l.fired;
      }
    }
  }
}
