/** The timer base of a CPU: five vectors of timer lists, updated in place. */
module TimerWheel {
  import opened Arith
  import opened Seqs
  import opened TimerWheelModel
  import opened TimerWheelState

  // A list_head pointer while list_for_each_safe walks a list: the list's own head, or an entry.
  datatype Cursor = Head | Entry(timer: Timer)

  function First(list: seq<Timer>): Cursor {
    if list == [] then Head else Entry(list[0])
  }

  // The `next` pointer of an entry.
  function Next(list: seq<Timer>, t: Timer): Cursor {
    if list == [] then Head
    else if list[0] == t then First(list[1..])
    else Next(list[1..], t)
  }

  function AllSlots(): (r: set<Slot>)
    ensures forall s :: s in r <==> ValidSlot(s)
  {
    set k, i | 1 <= k <= 5 && 0 <= i < 256 && ValidSlot(Slot(k, i)) :: Slot(k, i)
  }

  // Timer callbacks: the timers that the callback of a timer arms when it is executed at `tick`.
  type Callback = (Timer, nat) -> seq<Timer>

  // Callbacks arm objects of their own, for strictly later ticks.
  ghost predicate ArmsLater(callback: Callback, from: nat, to: nat) {
    forall t, tick: word, k | from <= tick <= to && 0 <= k < |callback(t, tick)| ::
      callback(t, tick)[k].id == Child(t, k) && Due(tick, callback(t, tick)[k].expires) > tick
  }

  ghost function Kids(fs: seq<Firing>, callback: Callback): set<Timer> {
    set f, t | f in fs && t in callback(f.timer, f.tick) :: t
  }

  // The timers armed by the callbacks `fs` are due when they were armed for.
  ghost predicate KidsDue(due: map<Timer, nat>, fs: seq<Firing>, callback: Callback) {
    forall f, c :: f in fs && f.tick < WORD && c in callback(f.timer, f.tick) ==>
      c in due && due[c] == Due(f.tick, c.expires)
  }

  // What executing timers does to the history.
  ghost predicate Grew(l: Log, l': Log, callback: Callback, from: nat) {
    && l.fired <= l'.fired
    && (forall f :: f in l'.fired[|l.fired|..] ==> from <= f.tick)
    && l'.deleted == l.deleted
    && l'.due.Keys == l.due.Keys + Kids(l'.fired[|l.fired|..], callback)
    && (forall t :: t in l.due ==> t in l'.due && l'.due[t] == l.due[t])
    && KidsDue(l'.due, l'.fired[|l.fired|..], callback)
  }

  lemma KidsAppend(fs: seq<Firing>, f: Firing, callback: Callback)
    ensures Kids(fs + [f], callback) == Kids(fs, callback) + (set t | t in callback(f.timer, f.tick))
  {
    var all := fs + [f];
    assert all[|fs|] == f;
    forall g | g in all
      ensures g in fs || g == f
    {
    }
    forall t | t in Kids(fs, callback)
      ensures t in Kids(all, callback)
    {
      var g :| g in fs && t in callback(g.timer, g.tick);
      assert g in all;
    }
    forall t | t in callback(f.timer, f.tick)
      ensures t in Kids(all, callback)
    {
      assert f in all;
    }
  }

  lemma GrewNothing(l: Log, callback: Callback, from: nat)
    ensures Grew(l, l, callback, from)
  {
    assert Kids([], callback) == {};
  }

  lemma GrewRelocated(l0: Log, l: Log, l': Log, callback: Callback, from: nat)
    requires Grew(l0, l, callback, from) && l' == l.(loc := l'.loc)
    ensures Grew(l0, l', callback, from)
  {
  }

  lemma ArmsLaterNow(callback: Callback, from: nat, to: nat, now: word)
    requires ArmsLater(callback, from, to) && from <= now <= to
    ensures ArmsLater(callback, now, now)
  {
  }

  lemma KidsDueAppend(due: map<Timer, nat>, due': map<Timer, nat>, fs: seq<Firing>, g: Firing, callback: Callback)
    requires KidsDue(due, fs, callback) && g.tick < WORD
    requires forall t :: t in due ==> t in due' && due'[t] == due[t]
    requires forall c :: c in callback(g.timer, g.tick) ==> c in due' && due'[c] == Due(g.tick, c.expires)
    ensures KidsDue(due', fs + [g], callback)
  {
    forall f, c | f in fs + [g] && f.tick < WORD && c in callback(f.timer, f.tick)
      ensures c in due' && due'[c] == Due(f.tick, c.expires)
    {
      assert f in fs || f == g;
    }
  }

  lemma GrewOne(l0: Log, l: Log, l': Log, t: Timer, now: word, callback: Callback, from: nat)
    requires from <= now && Grew(l0, l, callback, from) && Ran(l, l', t, now, callback(t, now))
    ensures Grew(l0, l', callback, from)
  {
    hide KidsDue, Kids;
    var f, kids := Firing(t, now), callback(t, now);
    DropSnoc(l.fired, f, |l0.fired|);
    var fs := l.fired[|l0.fired|..];
    KidsAppend(fs, f, callback);
    KidsDueAppend(l.due, l'.due, fs, f, callback);
    assert l'.due.Keys == l0.due.Keys + (Kids(fs, callback) + set c | c in kids);
  }

  // Timers armed one after the other in the same tick, for the same expiry, run in that order.
  ghost predicate Lined(w: Wheel, l: Log, ts: seq<Timer>) {
    forall i, j :: 0 <= i < j < |ts| && ts[i].expires == ts[j].expires ==> Ordered(w, l, ts[i], ts[j])
  }

  // The timers have not moved since they were armed in this tick.
  ghost predicate JustArmed(l: Log, now: word, ts: seq<Timer>) {
    forall t :: t in ts ==>
      t in l.due && l.due[t] == Due(now, t.expires) && (t in l.loc ==> l.loc[t] == FindTvec(now, t.expires))
  }

  lemma NoneLined(w: Wheel, l: Log)
    ensures Lined(w, l, []) && JustArmed(l, w.ticks, [])
  {
  }

  lemma StillLined(w: Wheel, l: Log, w': Wheel, l': Log, ts: seq<Timer>)
    requires Lined(w, l, ts) && KeepsOrder(w, l, w', l')
    ensures Lined(w', l', ts)
  {
    hide Ordered;
  }

  lemma JoinsBehind(w: Wheel, l: Log, u: Timer, t: Timer)
    requires Inv(w, l) && t !in l.due && FindTvec(w.ticks, t.expires) in w.slots && u.expires == t.expires
    requires u in l.due && l.due[u] == Due(w.ticks, u.expires)
    requires u in l.loc ==> l.loc[u] == FindTvec(w.ticks, u.expires)
    ensures Ordered(Insert(w, t), Armed(l, w.ticks, t), u, t)
  {
    if u in l.loc {
      ArmedBehind(w, l, t, u);
    } else {
      assert t !in Timers(l.fired);
    }
  }

  lemma LineUp(w: Wheel, l: Log, ts: seq<Timer>, k: nat)
    requires k < |ts| && Inv(w, l) && Lined(w, l, ts[..k]) && JustArmed(l, w.ticks, ts[..k]) && ts[k] !in l.due
    ensures FindTvec(w.ticks, ts[k].expires) in w.slots
    ensures Lined(Insert(w, ts[k]), Armed(l, w.ticks, ts[k]), ts[..k + 1])
    ensures JustArmed(Armed(l, w.ticks, ts[k]), w.ticks, ts[..k + 1])
  {
    InvHasShape(w, l);
    var t := ts[k];
    var w', l' := Insert(w, t), Armed(l, w.ticks, t);
    InsertOrder(w, l, t);
    hide FindTvec, Due, Insert;
    assert ts[..k + 1] == ts[..k] + [t];
    forall i, j | 0 <= i < j < k + 1 && ts[i].expires == ts[j].expires
      ensures Ordered(w', l', ts[i], ts[j])
    {
      if j < k {
        assert Ordered(w, l, ts[..k][i], ts[..k][j]);
      } else {
        assert ts[i] in ts[..k];
        JoinsBehind(w, l, ts[i], t);
      }
    }
  }

  // The callbacks `fs` have armed timers, each of them one after the other.
  ghost predicate AllLined(w: Wheel, l: Log, fs: seq<Firing>, callback: Callback) {
    forall f :: f in fs ==> Lined(w, l, callback(f.timer, f.tick))
  }

  lemma AllStillLined(w: Wheel, l: Log, w': Wheel, l': Log, fs: seq<Firing>, callback: Callback)
    requires AllLined(w, l, fs, callback) && KeepsOrder(w, l, w', l')
    ensures AllLined(w', l', fs, callback)
  {
    hide KeepsOrder, Lined;
    forall f | f in fs
      ensures Lined(w', l', callback(f.timer, f.tick))
    {
      StillLined(w, l, w', l', callback(f.timer, f.tick));
    }
  }

  lemma OneMoreLined(w: Wheel, l: Log, fs: seq<Firing>, f: Firing, callback: Callback)
    requires AllLined(w, l, fs, callback) && Lined(w, l, callback(f.timer, f.tick))
    ensures AllLined(w, l, fs + [f], callback)
  {
    hide Lined;
  }

  lemma DeletedMeans(l: Log, t: Timer)
    ensures var l' := Deleted(l, t);
            t !in l'.loc && l'.loc == l.loc - {t} && l'.fired == l.fired && l'.due == l.due
  {
  }

  // The firings of the timers of a list, in order.
  function Firings(list: seq<Timer>, tick: nat): seq<Firing> {
    seq(|list|, k requires 0 <= k < |list| => Firing(list[k], tick))
  }

  lemma NoFirings(fs: seq<Firing>, list: seq<Timer>, tick: nat)
    ensures fs + Firings(list[..0], tick) == fs && (list == [] ==> fs + Firings(list, tick) == fs)
  {
  }

  lemma FiringsMore(fs: seq<Firing>, list: seq<Timer>, i: nat, tick: nat)
    requires i < |list|
    ensures fs + Firings(list[..i + 1], tick) == fs + Firings(list[..i], tick) + [Firing(list[i], tick)]
  {
  }

  // What the execution of timers keeps and leaves in order.
  ghost predicate InOrder(w: Wheel, l: Log, w': Wheel, l': Log, callback: Callback) {
    KeepsOrder(w, l, w', l') && l.fired <= l'.fired && AllLined(w', l', l'.fired[|l.fired|..], callback)
  }

  lemma InOrderNothing(w: Wheel, l: Log, callback: Callback)
    ensures InOrder(w, l, w, l, callback)
  {
    KeptAsIs(w, l, w);
  }

  lemma InOrderKept(w: Wheel, l: Log, w1: Wheel, l1: Log, w2: Wheel, l2: Log, callback: Callback)
    requires InOrder(w, l, w1, l1, callback) && KeepsOrder(w1, l1, w2, l2) && l2.fired == l1.fired
    ensures InOrder(w, l, w2, l2, callback)
  {
    hide KeepsOrder, AllLined;
    KeptOn(w, l, w1, l1, w2, l2);
    AllStillLined(w1, l1, w2, l2, l1.fired[|l.fired|..], callback);
  }

  lemma InOrderOn(w: Wheel, l: Log, w1: Wheel, l1: Log, w2: Wheel, l2: Log, callback: Callback)
    requires InOrder(w, l, w1, l1, callback) && InOrder(w1, l1, w2, l2, callback)
    ensures InOrder(w, l, w2, l2, callback)
  {
    hide KeepsOrder, Lined;
    KeptOn(w, l, w1, l1, w2, l2);
    var a, b := l1.fired[|l.fired|..], l2.fired[|l1.fired|..];
    assert l2.fired[|l.fired|..] == a + b;
    AllStillLined(w1, l1, w2, l2, a, callback);
  }

  lemma InOrderRan(w: Wheel, l: Log, w1: Wheel, l1: Log, w2: Wheel, l2: Log, t: Timer, now: word, callback: Callback)
    requires InOrder(w, l, w1, l1, callback) && KeepsOrder(w1, l1, w2, l2)
    requires l2.fired == l1.fired + [Firing(t, now)] && Lined(w2, l2, callback(t, now))
    ensures InOrder(w, l, w2, l2, callback)
  {
    hide KeepsOrder, AllLined, Lined;
    KeptOn(w, l, w1, l1, w2, l2);
    DropSnoc(l1.fired, Firing(t, now), |l.fired|);
    AllStillLined(w1, l1, w2, l2, l1.fired[|l.fired|..], callback);
    OneMoreLined(w2, l2, l1.fired[|l.fired|..], Firing(t, now), callback);
  }

  class TvecBase {
    var timerTicks: word
    const tv1: array<seq<Timer>>
    const tv2: array<seq<Timer>>
    const tv3: array<seq<Timer>>
    const tv4: array<seq<Timer>>
    const tv5: array<seq<Timer>>
    ghost var wheel: Wheel
    ghost var log: Log

    ghost predicate Sound() {
      && tv1.Length == 256 && tv2.Length == tv3.Length == tv4.Length == tv5.Length == 64
      && tv2 != tv3 && tv2 != tv4 && tv2 != tv5 && tv3 != tv4 && tv3 != tv5 && tv4 != tv5
    }

    function Vec(level: int): (vec: array<seq<Timer>>)
      requires 1 <= level <= 5
      ensures vec in {tv1, tv2, tv3, tv4, tv5}
    {
      match level case 1 => tv1 case 2 => tv2 case 3 => tv3 case 4 => tv4 case _ => tv5
    }

    function List(s: Slot): seq<Timer>
      requires Sound() && ValidSlot(s)
      reads tv1, tv2, tv3, tv4, tv5
    {
      Vec(s.level)[s.index]
    }

    // The arrays hold what the ghost value `wheel` says.
    ghost predicate Agrees()
      reads this`wheel, this`timerTicks, tv1, tv2, tv3, tv4, tv5
    {
      && Sound()
      && wheel.ticks == timerTicks
      && Shape(wheel)
      && forall s :: ValidSlot(s) ==> wheel.slots[s] == List(s)
    }

    // The wheel between two calls: everything due before timerTicks has been executed.
    ghost predicate Valid()
      reads this, tv1, tv2, tv3, tv4, tv5
    {
      Agrees() && Rest(wheel, log)
    }

    // dynamic_timers_install
    constructor ()
      ensures Valid() && fresh(tv1) && fresh(tv2) && fresh(tv3) && fresh(tv4) && fresh(tv5)
      ensures timerTicks == 0 && log == Log(map[], map[], {}, [])
    {
      timerTicks := 0;
      tv1 := new seq<Timer>[256](_ => []);
      tv2 := new seq<Timer>[64](_ => []);
      tv3 := new seq<Timer>[64](_ => []);
      tv4 := new seq<Timer>[64](_ => []);
      tv5 := new seq<Timer>[64](_ => []);
      log := Log(map[], map[], {}, []);
      wheel := Wheel(0, map s | s in AllSlots() :: []);
      EmptyAtRest(Wheel(0, map s | s in AllSlots() :: []), Log(map[], map[], {}, []));
      new;
      assert forall s :: ValidSlot(s) ==> List(s) == [];
    }

    // __add_timer_tvec_base
    method AddTimerTvecBase(t: Timer)
      requires Agrees()
      modifies this`wheel, tv1, tv2, tv3, tv4, tv5
      ensures Agrees() && Shape(wheel) && wheel.ticks == timerTicks && wheel == Insert(old(wheel), t)
      ensures var r := FindTvec(timerTicks, t.expires);
              forall s :: ValidSlot(s) ==> List(s) == if s == r then old(List(s)) + [t] else old(List(s))
    {
      var s := FindTvec(timerTicks, t.expires);
      var vec := Vec(s.level);
      vec[s.index] := vec[s.index] + [t];
      wheel := Insert(wheel, t);
    }

    // list_head_remove, of an entry of list `s`
    method RemoveEntry(s: Slot, t: Timer)
      requires Agrees() && ValidSlot(s)
      modifies this`wheel, tv1, tv2, tv3, tv4, tv5
      ensures Agrees() && Shape(wheel) && wheel.ticks == timerTicks && wheel == Unlink(old(wheel), s, t)
    {
      var vec := Vec(s.level);
      vec[s.index] := Without(vec[s.index], t);
      wheel := Unlink(wheel, s, t);
    }

    method AddTimer(t: Timer)
      requires Valid() && t.id.Client? && t !in log.due
      modifies this`log, this`wheel, tv1, tv2, tv3, tv4, tv5
      ensures Valid() && FindTvec(timerTicks, t.expires) in old(wheel).slots && wheel == Insert(old(wheel), t)
      ensures log == Armed(old(log), timerTicks, t)
      ensures KeepsOrder(old(wheel), old(log), wheel, log)
      ensures forall u :: u in old(log).loc && u in old(log).due && old(log).due[u] == Due(timerTicks, t.expires) ==>
                if old(log).loc[u] == FindTvec(timerTicks, t.expires) then Ordered(wheel, log, u, t)
                else Ordered(wheel, log, t, u)
    {
      hide Rest, KeepsOrder, Ordered, Insert, Armed, Due, FindTvec;
      ArmKeepsRest(wheel, log, t);
      ghost var w, l := wheel, log;
      InsertOrder(w, l, t);
      RestIs(w, l);
      forall u | u in l.loc && u in l.due && l.due[u] == Due(timerTicks, t.expires)
        ensures var w', l' := Insert(w, t), Armed(l, timerTicks, t);
                if l.loc[u] == FindTvec(timerTicks, t.expires) then Ordered(w', l', u, t) else Ordered(w', l', t, u)
      {
        ArmedBehind(w, l, t, u);
      }
      AddTimerTvecBase(t);
      log := Armed(log, timerTicks, t);
    }

    // del_timer.  The entry is unlinked from whichever list it is in; a timer that is not
    // pending is left alone.
    method DelTimer(t: Timer)
      requires Valid()
      modifies this`log, this`wheel, tv1, tv2, tv3, tv4, tv5
      ensures Valid()
      ensures log == Deleted(old(log), t)
      ensures t !in log.loc && log.loc == old(log).loc - {t} && log.fired == old(log).fired && log.due == old(log).due
      ensures KeepsOrder(old(wheel), old(log), wheel, log)
    {
      hide Rest, Removed, Deleted, Without, List, ValidSlot, KeepsOrder;
      DeleteOrder(wheel, log, t);
      DeletedMeans(log, t);
      UnlinkEverywhere(wheel, log, t);
      DeleteKeepsRest(wheel, log, t);
      SweepAll(t);
      wheel := Removed(wheel, log, t);
      log := Deleted(log, t);
    }

    method SweepAll(t: Timer)
      requires Sound()
      modifies tv1, tv2, tv3, tv4, tv5
      ensures forall s :: ValidSlot(s) ==> List(s) == Without(old(List(s)), t)
    {
      hide Without;
      Sweep(tv1, t);
      Sweep(tv2, t);
      Sweep(tv3, t);
      Sweep(tv4, t);
      Sweep(tv5, t);
    }

    method Sweep(vec: array<seq<Timer>>, t: Timer)
      modifies vec
      ensures forall i :: 0 <= i < vec.Length ==> vec[i] == Without(old(vec[i]), t)
    {
      forall i | 0 <= i < vec.Length {
        vec[i] := Without(vec[i], t);
      }
    }

    // One round of the cascade loop.
    method Relocate(s: Slot, t: Timer)
      requires Agrees() && Inv(wheel, log)
      requires ValidSlot(s) && wheel.slots[s] != [] && t == wheel.slots[s][0]
      requires 1 < s.level && timerTicks % Grain(s.level) == 0 && s.index == Index(s.level, timerTicks)
      requires forall k :: 1 < k < s.level ==> Drained(wheel, k)
      modifies this`log, this`wheel, tv1, tv2, tv3, tv4, tv5
      ensures Agrees() && Inv(wheel, log)
      ensures wheel.slots[s] == Without(old(wheel).slots[s], t)
      ensures forall k :: 1 < k < s.level && Drained(old(wheel), k) ==> Drained(wheel, k)
      ensures log == old(log).(loc := log.loc) && log.loc.Keys == old(log).loc.Keys
      ensures KeepsOrder(old(wheel), old(log), wheel, log)
    {
      hide Inv, KeepsOrder, FindTvec, Index, Grain, Drained, Without;
      CascadeMove(wheel, log, s, t);
      CascadeOrder(wheel, log, s, t);
      RemoveEntry(s, t);
      AddTimerTvecBase(t);
      log := log.(loc := log.loc[t := FindTvec(timerTicks, t.expires)]);
    }

    // cascate: moves every timer of one list to where it belongs now.
    method Cascate(level: int, index: int) returns (r: int)
      requires Agrees() && Inv(wheel, log)
      requires 1 < level <= 5 && timerTicks % Grain(level) == 0 && index == Index(level, timerTicks)
      requires forall k :: 1 < k < level ==> Drained(wheel, k)
      modifies this`log, this`wheel, tv1, tv2, tv3, tv4, tv5
      ensures Agrees() && Inv(wheel, log)
      ensures forall k :: 1 < k <= level ==> Drained(wheel, k)
      ensures log == old(log).(loc := log.loc) && log.loc.Keys == old(log).loc.Keys
      ensures KeepsOrder(old(wheel), old(log), wheel, log)
      ensures r == index
    {
      hide Inv, KeepsOrder;
      KeptAsIs(wheel, log, wheel);
      var s := Slot(level, index);
      ghost var list := List(s);
      if List(s) != [] {
        var it := First(List(s));
        var tmp := Next(List(s), it.timer);
        ghost var i := 0;
        while it.Entry?
          invariant 0 <= i <= |list| && List(s) == list[i..]
          invariant it == First(list[i..])
          invariant i < |list| ==> tmp == First(list[i + 1..])
          invariant Agrees() && Inv(wheel, log)
          invariant forall k :: 1 < k < level ==> Drained(wheel, k)
          invariant log == old(log).(loc := log.loc) && log.loc.Keys == old(log).loc.Keys
          invariant KeepsOrder(old(wheel), old(log), wheel, log)
          decreases |list| - i
        {
          ghost var w, l := wheel, log;
          Relocate(s, it.timer);
          KeptOn(old(wheel), old(log), w, l, wheel, log);
          i := i + 1;
          it := tmp;
          tmp := if it.Entry? then Next(List(s), it.timer) else First(List(s));
        }
      }
      return index;
    }

    // The callback of `t` runs: it arms the timers it allocates.
    method Execute(t: Timer, callback: Callback)
      requires Agrees() && Shape(wheel) && wheel.ticks == timerTicks
      requires Inv(wheel, log) && Quiet(wheel) && Families(log, {}) && t in log.loc
      requires ArmsLater(callback, timerTicks, timerTicks)
      modifies this`log, this`wheel, tv1, tv2, tv3, tv4, tv5
      ensures Agrees() && Shape(wheel) && wheel.ticks == timerTicks
      ensures Inv(wheel, log) && Quiet(wheel) && Families(log, {t})
      ensures DueNowList(wheel) == DueNowList(old(wheel))
      ensures Adopted(old(log), log, callback(t, timerTicks), timerTicks)
      ensures KeepsOrder(old(wheel), old(log), wheel, log) && Lined(wheel, log, callback(t, timerTicks))
    {
      hide Inv, Quiet, Adopted, Families, Agrees, KeepsOrder, Lined, JustArmed;
      KeptAsIs(wheel, log, wheel);
      NoneLined(wheel, log);
      var kids := callback(t, timerTicks);
      NoKidsYet(wheel, log, t, kids);
      for k := 0 to |kids|
        invariant Agrees() && Shape(wheel) && wheel.ticks == timerTicks
        invariant Inv(wheel, log) && Quiet(wheel) && Families(log, {t})
        invariant wheel.slots[Slot(1, timerTicks % 256)] == old(wheel).slots[Slot(1, timerTicks % 256)]
        invariant Adopted(old(log), log, kids[..k], timerTicks)
        invariant KeepsOrder(old(wheel), old(log), wheel, log)
        invariant Lined(wheel, log, kids[..k]) && JustArmed(log, timerTicks, kids[..k])
      {
        AdoptNext(old(log), log, kids, k, timerTicks);
        ArmLaterKeeps(wheel, log, kids[k]);
        InsertOrder(wheel, log, kids[k]);
        KeptOn(old(wheel), old(log), wheel, log, Insert(wheel, kids[k]), Armed(log, timerTicks, kids[k]));
        LineUp(wheel, log, kids, k);
        AddTimerTvecBase(kids[k]);
        log := Armed(log, timerTicks, kids[k]);
      }
      assert kids[..|kids|] == kids;
    }

    // The replenishing of tv1 when the root index comes round to 0.
    method CascateAll()
      requires Agrees() && Inv(wheel, log) && timerTicks % 256 == 0
      modifies this`log, this`wheel, tv1, tv2, tv3, tv4, tv5
      ensures Agrees() && Inv(wheel, log) && Quiet(wheel)
      ensures log == old(log).(loc := log.loc) && log.loc.Keys == old(log).loc.Keys
      ensures KeepsOrder(old(wheel), old(log), wheel, log)
    {
      hide Inv, Drained, KeepsOrder;
      var tv2Index := timerTicks / 0x100 % 64;
      var tv3Index := timerTicks / 0x4000 % 64;
      var tv4Index := timerTicks / 0x10_0000 % 64;
      var tv5Index := timerTicks / 0x400_0000 % 64;
      ghost var last := 2;
      var r := Cascate(2, tv2Index);
      NextLevelTurn(2, timerTicks);
      if r == 0 {
        last := 3;
        ghost var w3, l3 := wheel, log;
        r := Cascate(3, tv3Index);
        KeptOn(old(wheel), old(log), w3, l3, wheel, log);
        NextLevelTurn(3, timerTicks);
        if r == 0 {
          last := 4;
          ghost var w4, l4 := wheel, log;
          r := Cascate(4, tv4Index);
          KeptOn(old(wheel), old(log), w4, l4, wheel, log);
          NextLevelTurn(4, timerTicks);
          if r == 0 {
            last := 5;
            ghost var w5, l5 := wheel, log;
            r := Cascate(5, tv5Index);
            KeptOn(old(wheel), old(log), w5, l5, wheel, log);
          }
        }
      }
      forall k | last < k <= 5
        ensures Drained(wheel, k)
      {
        NotAtHigherTurn(last + 1, k, timerTicks);
        NotAtTurn(wheel, k);
      }
    }

    // Executes one timer and unlinks it.
    method ExecuteEntry(s: Slot, t: Timer, callback: Callback)
      requires Agrees() && Shape(wheel) && wheel.ticks == timerTicks && s == Slot(1, timerTicks % 256)
      requires Inv(wheel, log) && Quiet(wheel) && Families(log, {}) && wheel.slots[s] != [] && t == wheel.slots[s][0]
      requires ArmsLater(callback, timerTicks, timerTicks)
      modifies this`log, this`wheel, tv1, tv2, tv3, tv4, tv5
      ensures Agrees() && Shape(wheel) && wheel.ticks == timerTicks
      ensures Inv(wheel, log) && Quiet(wheel) && Families(log, {})
      ensures wheel.slots[s] == Without(old(wheel).slots[s], t)
      ensures Ran(old(log), log, t, timerTicks, callback(t, timerTicks))
      ensures log.fired == old(log).fired + [Firing(t, timerTicks)]
      ensures KeepsOrder(old(wheel), old(log), wheel, log) && Lined(wheel, log, callback(t, timerTicks))
    {
      hide Inv, Quiet, Families, Adopted, Fired, Agrees, ArmsLater, Without, KeepsOrder, Lined;
      DueNow(wheel, log, t);
      Execute(t, callback);
      FireOrder(wheel, log, t);
      KeptOn(old(wheel), old(log), wheel, log, Unlink(wheel, s, t), Fired(log, t, timerTicks));
      StillLined(wheel, log, Unlink(wheel, s, t), Fired(log, t, timerTicks), callback(t, timerTicks));
      FireAfterCallback(wheel, old(log), log, t, callback(t, timerTicks));
      RemoveEntry(s, t);
      log := Fired(log, t, timerTicks);
    }

    // Executes and unlinks every timer of the current root list.
    method ExecuteList(index: int, ghost start: Log, ghost from: nat, callback: Callback)
      requires Agrees() && Shape(wheel) && wheel.ticks == timerTicks && index == timerTicks % 256
      requires Inv(wheel, log) && Quiet(wheel) && Families(log, {})
      requires from <= timerTicks && ArmsLater(callback, timerTicks, timerTicks) && Grew(start, log, callback, from)
      modifies this`log, this`wheel, tv1, tv2, tv3, tv4, tv5
      ensures Agrees() && Shape(wheel) && wheel.ticks == timerTicks
      ensures Inv(wheel, log) && Quiet(wheel) && Families(log, {})
      ensures wheel.slots[Slot(1, index)] == []
      ensures Grew(start, log, callback, from)
      ensures log.fired == old(log).fired + Firings(old(wheel).slots[Slot(1, index)], timerTicks)
      ensures InOrder(old(wheel), old(log), wheel, log, callback)
    {
      hide Inv, Quiet, Families, Ran, Grew, ArmsLater, InOrder, KeepsOrder, Lined, Firings;
      InOrderNothing(wheel, log, callback);
      NoFirings(log.fired, List(Slot(1, index)), timerTicks);
      var s := Slot(1, index);
      ghost var list := List(s);
      if List(s) != [] {
        var it := First(List(s));
        var tmp := Next(List(s), it.timer);
        ghost var i := 0;
        while it.Entry?
          invariant Agrees() && Shape(wheel) && wheel.ticks == timerTicks
          invariant 0 <= i <= |list| && wheel.slots[s] == list[i..]
          invariant it == First(list[i..])
          invariant i < |list| ==> tmp == First(list[i + 1..])
          invariant Inv(wheel, log) && Quiet(wheel) && Families(log, {})
          invariant Grew(start, log, callback, from)
          invariant log.fired == old(log).fired + Firings(list[..i], timerTicks)
          invariant InOrder(old(wheel), old(log), wheel, log, callback)
          decreases |list| - i
        {
          ghost var w, before := wheel, log;
          ExecuteEntry(s, it.timer, callback);
          GrewOne(start, before, log, it.timer, timerTicks, callback, from);
          InOrderRan(old(wheel), old(log), w, before, wheel, log, it.timer, timerTicks, callback);
          FiringsMore(old(log).fired, list, i, timerTicks);
          i := i + 1;
          it := tmp;
          tmp := if it.Entry? then Next(List(s), it.timer) else First(List(s));
        }
        assert list[..|list|] == list;
      }
    }

    // Brings the wheel up to date with the tick counter.
    method RunTimerSoftirq(now: word, callback: Callback)
      requires Valid() && now + 1 < WORD
      requires ArmsLater(callback, timerTicks, now)
      modifies this, tv1, tv2, tv3, tv4, tv5
      ensures Valid()
      ensures timerTicks == if old(timerTicks) <= now then now + 1 else old(timerTicks)
      ensures now < old(timerTicks) ==> log == old(log)
      ensures Grew(old(log), log, callback, old(timerTicks))
      ensures InOrder(old(wheel), old(log), wheel, log, callback)
    {
      hide Rest, Grew, ArmsLater, InOrder;
      GrewNothing(log, callback, timerTicks);
      InOrderNothing(wheel, log, callback);
      while timerTicks <= now
        invariant Valid()
        invariant old(timerTicks) <= timerTicks
        invariant timerTicks <= now + 1 || timerTicks == old(timerTicks)
        invariant now < old(timerTicks) ==> log == old(log)
        invariant Grew(old(log), log, callback, old(timerTicks))
        invariant InOrder(old(wheel), old(log), wheel, log, callback)
        decreases now + 1 - timerTicks
      {
        ArmsLaterNow(callback, old(timerTicks), now, timerTicks);
        RunTick(old(wheel), old(log), old(timerTicks), callback);
      }
    }

    // One round of the loop of run_timer_softirq.
    method RunTick(ghost first: Wheel, ghost start: Log, ghost from: nat, callback: Callback)
      requires Valid() && timerTicks + 1 < WORD
      requires from <= timerTicks && ArmsLater(callback, timerTicks, timerTicks) && Grew(start, log, callback, from)
      requires InOrder(first, start, wheel, log, callback)
      modifies this, tv1, tv2, tv3, tv4, tv5
      ensures Valid() && timerTicks == old(timerTicks) + 1
      ensures Grew(start, log, callback, from) && InOrder(first, start, wheel, log, callback)
    {
      hide Inv, Quiet, OnTime, Families, Grew, ArmsLater, Rest, InOrder, KeepsOrder;
      RestIs(wheel, log);
      var currentTimeIndex := timerTicks % 256;
      if currentTimeIndex == 0 {
        ghost var w, before := wheel, log;
        CascateAll();
        InOrderKept(first, start, w, before, wheel, log, callback);
        GrewRelocated(start, before, log, callback, from);
        FamiliesReadDue(before, log, {});
      } else {
        QuietOffTurn(wheel);
      }
      ghost var w, before := wheel, log;
      ExecuteList(currentTimeIndex, start, from, callback);
      InOrderOn(first, start, w, before, wheel, log, callback);
      ghost var w1 := wheel;
      Advance();
      KeptAsIs(w1, log, wheel);
      InOrderKept(first, start, w1, log, wheel, log, callback);
    }

    // ++base->timer_ticks, once the slot of the tick is empty.
    method Advance()
      requires Agrees() && Inv(wheel, log) && Families(log, {}) && Quiet(wheel) && timerTicks + 1 < WORD
      requires wheel.slots[Slot(1, timerTicks % 256)] == []
      modifies this`timerTicks, this`wheel
      ensures Valid() && timerTicks == old(timerTicks) + 1 && wheel.slots == old(wheel).slots
    {
      hide Inv, Quiet, Families, Rest;
      AdvanceToRest(wheel, log);
      timerTicks := timerTicks + 1;
      wheel := wheel.(ticks := timerTicks);
    }
  }
}
