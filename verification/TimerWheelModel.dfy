/**
 The slot arithmetic of the hierarchical timing wheel and the invariant that every
 step of the wheel keeps.  Ticks and expiries are 32-bit words; the subtraction
 `expires - timer_ticks` wraps and its sign bit is what tells "past" from "future".
*/
module TimerWheelModel {
  import opened Arith

  const HALF: int := 0x8000_0000

  // One arming of a timer object, which `id` names: by a client of the timer system, or the k-th
  // one by the callback of `parent`.  An object that is armed again after it was deleted is a new
  // arming.
  datatype TimerId = Client(n: nat) | Child(parent: Timer, k: nat)
  datatype Timer = Timer(id: TimerId, expires: word)

  // List `index` of timer vector tv<level>.
  datatype Slot = Slot(level: int, index: int)

  function Size(level: int): int {
    if level == 1 then 256 else 64
  }

  predicate ValidSlot(s: Slot) {
    1 <= s.level <= 5 && 0 <= s.index < Size(s.level)
  }

  // The number of ticks that share one slot of a level.
  function Grain(level: int): (g: int)
    requires 1 <= level <= 5
    ensures g > 0
  {
    match level
    case 1 => 1
    case 2 => 0x100
    case 3 => 0x4000
    case 4 => 0x10_0000
    case _ => 0x400_0000
  }

  // The number of ticks that all slots of a level cover together.
  function Span(level: int): (g: int)
    requires 1 <= level <= 5
    ensures g == Grain(level) * Size(level)
  {
    match level
    case 1 => 0x100
    case 2 => 0x4000
    case 3 => 0x10_0000
    case 4 => 0x400_0000
    case _ => 0x1_0000_0000
  }

  // The bits of a tick value that select the slot inside a level.
  function Index(level: int, tick: nat): (i: int)
    requires 1 <= level <= 5
    ensures ValidSlot(Slot(level, i))
  {
    tick / Grain(level) % Size(level)
  }

  // The tick at which the slot holding `tick` is due to be cascaded (levels 2 to 5) or
  // executed (level 1).
  function Turn(level: int, tick: nat): (f: nat)
    requires 1 <= level <= 5
    ensures f <= tick < f + Grain(level)
  {
    tick / Grain(level) * Grain(level)
  }

  // Selects the timer vector and the position inside it (__find_tvec).
  function FindTvec(base: word, expires: word): (s: Slot)
    ensures ValidSlot(s)
  {
    var ticks := (expires - base) % WORD;
    if ticks >= HALF then Slot(1, base % 256)
    else if ticks < 0x100 then Slot(1, expires % 256)
    else if ticks < 0x4000 then Slot(2, expires / 0x100 % 64)
    else if ticks < 0x10_0000 then Slot(3, expires / 0x4000 % 64)
    else if ticks < 0x400_0000 then Slot(4, expires / 0x10_0000 % 64)
    else Slot(5, expires / 0x400_0000 % 64)
  }

  // The tick, counted without wrap-around, at which a timer armed at `base` is to fire.
  function Due(base: word, expires: word): (d: nat)
    ensures base <= d < base + HALF
  {
    var ticks := (expires - base) % WORD;
    if ticks >= HALF then base else base + ticks
  }

  // A timer fires at its expiry (or at once, if that is past) exactly when the expiry is
  // less than 2^31 ticks ahead and at most 2^31 ticks behind.
  lemma DueIsExpiry(base: word, expires: word)
    ensures Due(base, expires) == (if expires < base then base else expires)
            <==> -HALF <= expires - base < HALF
    ensures expires - base >= HALF ==> Due(base, expires) == base
    ensures expires - base < -HALF ==> Due(base, expires) == expires + WORD
  {
    var delta := expires - base;
    if delta >= 0 {
      assert delta % WORD == delta;
    } else {
      assert delta % WORD == delta + WORD;
    }
  }

  // Slot `s` is where a timer due at `due` may wait while the wheel is at `now`: the next
  // turn of the slot is the turn of the timer.
  ghost predicate Placed(now: word, due: nat, s: Slot) {
    && ValidSlot(s)
    && s.index == Index(s.level, due)
    && now <= Turn(s.level, due) && due < now + Span(s.level)
  }

  lemma IndexIgnoresWrap(level: int, tick: nat)
    requires 1 <= level <= 5
    ensures Index(level, tick + WORD) == Index(level, tick)
  {
    var g, n := Grain(level), Size(level);
    var rounds := WORD / g / n;
    assert WORD == rounds * n * g by {
      match level { case 1 => case 2 => case 3 => case 4 => case _ => }
    }
    DivModShift(tick, g, rounds * n);
    DivModShift(tick / g, n, rounds);
  }

  lemma DueModWord(base: word, expires: word)
    ensures Due(base, expires) > base ==> Due(base, expires) == expires || Due(base, expires) == expires + WORD
    ensures Due(base, expires) == base ==> (expires - base) % WORD >= HALF || expires == base
  {
    var delta := expires - base;
    assert delta % WORD == if delta >= 0 then delta else delta + WORD;
  }

  // The slot index is that of the due tick, and the level depends on how far away that is.
  lemma FindTvecIndex(base: word, expires: word)
    ensures var s, d := FindTvec(base, expires), Due(base, expires);
            && s.index == Index(s.level, d)
            && (s.level > 1 ==> Grain(s.level) <= d - base)
            && d - base < Span(s.level)
  {
    var s, d := FindTvec(base, expires), Due(base, expires);
    DueModWord(base, expires);
    if d > base {
      assert s.index == Index(s.level, expires);
      IndexIgnoresWrap(s.level, expires);
    }
  }

  // Where __find_tvec puts a timer, told by its due tick alone.
  lemma FindTvecPlaces(base: word, expires: word)
    ensures var s, d := FindTvec(base, expires), Due(base, expires);
            && Placed(base, d, s)
            && (s.level > 1 ==> base < Turn(s.level, d) && (d - expires) % WORD == 0)
            && (forall k :: 1 <= k <= 5 && d < base + Span(k) ==> s.level <= k)
  {
    var s, d := FindTvec(base, expires), Due(base, expires);
    FindTvecIndex(base, expires);
    DueModWord(base, expires);
    assert s.level == 1 ==> Turn(1, d) == d;
  }

  // A timer that is still due at `due` when it is looked at again keeps its due tick.
  lemma DueStable(now: word, due: nat, expires: word)
    requires now <= due < now + HALF && (due - expires) % WORD == 0
    ensures Due(now, expires) == due
  {
    assert (expires - now) % WORD == due - now by {
      var q := (due - expires) / WORD;
      assert due - expires == q * WORD;
      assert expires - now == (due - now) + (-q) * WORD;
    }
  }

  lemma TurnIsRound(level: int, due: nat)
    requires 1 <= level <= 5
    ensures Turn(level, due) % Grain(level) == 0
    ensures Index(level, Turn(level, due)) == Index(level, due)
  {
    DivModShift(0, Grain(level), due / Grain(level));
  }

  // Two multiples of g less than one round of n apart, at the same place of the round.
  lemma SameTurn(g: int, n: int, now: nat, due: nat)
    requires g > 0 && n > 0 && now % g == 0 && due / g % n == now / g % n && now <= due / g * g < now + g * n
    ensures due / g * g == now
  {
    var q, p := due / g, now / g;
    assert now == p * g;
    assert p <= q by { if q < p { MulMonotone(q + 1, p, g); } }
    assert q < p + n by { if p + n <= q { MulMonotone(p + n, q, g); } }
    if q != p {
      DivModUnique(q, n, p / n + (if p % n + (q - p) >= n then 1 else 0),
                   p % n + (q - p) - (if p % n + (q - p) >= n then n else 0));
    }
  }

  // Two turns of the same slot are a whole round of the level apart.
  lemma TurnsApart(now: word, due: nat, s: Slot)
    requires Placed(now, due, s) && now % Grain(s.level) == 0 && s.index == Index(s.level, now)
    ensures Turn(s.level, due) == now
  {
    hide Grain, Size, Span;
    SameTurn(Grain(s.level), Size(s.level), now, due);
  }

  lemma LaterTurnElsewhere(now: word, due: nat, s: Slot)
    requires Placed(now, due, s) && now < Turn(s.level, due)
    ensures now % Grain(s.level) == 0 ==> s.index != Index(s.level, now)
  {
    if now % Grain(s.level) == 0 && s.index == Index(s.level, now) {
      TurnsApart(now, due, s);
    }
  }

  lemma PlacedNextTick(now: word, due: nat, s: Slot)
    requires Placed(now, due, s) && now + 1 < WORD
    requires now % Grain(s.level) == 0 ==> s.index != Index(s.level, now)
    ensures Placed(now + 1, due, s)
  {
    TurnIsRound(s.level, due);
  }

  // A level is cascaded exactly when all the levels below it have come round to index 0.
  lemma NextLevelTurn(level: int, tick: nat)
    requires 1 <= level <= 4 && tick % Grain(level) == 0
    ensures Index(level, tick) == 0 <==> tick % Grain(level + 1) == 0
  {
    var g, n := Grain(level), Size(level);
    assert Grain(level + 1) == n * g;
    var q := tick / g;
    assert tick == q * g;
    assert tick == (q / n) * (n * g) + (q % n) * g;
    assert 0 <= (q % n) * g < n * g by {
      MulMonotone(0, q % n, g);
      MulMonotone(q % n, n - 1, g);
    }
    DivModUnique(tick, n * g, q / n, (q % n) * g);
  }

  // A tick that is not at the turn of a level is not at the turn of a higher one.
  lemma NotAtHigherTurn(level: int, above: int, tick: nat)
    requires 1 <= level <= above <= 5 && tick % Grain(level) != 0
    ensures tick % Grain(above) != 0
    decreases above - level
  {
    if level < above {
      var g, n := Grain(level), Size(level);
      if tick % Grain(level + 1) == 0 {
        var m := tick / Grain(level + 1);
        assert tick == m * Grain(level + 1) == (m * n) * g;
        DivModShift(0, g, m * n);
      } else {
        NotAtHigherTurn(level + 1, above, tick);
      }
    }
  }
}
