/**
 * The four-consumable stages of src/control.rs: `eat` over food, superfood,
 * antidote, poison and walls; `spawn_consumables` with its special-spawn
 * cadence and the random spawns it calls; `init_poison`; the antidote's
 * random walk; the immunity countdown. `movement` and `growth` there are the
 * code of src/diplopod.rs again (growth only adds a colour choice) and are
 * modelled once, by `Diplopod.Movement` and `Diplopod.Growth`.
 */
module Control {
  import opened Wrappers
  import opened Cells
  import opened Pool
  import opened Events
  import opened State

  // ---------------------------------------------------------------------------
  // The immunity timer (`ImmunityTime`, a u8)
  // ---------------------------------------------------------------------------

  /** `immunity_time.0 += 10` once per antidote hit, wrapping at 256 as a release build does. */
  function Boosted(t: U8, k: nat): (r: U8)
    ensures k == 0 ==> r == t
    ensures t + 10 * k < 256 ==> r == t + 10 * k
  {
    (t + 10 * k) % 256
  }

  /** `limit_immunity` on the timer value. */
  function Decay(t: U8): (r: U8)
    ensures r <= t && t - r <= 1
    ensures r == t <==> t == 0
  {
    if t > 0 then t - 1 else 0
  }

  /** The timer after `n` ticks. */
  function Countdown(t: U8, n: nat): (r: U8)
    ensures r <= t
    ensures n > 0 && t > 0 ==> r < t
    decreases n
  {
    if n == 0 then t else Decay(Countdown(t, n - 1))
  }

  /**
   * Without new antidotes the timer runs down by one per tick and then stays at
   * zero: immunity lasts exactly `t` ticks.
   */
  lemma {:induction false} CountdownLaw(t: U8, n: nat)
    ensures Countdown(t, n) == if n >= t then 0 else t - n
    decreases n
  {
    if n > 0 {
      CountdownLaw(t, n - 1);
    }
  }

  /** One step of the antidote loop is one more hit. */
  lemma BoostedStep(t: U8, k: nat)
    ensures Boosted(t, k + 1) == (Boosted(t, k) + 10) % 256
  {
    var n := t + 10 * k;
    assert n + 10 == (n / 256) * 256 + (n % 256 + 10);
  }

  // ---------------------------------------------------------------------------
  // Eating
  // ---------------------------------------------------------------------------

  /** The value `rng().random_range(2..10)` draws for a superfood. */
  type SuperfoodRoll = n: int | 2 <= n < 10 witness 2

  /** What a superfood hit with roll `n` sends: the growth, the message showing `n`, and an irregular spawn. */
  function SuperfoodHit(n: SuperfoodRoll, head: DiplopodPosition): seq<Event> {
    [Growth(n), ShowMessage(DecimalText(n), head), Event.SpawnConsumables(false, n)]
  }

  /**
   * The events of the superfood loop over the first `n` superfoods of the
   * query: one `SuperfoodHit` per superfood on cell `c`, in query order.
   */
  function SuperfoodEvents(cells: seq<Position>, rolls: seq<SuperfoodRoll>, n: nat, c: Position,
                           head: DiplopodPosition): seq<Event>
    requires |rolls| == |cells| && n <= |cells|
    decreases n
  {
    if n == 0 then []
    else SuperfoodEvents(cells, rolls, n - 1, c, head) + (if cells[n - 1] == c then SuperfoodHit(rolls[n - 1], head) else [])
  }

  /** The loop's step: superfood `i` adds its hit's events when it lies on `c`. */
  lemma SuperfoodEventsStep(cells: seq<Position>, rolls: seq<SuperfoodRoll>, i: nat, c: Position, head: DiplopodPosition)
    requires |rolls| == |cells| && i < |cells|
    ensures SuperfoodEvents(cells, rolls, i + 1, c, head) ==
      SuperfoodEvents(cells, rolls, i, c, head) + (if cells[i] == c then SuperfoodHit(rolls[i], head) else [])
  {
  }

  /**
   * The events a superfood hit may send: a `Growth` or an irregular
   * `SpawnConsumables` of between 2 and 9 segments, or a message at the head
   * whose digits read back as such an amount.
   */
  predicate IsSuperfoodEvent(e: Event, head: DiplopodPosition) {
    match e
    case Growth(n) => 2 <= n < 10
    case SpawnConsumables(regular, n) => !regular && 2 <= n < 10
    case ShowMessage(text, p) =>
      p == head && (forall i :: 0 <= i < |text| ==> IsDigit(text[i])) && 2 <= DecimalValue(text) < 10
    case _ => false
  }

  /**
   * Events `3*j`, `3*j + 1` and `3*j + 2` of `es` are one hit's triple: a
   * `Growth(m)` with `2 <= m < 10`, then the message showing `m` at the head,
   * then an irregular spawn request for `m`.
   */
  predicate HitTripleAt(es: seq<Event>, j: nat, head: DiplopodPosition) {
    && 3 * j + 3 <= |es|
    && es[3 * j].Growth? && 2 <= es[3 * j].amount < 10
    && es[3 * j + 1] == ShowMessage(DecimalText(es[3 * j].amount), head)
    && es[3 * j + 2] == Event.SpawnConsumables(false, es[3 * j].amount)
  }

  /** Appending events keeps the triples already present. */
  lemma HitTriplesExtend(prefix: seq<Event>, tail: seq<Event>, k: nat, head: DiplopodPosition)
    requires forall j :: 0 <= j < k ==> HitTripleAt(prefix, j, head)
    ensures forall j :: 0 <= j < k ==> HitTripleAt(prefix + tail, j, head)
  {
    forall j | 0 <= j < k
      ensures HitTripleAt(prefix + tail, j, head)
    {
      assert HitTripleAt(prefix, j, head);
    }
  }

  /** A hit's events appended after `k` triples form triple `k`. */
  lemma HitTripleOfHit(prefix: seq<Event>, r: SuperfoodRoll, k: nat, head: DiplopodPosition)
    requires |prefix| == 3 * k
    ensures HitTripleAt(prefix + SuperfoodHit(r, head), k, head)
  {
    var es := prefix + SuperfoodHit(r, head);
    assert es[3 * k] == Growth(r);
    assert es[3 * k + 1] == ShowMessage(DecimalText(r), head);
    assert es[3 * k + 2] == Event.SpawnConsumables(false, r);
  }

  /** Three events per superfood on the head cell, each of them a superfood event (so never `GameOver`). */
  lemma {:induction false} SuperfoodEventsShape(cells: seq<Position>, rolls: seq<SuperfoodRoll>, n: nat, c: Position,
                                                head: DiplopodPosition)
    requires |rolls| == |cells| && n <= |cells|
    ensures |SuperfoodEvents(cells, rolls, n, c, head)| == 3 * multiset(cells[..n])[c]
    ensures forall e :: e in SuperfoodEvents(cells, rolls, n, c, head) ==> IsSuperfoodEvent(e, head)
    decreases n
  {
    if n > 0 {
      SuperfoodEventsShape(cells, rolls, n - 1, c, head);
      assert cells[..n] == cells[..n - 1] + [cells[n - 1]];
      CountSnoc(cells[..n - 1], cells[n - 1], c);
      if cells[n - 1] == c {
        DecimalRoundTrip(rolls[n - 1]);
        assert IsSuperfoodEvent(SuperfoodHit(rolls[n - 1], head)[1], head);
      }
    }
  }

  /** The `j`-th three superfood events are the `j`-th hit's triple, all carrying the one roll. */
  lemma {:induction false} SuperfoodEventsTriples(cells: seq<Position>, rolls: seq<SuperfoodRoll>, n: nat, c: Position,
                                                  head: DiplopodPosition)
    requires |rolls| == |cells| && n <= |cells|
    ensures forall j :: 0 <= j < multiset(cells[..n])[c] ==> HitTripleAt(SuperfoodEvents(cells, rolls, n, c, head), j, head)
    decreases n
  {
    if n > 0 {
      var prefix := SuperfoodEvents(cells, rolls, n - 1, c, head);
      var k := multiset(cells[..n - 1])[c];
      SuperfoodEventsTriples(cells, rolls, n - 1, c, head);
      SuperfoodEventsLength(cells, rolls, n - 1, c, head);
      assert cells[..n] == cells[..n - 1] + [cells[n - 1]];
      CountSnoc(cells[..n - 1], cells[n - 1], c);
      var es := SuperfoodEvents(cells, rolls, n, c, head);
      if cells[n - 1] == c {
        assert es == prefix + SuperfoodHit(rolls[n - 1], head);
        HitTriplesExtend(prefix, SuperfoodHit(rolls[n - 1], head), k, head);
        HitTripleOfHit(prefix, rolls[n - 1], k, head);
      } else {
        assert es == prefix;
      }
    }
  }

  /** Three superfood events per hit. */
  lemma SuperfoodEventsLength(cells: seq<Position>, rolls: seq<SuperfoodRoll>, n: nat, c: Position,
                              head: DiplopodPosition)
    requires |rolls| == |cells| && n <= |cells|
    ensures |SuperfoodEvents(cells, rolls, n, c, head)| == 3 * multiset(cells[..n])[c]
  {
    SuperfoodEventsShape(cells, rolls, n, c, head);
  }

  /** The first superfood `Growth` and the first superfood `SpawnConsumables` come from the same hit and agree. */
  lemma {:induction false} SuperfoodEventsFirsts(cells: seq<Position>, rolls: seq<SuperfoodRoll>, n: nat, c: Position,
                                                 head: DiplopodPosition)
    requires |rolls| == |cells| && n <= |cells|
    ensures var es := SuperfoodEvents(cells, rolls, n, c, head);
      && (FirstSpawn(es).Some? <==> FirstGrowth(es).Some?)
      && (FirstSpawn(es).Some? ==> FirstGrowth(es) == Some(FirstSpawn(es).value.newSegments))
    decreases n
  {
    if n > 0 {
      var r := rolls[n - 1];
      var prefix := SuperfoodEvents(cells, rolls, n - 1, c, head);
      var tail := if cells[n - 1] == c then SuperfoodHit(r, head) else [];
      SuperfoodEventsFirsts(cells, rolls, n - 1, c, head);
      FirstGrowthConcat(prefix, tail);
      FirstSpawnConcat(prefix, tail);
      if cells[n - 1] == c {
        assert FirstGrowth(tail) == Some(r as nat);
        assert tail[1..][1..] == [Event.SpawnConsumables(false, r)];
        assert FirstSpawn(tail[1..][1..]) == Some(Event.SpawnConsumables(false, r));
        assert FirstSpawn(tail) == FirstSpawn(tail[1..]) == FirstSpawn(tail[1..][1..]);
      } else {
        assert prefix + tail == prefix;
      }
    }
  }

  /** The events of the poison loop: with immunity every poison hit grows the body, without it every hit ends the round. */
  function PoisonEvents(immune: bool, k: nat): seq<Event> {
    if immune then Repeat([Growth(1)], k) else Repeat([GameOver], k)
  }

  /** The events of the food loop. */
  function FoodEvents(k: nat): seq<Event> {
    Repeat([Growth(1), Event.SpawnConsumables(true, 1)], k)
  }

  /**
   * All events of `eat`, in the loop order food, superfood, (antidote,) poison, wall.
   */
  function EatEvents(foodHits: nat, superEvents: seq<Event>, immune: bool, poisonHits: nat, wallHits: nat)
    : seq<Event>
  {
    FoodEvents(foodHits) + superEvents + PoisonEvents(immune, poisonHits) + Repeat([GameOver], wallHits)
  }

  /** `FirstGrowth` and `FirstSpawn` of `k` repetitions are those of one repetition, or none when `k == 0`. */
  lemma {:induction false} RepeatFirsts(es: seq<Event>, k: nat)
    ensures FirstGrowth(Repeat(es, k)) == if k == 0 then None else FirstGrowth(es)
    ensures FirstSpawn(Repeat(es, k)) == if k == 0 then None else FirstSpawn(es)
    decreases k
  {
    if k > 0 {
      RepeatFirsts(es, k - 1);
      FirstGrowthConcat(Repeat(es, k - 1), es);
      FirstSpawnConcat(Repeat(es, k - 1), es);
    }
  }

  /**
   * The pending `SpawnConsumables` event and the pending `Growth` event that
   * `eat` sends agree: when it sent a spawn request, the first growth is exactly
   * the `new_segments` the first request announces, a regular request announces one segment, and an
   * irregular one between 2 and 9. So `spawn_consumables` sizes the body the
   * way `growth` then grows it.
   */
  lemma EatFirstsAgree(foodHits: nat, cells: seq<Position>, rolls: seq<SuperfoodRoll>,
                       c: Position, head: DiplopodPosition, immune: bool, poisonHits: nat, wallHits: nat)
    requires |rolls| == |cells|
    ensures var es := EatEvents(foodHits, SuperfoodEvents(cells, rolls, |cells|, c, head), immune, poisonHits, wallHits);
      FirstSpawn(es).Some? ==>
        && FirstGrowth(es) == Some(FirstSpawn(es).value.newSegments)
        && (FirstSpawn(es).value.regular <==> foodHits > 0)
        && (FirstSpawn(es).value.regular ==> FirstSpawn(es).value.newSegments == 1)
        && (!FirstSpawn(es).value.regular ==> 2 <= FirstSpawn(es).value.newSegments < 10)
  {
    var food, superEvents := FoodEvents(foodHits), SuperfoodEvents(cells, rolls, |cells|, c, head);
    var poison, walls := PoisonEvents(immune, poisonHits), Repeat([GameOver], wallHits);
    var es := EatEvents(foodHits, superEvents, immune, poisonHits, wallHits);
    assert es == food + (superEvents + (poison + walls));
    FirstGrowthConcat(food, superEvents + (poison + walls));
    FirstSpawnConcat(food, superEvents + (poison + walls));
    RepeatFirsts([Growth(1), Event.SpawnConsumables(true, 1)], foodHits);
    assert FirstSpawn([Growth(1), Event.SpawnConsumables(true, 1)]) == Some(Event.SpawnConsumables(true, 1)) by {
      assert [Growth(1), Event.SpawnConsumables(true, 1)][1..] == [Event.SpawnConsumables(true, 1)];
    }
    FirstGrowthConcat(superEvents, poison + walls);
    FirstSpawnConcat(superEvents, poison + walls);
    SuperfoodEventsFirsts(cells, rolls, |cells|, c, head);
    SuperfoodEventsShape(cells, rolls, |cells|, c, head);
    if FirstSpawn(superEvents).Some? {
      var e := FirstSpawn(superEvents).value;
      FirstSpawnMember(superEvents);
      assert IsSuperfoodEvent(e, head);
    }
    FirstSpawnConcat(poison, walls);
    RepeatFirsts([Growth(1)], poisonHits);
    RepeatFirsts([GameOver], poisonHits);
    RepeatFirsts([GameOver], wallHits);
    assert FirstSpawn([Growth(1)]) == None && FirstSpawn([GameOver]) == None by {
      assert [Growth(1)][1..] == [] && [GameOver][1..] == [];
    }
  }

  /** The first spawn request is one of the events. */
  lemma {:induction false} FirstSpawnMember(es: seq<Event>)
    ensures FirstSpawn(es).Some? ==> FirstSpawn(es).value in es
    decreases |es|
  {
    if es != [] && !es[0].SpawnConsumables? {
      FirstSpawnMember(es[1..]);
    }
  }

  /**
   * The superfood loop: each superfood on cell `c` is despawned, pushes its cell
   * back onto the pool (with a reshuffle) and sends the events of its roll.
   */
  method SuperfoodHits(pool: FreePositions, cells: seq<Position>, rolls: seq<SuperfoodRoll>, c: Position,
                       head: DiplopodPosition) returns (events: seq<Event>)
    requires |rolls| == |cells|
    modifies pool
    ensures events == SuperfoodEvents(cells, rolls, |cells|, c, head)
    ensures multiset(pool.positions) == multiset(old(pool.positions)) + multiset(Copies(c, multiset(cells)[c]))
    ensures multiset(cells)[c] == 0 ==> pool.positions == old(pool.positions)
  {
    ghost var base := multiset(pool.positions);
    events := [];
    for i := 0 to |cells|
      invariant events == SuperfoodEvents(cells, rolls, i, c, head)
      invariant multiset(pool.positions) == base + multiset(Copies(c, multiset(cells[..i])[c]))
      invariant multiset(cells[..i])[c] == 0 ==> pool.positions == old(pool.positions)
    {
      events := SuperfoodStep(pool, cells, rolls, i, c, head, base, events);
    }
    assert cells[..|cells|] == cells;
  }

  /** One pass of the superfood loop, over superfood `i`. */
  method SuperfoodStep(pool: FreePositions, cells: seq<Position>, rolls: seq<SuperfoodRoll>, i: nat, c: Position,
                       head: DiplopodPosition, ghost base: multiset<Position>, events0: seq<Event>)
    returns (events: seq<Event>)
    requires |rolls| == |cells| && i < |cells|
    requires events0 == SuperfoodEvents(cells, rolls, i, c, head)
    requires multiset(pool.positions) == base + multiset(Copies(c, multiset(cells[..i])[c]))
    modifies pool
    ensures events == SuperfoodEvents(cells, rolls, i + 1, c, head)
    ensures multiset(pool.positions) == base + multiset(Copies(c, multiset(cells[..i + 1])[c]))
    ensures cells[i] != c ==> pool.positions == old(pool.positions)
  {
    ghost var k := multiset(cells[..i])[c];
    CountSnoc(cells[..i], cells[i], c);
    assert cells[..i + 1] == cells[..i] + [cells[i]];
    SuperfoodEventsStep(cells, rolls, i, c, head);
    events := events0;
    if cells[i] == c {
      PushCopy(pool, c, base, k);
      events := events + SuperfoodHit(rolls[i], head);
    }
  }

  /**
   * The antidote loop: each antidote on cell `c` pushes its cell back onto the
   * pool (no reshuffle) and adds 10 to the immunity timer.
   */
  method AntidoteHits(w: World, c: Position) returns (k: nat)
    modifies w`immunity, w.pool
    ensures k == multiset(w.antidotes)[c]
    ensures w.pool.positions == old(w.pool.positions) + Copies(c, k)
    ensures w.immunity == Boosted(old(w.immunity), k)
  {
    k := 0;
    for i := 0 to |w.antidotes|
      invariant k == multiset(w.antidotes[..i])[c]
      invariant w.pool.positions == old(w.pool.positions) + Copies(c, k)
      invariant w.immunity == Boosted(old(w.immunity), k)
    {
      CountSnoc(w.antidotes[..i], w.antidotes[i], c);
      assert w.antidotes[..i + 1] == w.antidotes[..i] + [w.antidotes[i]];
      if w.antidotes[i] == c {
        assert Copies(c, k + 1) == Copies(c, k) + [c];
        w.pool.positions := w.pool.positions + [c];
        BoostedStep(old(w.immunity), k);
        w.immunity := (w.immunity + 10) % 256;
        k := k + 1;
      }
    }
    assert w.antidotes[..|w.antidotes|] == w.antidotes;
  }

  /**
   * The poison loop: with immunity, each poison on cell `c` is despawned and
   * pushes its cell back onto the pool (with a reshuffle); without it nothing is
   * despawned. Returns the number of poisons on `c` and whether the timer was
   * running.
   */
  method PoisonHits(w: World, c: Position) returns (k: nat, immune: bool)
    modifies w`poisons, w.pool
    ensures k == multiset(old(w.poisons))[c] && immune == (w.immunity > 0)
    ensures w.poisons == if immune then Excluding(old(w.poisons), {c}) else old(w.poisons)
    ensures multiset(w.pool.positions) == multiset(old(w.pool.positions)) + multiset(Copies(c, if immune then k else 0))
    ensures !(immune && k > 0) ==> w.pool.positions == old(w.pool.positions)
  {
    immune := w.immunity > 0;
    if immune {
      k := ReturnHits(w.pool, w.poisons, c);
      w.poisons := Excluding(w.poisons, {c});
    } else {
      k := CountAt(w.poisons, c);
    }
  }

  /** The food and superfood loops of `eat` on cell `c`. */
  method EatFoods(w: World, rolls: seq<SuperfoodRoll>, c: Position, head: DiplopodPosition)
    returns (foodHits: nat, superEvents: seq<Event>)
    requires |rolls| == |w.superfoods|
    modifies w`foods, w`superfoods, w.pool
    ensures foodHits == multiset(old(w.foods))[c]
    ensures superEvents == SuperfoodEvents(old(w.superfoods), rolls, |rolls|, c, head)
    ensures w.foods == Excluding(old(w.foods), {c}) && w.superfoods == Excluding(old(w.superfoods), {c})
    ensures multiset(w.pool.positions) ==
      multiset(old(w.pool.positions)) + multiset(Copies(c, foodHits)) + multiset(Copies(c, multiset(old(w.superfoods))[c]))
    ensures foodHits == 0 && multiset(old(w.superfoods))[c] == 0 ==> w.pool.positions == old(w.pool.positions)
  {
    foodHits := ReturnHits(w.pool, w.foods, c);
    w.foods := Excluding(w.foods, {c});
    superEvents := SuperfoodHits(w.pool, w.superfoods, rolls, c, head);
    w.superfoods := Excluding(w.superfoods, {c});
  }

  /** The antidote and poison loops of `eat` on cell `c`. */
  method EatAntidotesAndPoisons(w: World, c: Position) returns (antidoteHits: nat, poisonHits: nat, immune: bool)
    modifies w`antidotes, w`poisons, w`immunity, w.pool
    ensures antidoteHits == multiset(old(w.antidotes))[c] && poisonHits == multiset(old(w.poisons))[c]
    ensures w.immunity == Boosted(old(w.immunity), antidoteHits) && immune == (w.immunity > 0)
    ensures w.antidotes == Excluding(old(w.antidotes), {c})
    ensures w.poisons == if immune then Excluding(old(w.poisons), {c}) else old(w.poisons)
    ensures multiset(w.pool.positions) == multiset(old(w.pool.positions)) + multiset(Copies(c, antidoteHits))
                                       + multiset(Copies(c, if immune then poisonHits else 0))
    ensures !(immune && poisonHits > 0) ==> w.pool.positions == old(w.pool.positions) + Copies(c, antidoteHits)
  {
    antidoteHits := AntidoteHits(w, c);
    w.antidotes := Excluding(w.antidotes, {c});
    poisonHits, immune := PoisonHits(w, c);
  }

  /** The five loops of `eat` for a head on coarse cell `c` at fine cell `head`. */
  method EatAt(w: World, rolls: seq<SuperfoodRoll>, c: Position, head: DiplopodPosition) returns (events: seq<Event>)
    requires |rolls| == |w.superfoods|
    modifies w`foods, w`superfoods, w`antidotes, w`poisons, w`immunity, w.pool
    ensures w.foods == Excluding(old(w.foods), {c})
    ensures w.superfoods == Excluding(old(w.superfoods), {c})
    ensures w.antidotes == Excluding(old(w.antidotes), {c})
    ensures w.immunity == Boosted(old(w.immunity), multiset(old(w.antidotes))[c])
    ensures w.poisons == if w.immunity > 0 then Excluding(old(w.poisons), {c}) else old(w.poisons)
    ensures multiset(w.pool.positions) == multiset(old(w.pool.positions)) + multiset(Copies(c, multiset(old(w.foods))[c]))
        + multiset(Copies(c, multiset(old(w.superfoods))[c])) + multiset(Copies(c, multiset(old(w.antidotes))[c]))
        + multiset(Copies(c, if w.immunity > 0 then multiset(old(w.poisons))[c] else 0))
    ensures multiset(old(w.foods))[c] == 0 && multiset(old(w.superfoods))[c] == 0
            && !(w.immunity > 0 && multiset(old(w.poisons))[c] > 0) ==>
      w.pool.positions == old(w.pool.positions) + Copies(c, multiset(old(w.antidotes))[c])
    ensures events == EatEvents(multiset(old(w.foods))[c], SuperfoodEvents(old(w.superfoods), rolls, |rolls|, c, head),
                          w.immunity > 0, multiset(old(w.poisons))[c], multiset(w.walls)[c])
  {
    var foodHits, superEvents := EatFoods(w, rolls, c, head);
    var antidoteHits, poisonHits, immune := EatAntidotesAndPoisons(w, c);
    var wallHits := CountAt(w.walls, c);
    events := EatEvents(foodHits, superEvents, immune, poisonHits, wallHits);
  }

  /**
   * `eat` of src/control.rs. With a head entity on coarse cell `c`
   * (`head_pos.to_position()`): foods, superfoods and antidotes on `c` are
   * despawned, each pushing `c` back onto the pool; the antidotes add 10 each to
   * the timer; poisons on `c` are despawned and pushed back only when the
   * timer, as the antidotes left it, is running; the events are those of
   * `EatEvents`, and every pushed-back cell is `c`. `rolls` holds the draw of `random_range(2..10)` for each
   * superfood, in query order (only the draws of superfoods on `c` are used). `c` is the head cell.
   */
  method Eat(w: World, rolls: seq<SuperfoodRoll>) returns (events: seq<Event>, ghost c: Position)
    requires w.head.Some? ==> |w.segments| >= 1
    requires |rolls| == |w.superfoods|
    modifies w`foods, w`superfoods, w`antidotes, w`poisons, w`immunity, w.pool
    ensures w.head.None? ==> events == [] && w.pool.positions == old(w.pool.positions)
    ensures w.head.None? ==> w.foods == old(w.foods) && w.superfoods == old(w.superfoods)
    ensures w.head.None? ==> w.antidotes == old(w.antidotes) && w.poisons == old(w.poisons)
    ensures w.head.None? ==> w.immunity == old(w.immunity)
    ensures w.head.Some? ==> c == w.HeadCell()
    ensures w.head.Some? ==> w.foods == Excluding(old(w.foods), {c})
    ensures w.head.Some? ==> w.superfoods == Excluding(old(w.superfoods), {c})
    ensures w.head.Some? ==> w.antidotes == Excluding(old(w.antidotes), {c})
    ensures w.head.Some? ==> w.immunity == Boosted(old(w.immunity), multiset(old(w.antidotes))[c])
    ensures w.head.Some? ==>
      w.poisons == if w.immunity > 0 then Excluding(old(w.poisons), {c}) else old(w.poisons)
    ensures w.head.Some? ==>
      multiset(w.pool.positions) == multiset(old(w.pool.positions)) + multiset(Copies(c, multiset(old(w.foods))[c]))
        + multiset(Copies(c, multiset(old(w.superfoods))[c])) + multiset(Copies(c, multiset(old(w.antidotes))[c]))
        + multiset(Copies(c, if w.immunity > 0 then multiset(old(w.poisons))[c] else 0))
    ensures w.head.Some? && multiset(old(w.foods))[c] == 0 && multiset(old(w.superfoods))[c] == 0
            && !(w.immunity > 0 && multiset(old(w.poisons))[c] > 0) ==>
      w.pool.positions == old(w.pool.positions) + Copies(c, multiset(old(w.antidotes))[c])
    ensures w.head.Some? ==>
      events == EatEvents(multiset(old(w.foods))[c], SuperfoodEvents(old(w.superfoods), rolls, |rolls|, c, w.segments[0]),
                          w.immunity > 0, multiset(old(w.poisons))[c], multiset(w.walls)[c])
  {
    events := [];
    c := Position(0, 0);
    if w.head.Some? {
      var cell := w.HeadCell();
      c := cell;
      events := EatAt(w, rolls, cell, w.segments[0]);
    }
  }

  // ---------------------------------------------------------------------------
  // Spawning
  // ---------------------------------------------------------------------------

  /** `positions.pop()` on a value: the last cell, if any, and what is left. */
  function PopOne(s: seq<Position>): (r: (Option<Position>, seq<Position>))
    ensures s == [] ==> r == (None, [])
    ensures s != [] ==> r.0 == Some(s[|s| - 1]) && r.1 + [s[|s| - 1]] == s
  {
    if s == [] then (None, []) else (Some(s[|s| - 1]), s[..|s| - 1])
  }

  /** The entity an optional cell spawns: none or one. */
  function OptSeq(o: Option<Position>): seq<Position> {
    if o.Some? then [o.value] else []
  }

  /** Removing an optional cell from a multiset of free cells. */
  function DropOpt(m: multiset<Position>, o: Option<Position>): multiset<Position> {
    if o.Some? then m[o.value := 0] else m
  }

  /**
   * `spawn_random_poison`: up to `amount` cells are popped from the end of the
   * candidates; each becomes a poison and is at once removed from the pool.
   */
  method SpawnRandomPoison(amount: nat, candidates: FreePositions, w: World)
    requires candidates != w.pool
    modifies candidates, w`poisons, w.pool
    ensures var taken := PopOrder(old(candidates.positions), amount);
      && w.poisons == old(w.poisons) + taken
      && w.pool.positions == Excluding(old(w.pool.positions), SetOf(taken))
      && candidates.positions == old(candidates.positions)[..|old(candidates.positions)| - |taken|]
  {
    ghost var c0 := candidates.positions;
    ghost var p0 := w.pool.positions;
    ExcludingUntouched(p0, {});
    assert SetOf(PopOrder(c0, 0)) == {};
    var i := 0;
    while i < amount
      invariant 0 <= i <= amount && i <= |c0|
      invariant candidates.positions == c0[..|c0| - i]
      invariant w.poisons == old(w.poisons) + PopOrder(c0, i)
      invariant w.pool.positions == Excluding(p0, SetOf(PopOrder(c0, i)))
    {
      var r := candidates.Pop();
      match r {
        case None =>
          PopOrderSaturates(c0, amount);
          return;
        case Some(pos) =>
          PopOrderStep(c0, i);
          w.poisons := w.poisons + [pos];
          w.pool.Remove(pos);
          ExcludingUnion(p0, SetOf(PopOrder(c0, i)), {pos});
          assert SetOf(PopOrder(c0, i + 1)) == SetOf(PopOrder(c0, i)) + {pos};
      }
      i := i + 1;
    }
  }

  /**
   * `spawn_random_superfood` and `spawn_random_antidote` share this shape: the
   * last candidate, if any, becomes the new entity and is removed from the pool.
   */
  method SpawnRandomOne(candidates: FreePositions, pool: FreePositions) returns (spawned: Option<Position>)
    requires candidates != pool
    modifies candidates, pool
    ensures (spawned, candidates.positions) == PopOne(old(candidates.positions))
    ensures spawned.None? ==> pool.positions == old(pool.positions)
    ensures spawned.Some? ==> pool.positions == Excluding(old(pool.positions), {spawned.value})
  {
    spawned := candidates.Pop();
    if spawned.Some? {
      pool.Remove(spawned.value);
    }
  }

  /** `spawn_random_superfood`. */
  method SpawnRandomSuperfood(candidates: FreePositions, w: World)
    requires candidates != w.pool
    modifies candidates, w`superfoods, w.pool
    ensures var (spawned, rest) := PopOne(old(candidates.positions));
      && candidates.positions == rest
      && w.superfoods == old(w.superfoods) + OptSeq(spawned)
      && multiset(w.pool.positions) == DropOpt(multiset(old(w.pool.positions)), spawned)
  {
    var spawned := SpawnRandomOne(candidates, w.pool);
    if spawned.Some? {
      ExcludingOneMultiset(old(w.pool.positions), spawned.value);
      w.superfoods := w.superfoods + [spawned.value];
    }
  }

  /** `spawn_random_antidote`. */
  method SpawnRandomAntidote(candidates: FreePositions, w: World)
    requires candidates != w.pool
    modifies candidates, w`antidotes, w.pool
    ensures var (spawned, rest) := PopOne(old(candidates.positions));
      && candidates.positions == rest
      && w.antidotes == old(w.antidotes) + OptSeq(spawned)
      && multiset(w.pool.positions) == DropOpt(multiset(old(w.pool.positions)), spawned)
  {
    var spawned := SpawnRandomOne(candidates, w.pool);
    if spawned.Some? {
      ExcludingOneMultiset(old(w.pool.positions), spawned.value);
      w.antidotes := w.antidotes + [spawned.value];
    }
  }

  /**
   * `init_poison` (through `spawn_poison`): the pool without the head's start
   * cell is cloned and up to `AMOUNT_OF_POISON` poisons are spawned from it,
   * exactly as the opening food is placed.
   */
  method InitPoison(w: World)
    modifies w`poisons, w.pool
    ensures var placed := OpeningPicks(old(w.pool.positions), w.scale, w.poisonAmount);
      && w.poisons == old(w.poisons) + placed
      && w.pool.positions == Excluding(old(w.pool.positions), SetOf(placed))
  {
    var segmentPositions := [ToPosition(StartCell, w.scale)];
    assert SetOf(segmentPositions) == {ToPosition(StartCell, w.scale)};
    var candidates := new FreePositions.Clone(w.pool);
    candidates.RemoveAll(segmentPositions);
    SpawnRandomPoison(w.poisonAmount, candidates, w);
  }

  /**
   * The special-spawn cadence of `spawn_consumables`: `Fire` when the announced
   * size exceeds the size at the last special spawn by more than the interval,
   * with the new mark `(new_size / interval) * interval`, and with the antidote
   * cycled when that mark is a multiple of twice the interval.
   */
  datatype Cadence = Quiet | Fire(mark: nat, cycleAntidote: bool)

  function SpecialCadence(newSize: nat, last: nat, interval: Positive): (r: Cadence)
    requires last <= newSize
    ensures r.Fire? <==> newSize - last > interval
    ensures r.Fire? ==> last < r.mark <= newSize
  {
    if newSize - last > interval then
      var mark := (newSize / interval) * interval;
      Fire(mark, mark % (interval * 2) == 0)
    else Quiet
  }

  /**
   * The mark is the largest multiple of the interval not above the new size; it
   * lies beyond the old mark, so the next round starts from a larger mark; the
   * antidote is cycled at every other multiple of the interval.
   */
  lemma SpecialCadenceLaw(newSize: nat, last: nat, interval: Positive)
    requires last <= newSize
    ensures SpecialCadence(newSize, last, interval).Fire? <==> newSize - last > interval
    ensures var cad := SpecialCadence(newSize, last, interval);
      cad.Fire? ==>
        && cad.mark % interval == 0
        && cad.mark <= newSize < cad.mark + interval
        && last < cad.mark
        && (last % interval == 0 ==> last + interval <= cad.mark)
        && (cad.cycleAntidote <==> (cad.mark / interval) % 2 == 0)
  {
    var q := newSize / interval;
    var mark := q * interval;
    assert newSize == mark + newSize % interval;
    if newSize - last > interval {
      assert mark % interval == 0 && mark / interval == q by {
        DivMultiple(q, interval);
      }
      if last % interval == 0 {
        var p := last / interval;
        assert last == p * interval;
        assert p < q by {
          if p >= q {
            MulMonotone(q, p, interval);
          }
        }
        MulMonotone(p + 1, q, interval);
      }
      MulParity(q, interval);
    }
  }

  /** The cells one `spawn_consumables` run takes from its candidates, in pop order. */
  datatype Picks = Picks(poison: Option<Position>, antidote: Option<Position>, superfood: Option<Position>)

  /**
   * A regular request pops the poison first; a firing cadence then pops the
   * antidote (when cycled) and last the superfood; each pop takes the last
   * remaining candidate, if there is one.
   */
  function SpecialPicks(cand: seq<Position>, regular: bool, cad: Cadence): (r: Picks)
    ensures r.poison.Some? ==> regular
    ensures r.antidote.Some? ==> cad.Fire? && cad.cycleAntidote
    ensures r.superfood.Some? ==> cad.Fire?
    ensures |cand| == 0 ==> r == Picks(None, None, None)
  {
    var (poison, afterPoison) := if regular then PopOne(cand) else (None, cand);
    var (antidote, afterAntidote) := if cad.Fire? && cad.cycleAntidote then PopOne(afterPoison) else (None, afterPoison);
    Picks(poison, antidote, if cad.Fire? then PopOne(afterAntidote).0 else None)
  }

  /**
   * The free cells after a firing cadence, as a multiset (the pool is reshuffled
   * in between): the superfoods' cells come back, then (when cycled) the
   * antidotes' cells come back and the new antidote's cell goes, and last the
   * new superfood's cell goes.
   */
  function SpecialRefill(m: multiset<Position>, superfoods: seq<Position>, antidotes: seq<Position>, cycle: bool,
                         antidote: Option<Position>, superfood: Option<Position>): multiset<Position>
  {
    var returned := m + multiset(superfoods);
    DropOpt(if cycle then DropOpt(returned + multiset(antidotes), antidote) else returned, superfood)
  }

  /** The free cells after `spawn_consumables`, as a multiset. */
  function RefilledPool(m: multiset<Position>, superfoods: seq<Position>, antidotes: seq<Position>, cad: Cadence,
                        picks: Picks): multiset<Position>
  {
    var afterPoison := DropOpt(m, picks.poison);
    if cad.Fire? then SpecialRefill(afterPoison, superfoods, antidotes, cad.cycleAntidote, picks.antidote, picks.superfood)
    else afterPoison
  }

  /**
   * The picks by position: a regular request takes the last candidate, the
   * antidote the last one left after it, the superfood the last one left after
   * both, each only when such a candidate exists.
   */
  lemma SpecialPicksIndices(cand: seq<Position>, regular: bool, cad: Cadence)
    ensures var picks := SpecialPicks(cand, regular, cad);
      var n, before := |cand|, if regular then 1 else 0;
      var cycled := if cad.Fire? && cad.cycleAntidote then 1 else 0;
      && picks.poison == (if regular && n >= 1 then Some(cand[n - 1]) else None)
      && picks.antidote == (if cycled == 1 && n > before then Some(cand[n - 1 - before]) else None)
      && picks.superfood == (if cad.Fire? && n > before + cycled then Some(cand[n - 1 - before - cycled]) else None)
  {
    var n := |cand|;
    var (poison, afterPoison) := if regular then PopOne(cand) else (None, cand);
    assert afterPoison == cand[..n - (if poison.Some? then 1 else 0)];
    var (antidote, afterAntidote) := if cad.Fire? && cad.cycleAntidote then PopOne(afterPoison) else (None, afterPoison);
    assert afterAntidote == cand[..n - (if poison.Some? then 1 else 0) - (if antidote.Some? then 1 else 0)];
  }

  /**
   * A run takes distinct candidates (when the candidates are distinct), the
   * poison exactly when the request is regular and a candidate is left, the
   * antidote exactly when the cadence cycles it and a candidate is left after
   * the poison, the superfood exactly when the cadence fires and a candidate is
   * left after both.
   */
  lemma SpecialPicksLaw(cand: seq<Position>, regular: bool, cad: Cadence)
    ensures var picks := SpecialPicks(cand, regular, cad);
      var before := if regular then 1 else 0;
      var cycled := if cad.Fire? && cad.cycleAntidote then 1 else 0;
      && (picks.poison.Some? <==> regular && |cand| >= 1)
      && (picks.antidote.Some? <==> cycled == 1 && |cand| > before)
      && (picks.superfood.Some? <==> cad.Fire? && |cand| > before + cycled)
      && (picks.poison.Some? ==> picks.poison.value in cand)
      && (picks.antidote.Some? ==> picks.antidote.value in cand)
      && (picks.superfood.Some? ==> picks.superfood.value in cand)
      && (NoDup(cand) ==>
            && (picks.poison.Some? && picks.antidote.Some? ==> picks.poison != picks.antidote)
            && (picks.poison.Some? && picks.superfood.Some? ==> picks.poison != picks.superfood)
            && (picks.antidote.Some? && picks.superfood.Some? ==> picks.antidote != picks.superfood))
  {
    SpecialPicksIndices(cand, regular, cad);
  }

  /** The poison of a regular request: `spawn_random_poison(1, ..)`. */
  method SpawnRequestPoison(candidates: FreePositions, w: World, regular: bool)
    requires candidates != w.pool
    modifies candidates, w`poisons, w.pool
    ensures var (poison, rest) := if regular then PopOne(old(candidates.positions)) else (None, old(candidates.positions));
      && candidates.positions == rest
      && w.poisons == old(w.poisons) + OptSeq(poison)
      && multiset(w.pool.positions) == DropOpt(multiset(old(w.pool.positions)), poison)
      && w.pool.positions == (if poison.Some? then Excluding(old(w.pool.positions), {poison.value}) else old(w.pool.positions))
  {
    if regular {
      ghost var c0 := candidates.positions;
      SpawnRandomPoison(1, candidates, w);
      if c0 == [] {
        assert SetOf(PopOrder(c0, 1)) == {};
        ExcludingUntouched(old(w.pool.positions), {});
      } else {
        assert PopOrder(c0, 1) == [c0[|c0| - 1]];
        assert SetOf(PopOrder(c0, 1)) == {c0[|c0| - 1]};
        ExcludingOneMultiset(old(w.pool.positions), c0[|c0| - 1]);
      }
    }
  }

  /**
   * The firing branch of `spawn_consumables`: the mark moves to the largest
   * multiple of the interval not above `newSize`; every superfood is despawned
   * and its cell returned; at every other mark the antidotes likewise, and a new
   * antidote is spawned; then a new superfood.
   */
  method SpecialSpawn(candidates: FreePositions, w: World, newSize: nat)
    requires candidates != w.pool
    modifies candidates, w`superfoods, w`antidotes, w`lastSpecialSpawn, w.pool
    ensures var mark := (newSize / w.specialInterval) * w.specialInterval;
      var cycle := mark % (w.specialInterval * 2) == 0;
      var (antidote, afterAntidote) := if cycle then PopOne(old(candidates.positions)) else (None, old(candidates.positions));
      var superfood := PopOne(afterAntidote).0;
      && w.lastSpecialSpawn == mark
      && w.superfoods == OptSeq(superfood)
      && w.antidotes == (if cycle then OptSeq(antidote) else old(w.antidotes))
      && multiset(w.pool.positions) ==
           SpecialRefill(multiset(old(w.pool.positions)), old(w.superfoods), old(w.antidotes), cycle, antidote, superfood)
  {
    w.lastSpecialSpawn := (newSize / w.specialInterval) * w.specialInterval;
    ReturnCells(w.pool, w.superfoods);
    w.superfoods := [];
    w.pool.Shuffle();
    if w.lastSpecialSpawn % (w.specialInterval * 2) == 0 {
      ReturnCells(w.pool, w.antidotes);
      w.antidotes := [];
      w.pool.Shuffle();
      SpawnRandomAntidote(candidates, w);
    }
    SpawnRandomSuperfood(candidates, w);
  }

  /**
   * The handling of one request on its candidates: a regular request spawns a
   * poison; when the cadence fires for the announced size `newSize`, the
   * special spawn follows.
   */
  method Respond(candidates: FreePositions, w: World, regular: bool, newSize: nat)
    requires candidates != w.pool
    requires w.lastSpecialSpawn <= newSize
    modifies candidates, w`poisons, w`superfoods, w`antidotes, w`lastSpecialSpawn, w.pool
    ensures var cad := SpecialCadence(newSize, old(w.lastSpecialSpawn), w.specialInterval);
      w.lastSpecialSpawn == (if cad.Fire? then cad.mark else old(w.lastSpecialSpawn))
    ensures var cad := SpecialCadence(newSize, old(w.lastSpecialSpawn), w.specialInterval);
      var picks := SpecialPicks(old(candidates.positions), regular, cad);
      && w.poisons == old(w.poisons) + OptSeq(picks.poison)
      && w.superfoods == (if cad.Fire? then OptSeq(picks.superfood) else old(w.superfoods))
      && w.antidotes == (if cad.Fire? && cad.cycleAntidote then OptSeq(picks.antidote) else old(w.antidotes))
    ensures var cad := SpecialCadence(newSize, old(w.lastSpecialSpawn), w.specialInterval);
      var picks := SpecialPicks(old(candidates.positions), regular, cad);
      multiset(w.pool.positions) ==
        RefilledPool(multiset(old(w.pool.positions)), old(w.superfoods), old(w.antidotes), cad, picks)
    ensures var cad := SpecialCadence(newSize, old(w.lastSpecialSpawn), w.specialInterval);
      var picks := SpecialPicks(old(candidates.positions), regular, cad);
      !cad.Fire? ==>
        w.pool.positions == (if picks.poison.Some? then Excluding(old(w.pool.positions), {picks.poison.value})
                             else old(w.pool.positions))
  {
    SpawnRequestPoison(candidates, w, regular);
    if newSize - w.lastSpecialSpawn > w.specialInterval {
      SpecialSpawn(candidates, w, newSize);
    }
  }

  /**
   * `spawn_consumables`: only the first pending request is handled. The
   * candidates are the pool without the segments' coarse cells, and the
   * request is answered on them. The source subtracts the mark from the
   * announced size as `u32`, so it relies on the mark never exceeding that size.
   */
  method SpawnConsumables(w: World, events: seq<Event>)
    requires FirstSpawn(events).Some? ==> w.lastSpecialSpawn <= |w.segments| + FirstSpawn(events).value.newSegments
    modifies w`poisons, w`superfoods, w`antidotes, w`lastSpecialSpawn, w.pool
    ensures FirstSpawn(events).None? ==>
      && w.poisons == old(w.poisons) && w.superfoods == old(w.superfoods) && w.antidotes == old(w.antidotes)
      && w.lastSpecialSpawn == old(w.lastSpecialSpawn) && w.pool.positions == old(w.pool.positions)
    ensures FirstSpawn(events).Some? ==>
      var cad := SpecialCadence(|w.segments| + FirstSpawn(events).value.newSegments, old(w.lastSpecialSpawn),
                                w.specialInterval);
      w.lastSpecialSpawn == (if cad.Fire? then cad.mark else old(w.lastSpecialSpawn))
    ensures FirstSpawn(events).Some? ==>
      var ev := FirstSpawn(events).value;
      var cad := SpecialCadence(|w.segments| + ev.newSegments, old(w.lastSpecialSpawn), w.specialInterval);
      var picks := SpecialPicks(Candidates(old(w.pool.positions), w.segments, w.scale), ev.regular, cad);
      && w.poisons == old(w.poisons) + OptSeq(picks.poison)
      && w.superfoods == (if cad.Fire? then OptSeq(picks.superfood) else old(w.superfoods))
      && w.antidotes == (if cad.Fire? && cad.cycleAntidote then OptSeq(picks.antidote) else old(w.antidotes))
    ensures FirstSpawn(events).Some? ==>
      var ev := FirstSpawn(events).value;
      var cad := SpecialCadence(|w.segments| + ev.newSegments, old(w.lastSpecialSpawn), w.specialInterval);
      var picks := SpecialPicks(Candidates(old(w.pool.positions), w.segments, w.scale), ev.regular, cad);
      multiset(w.pool.positions) ==
        RefilledPool(multiset(old(w.pool.positions)), old(w.superfoods), old(w.antidotes), cad, picks)
    ensures FirstSpawn(events).Some? ==>
      var ev := FirstSpawn(events).value;
      var cad := SpecialCadence(|w.segments| + ev.newSegments, old(w.lastSpecialSpawn), w.specialInterval);
      var picks := SpecialPicks(Candidates(old(w.pool.positions), w.segments, w.scale), ev.regular, cad);
      !cad.Fire? ==>
        w.pool.positions == (if picks.poison.Some? then Excluding(old(w.pool.positions), {picks.poison.value})
                             else old(w.pool.positions))
  {
    var first := FirstSpawn(events);
    if first.None? {
      return;
    }
    var spawnEvent := first.value;
    var segmentPositions := Project(w.segments, w.scale);
    var candidates := new FreePositions.Clone(w.pool);
    candidates.RemoveAll(segmentPositions);
    Respond(candidates, w, spawnEvent.regular, |w.segments| + spawnEvent.newSegments);
  }

  // ---------------------------------------------------------------------------
  // The timer countdown and the antidote's walk
  // ---------------------------------------------------------------------------

  /** `limit_immunity`: one tick of the countdown. */
  method LimitImmunity(w: World)
    modifies w`immunity
    ensures w.immunity == Decay(old(w.immunity))
  {
    if w.immunity > 0 {
      w.immunity := w.immunity - 1;
    }
  }

  /** The draw of `rng().random_range(0..4)` for one antidote. */
  type Heading = n: int | 0 <= n < 4

  /** The neighbouring cell a heading points to: left, right, down, up. */
  function Nudge(p: Position, heading: Heading): (q: Position)
    ensures (q.x - p.x) * (q.x - p.x) + (q.y - p.y) * (q.y - p.y) == 1
  {
    match heading
    case 0 => p.(x := p.x - 1)
    case 1 => p.(x := p.x + 1)
    case 2 => p.(y := p.y - 1)
    case 3 => p.(y := p.y + 1)
  }

  /**
   * One antidote's step in `move_antidote`: it moves to the neighbouring cell
   * of its heading unless that cell leaves the inner area `1..22` on either
   * axis or is the coarse cell of a segment, in which case it stays.
   */
  function Wander(p: Position, heading: Heading, segmentCells: seq<Position>): (r: Position)
    ensures r == p || r == Nudge(p, heading)
    ensures var q := Nudge(p, heading);
      r == q <==> 1 <= q.x < CONSUMABLE_WIDTH && 1 <= q.y < CONSUMABLE_HEIGHT && q !in segmentCells
    ensures 1 <= p.x < CONSUMABLE_WIDTH && 1 <= p.y < CONSUMABLE_HEIGHT ==>
      1 <= r.x < CONSUMABLE_WIDTH && 1 <= r.y < CONSUMABLE_HEIGHT
  {
    var q := Nudge(p, heading);
    if q.x < 1 || q.x >= CONSUMABLE_WIDTH || q.y < 1 || q.y >= CONSUMABLE_HEIGHT || q in segmentCells then p else q
  }

  /**
   * `move_antidote`: every antidote takes one `Wander` step, with its own
   * heading and the segments' coarse cells. The pool is not updated.
   */
  method MoveAntidote(w: World, headings: seq<Heading>)
    requires |headings| == |w.antidotes|
    modifies w`antidotes
    ensures |w.antidotes| == |old(w.antidotes)|
    ensures forall i :: 0 <= i < |w.antidotes| ==>
      w.antidotes[i] == Wander(old(w.antidotes)[i], headings[i], Project(w.segments, w.scale))
  {
    var segmentCells := Project(w.segments, w.scale);
    for i := 0 to |w.antidotes|
      invariant |w.antidotes| == |old(w.antidotes)|
      invariant forall k :: 0 <= k < i ==> w.antidotes[k] == Wander(old(w.antidotes)[k], headings[k], segmentCells)
      invariant forall k :: i <= k < |w.antidotes| ==> w.antidotes[k] == old(w.antidotes)[k]
    {
      var pos := w.antidotes[i];
      var newPos := Nudge(pos, headings[i]);
      if newPos.x < 1 || newPos.x >= CONSUMABLE_WIDTH || newPos.y < 1 || newPos.y >= CONSUMABLE_HEIGHT
         || newPos in segmentCells {
        continue;
      }
      w.antidotes := w.antidotes[i := newPos];
    }
  }

  /** Euclidean division is determined by quotient and remainder. */
  lemma DivModUnique(n: int, d: Positive, a: int, b: int)
    requires n == a * d + b && 0 <= b < d
    ensures n / d == a && n % d == b
  {
    var k := n / d - a;
    assert d * k == b - n % d by {
      assert n == d * (n / d) + n % d;
      assert d * (n / d) == d * k + d * a;
    }
    if k > 0 {
      MulMonotone(1, k, d);
    }
  }

  lemma DivMultiple(q: nat, d: Positive)
    ensures (q * d) % d == 0 && (q * d) / d == q
  {
    DivModUnique(q * d, d, q, 0);
  }

  lemma MulMonotone(a: nat, b: nat, d: Positive)
    requires a <= b
    ensures a * d <= b * d
  {
  }

  lemma MulParity(q: nat, d: Positive)
    ensures (q * d) % (d * 2) == 0 <==> q % 2 == 0
  {
    var h := q / 2;
    if q % 2 == 0 {
      assert q * d == h * (d * 2) by {
        assert q == 2 * h;
      }
      DivModUnique(q * d, d * 2, h, 0);
    } else {
      assert q * d == h * (d * 2) + d by {
        assert q == 2 * h + 1;
      }
      DivModUnique(q * d, d * 2, h, d);
    }
  }

}
