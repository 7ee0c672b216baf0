/**
 * The events the tick stages send one another (src/events.rs and the event
 * types declared in src/diplopod.rs, src/food.rs and src/gameover.rs). Each
 * stage returns its events as an ordered list; a reader that takes "the first
 * pending event" takes the first matching element of that list.
 */
module Events {
  import opened Wrappers
  import opened Cells

  datatype Event =
    | GameOver
    | Growth(amount: nat)
    | SpawnFood
    | SpawnConsumables(regular: bool, newSegments: nat)
    | ShowMessage(text: string, position: DiplopodPosition)

  /** `k` copies of `es`, one after the other. */
  function Repeat(es: seq<Event>, k: nat): (r: seq<Event>)
    ensures |r| == k * |es|
  {
    if k == 0 then [] else Repeat(es, k - 1) + es
  }

  /** The amount of the first `Growth` event, as `growth_reader.read().next()` yields it. */
  function FirstGrowth(es: seq<Event>): Option<nat>
    decreases |es|
  {
    if es == [] then None
    else if es[0].Growth? then Some(es[0].amount)
    else FirstGrowth(es[1..])
  }

  /** The first `SpawnConsumables` event. */
  function FirstSpawn(es: seq<Event>): (r: Option<Event>)
    ensures r.Some? ==> r.value.SpawnConsumables?
    decreases |es|
  {
    if es == [] then None
    else if es[0].SpawnConsumables? then Some(es[0])
    else FirstSpawn(es[1..])
  }

  predicate HasGameOver(es: seq<Event>) {
    GameOver in es
  }

  predicate HasSpawnFood(es: seq<Event>) {
    SpawnFood in es
  }

  /** `FirstGrowth` finds the earliest `Growth` event, and finds none only when there is none. */
  lemma {:induction false} FirstGrowthIsEarliest(es: seq<Event>)
    ensures FirstGrowth(es).None? <==> forall i :: 0 <= i < |es| ==> !es[i].Growth?
    ensures FirstGrowth(es).Some? ==> exists i :: 0 <= i < |es| && es[i] == Growth(FirstGrowth(es).value)
                                        && forall j :: 0 <= j < i ==> !es[j].Growth?
    decreases |es|
  {
    if es != [] && !es[0].Growth? {
      var t := es[1..];
      FirstGrowthIsEarliest(t);
      assert forall i :: 1 <= i < |es| ==> es[i] == t[i - 1];
      if FirstGrowth(t).Some? {
        var i :| 0 <= i < |t| && t[i] == Growth(FirstGrowth(t).value) && forall j :: 0 <= j < i ==> !t[j].Growth?;
        assert es[i + 1] == t[i];
        assert forall j :: 1 <= j < i + 1 ==> es[j] == t[j - 1];
      }
    } else if es != [] {
      assert es[0] == Growth(es[0].amount);
    }
  }

  /** `FirstSpawn` finds the earliest `SpawnConsumables` event, and finds none only when there is none. */
  lemma {:induction false} FirstSpawnIsEarliest(es: seq<Event>)
    ensures FirstSpawn(es).None? <==> forall i :: 0 <= i < |es| ==> !es[i].SpawnConsumables?
    ensures FirstSpawn(es).Some? ==> exists i :: 0 <= i < |es| && es[i] == FirstSpawn(es).value
                                       && forall j :: 0 <= j < i ==> !es[j].SpawnConsumables?
    decreases |es|
  {
    if es != [] && !es[0].SpawnConsumables? {
      var t := es[1..];
      FirstSpawnIsEarliest(t);
      assert forall i :: 1 <= i < |es| ==> es[i] == t[i - 1];
      if FirstSpawn(t).Some? {
        var i :| 0 <= i < |t| && t[i] == FirstSpawn(t).value && forall j :: 0 <= j < i ==> !t[j].SpawnConsumables?;
        assert es[i + 1] == t[i];
        assert forall j :: 1 <= j < i + 1 ==> es[j] == t[j - 1];
      }
    }
  }

  lemma {:induction false} FirstGrowthConcat(a: seq<Event>, b: seq<Event>)
    ensures FirstGrowth(a + b) == if FirstGrowth(a).Some? then FirstGrowth(a) else FirstGrowth(b)
    decreases |a|
  {
    if a != [] {
      assert (a + b)[0] == a[0] && (a + b)[1..] == a[1..] + b;
      FirstGrowthConcat(a[1..], b);
    } else {
      assert a + b == b;
    }
  }

  lemma {:induction false} FirstSpawnConcat(a: seq<Event>, b: seq<Event>)
    ensures FirstSpawn(a + b) == if FirstSpawn(a).Some? then FirstSpawn(a) else FirstSpawn(b)
    decreases |a|
  {
    if a != [] {
      assert (a + b)[0] == a[0] && (a + b)[1..] == a[1..] + b;
      FirstSpawnConcat(a[1..], b);
    } else {
      assert a + b == b;
    }
  }

  lemma {:induction false} RepeatMembership(es: seq<Event>, k: nat, e: Event)
    ensures e in Repeat(es, k) <==> k > 0 && e in es
  {
    if k > 0 {
      RepeatMembership(es, k - 1, e);
    }
  }

  // ---------------------------------------------------------------------------
  // `u8::to_string`, the text of a `ShowMessage`
  // ---------------------------------------------------------------------------

  predicate IsDigit(c: char) {
    '0' <= c <= '9'
  }

  function DigitChar(d: nat): (c: char)
    requires d < 10
    ensures IsDigit(c) && c as int - '0' as int == d
  {
    ('0' as int + d) as char
  }

  /** The decimal text of `n` without leading zeros. */
  function DecimalText(n: nat): (s: string)
    ensures |s| >= 1 && forall i :: 0 <= i < |s| ==> IsDigit(s[i])
    ensures s[0] == '0' ==> n == 0
    decreases n
  {
    if n < 10 then [DigitChar(n)] else DecimalText(n / 10) + [DigitChar(n % 10)]
  }

  /** The number a string of decimal digits denotes. */
  function DecimalValue(s: string): nat
    requires forall i :: 0 <= i < |s| ==> IsDigit(s[i])
    decreases |s|
  {
    if s == [] then 0
    else
      var d := s[|s| - 1] as int - '0' as int;
      assert IsDigit(s[|s| - 1]);
      DecimalValue(s[..|s| - 1]) * 10 + d
  }

  /** The text a `ShowMessage` carries reads back as the number it was made from. */
  lemma {:induction false} DecimalRoundTrip(n: nat)
    ensures DecimalValue(DecimalText(n)) == n
    decreases n
  {
    if n >= 10 {
      DecimalRoundTrip(n / 10);
      var s := DecimalText(n);
      assert s[..|s| - 1] == DecimalText(n / 10);
    }
  }
}
