/**
 The rating of two clans after a match.  Numbers are exact reals, and ten to the power of a score difference over
 the maximal range is any function `e` of the difference that is positive, never falls, and turns into its
 reciprocal when the difference changes sign.
 */
module ClanRating {
  import opened Bytes
  import opened Numbers

  const ELO_WEIGHT := 25.0

  type Power = int -> real

  ghost predicate IsPower(e: Power) {
    && (forall d :: e(d) > 0.0)
    && (forall d :: Reciprocal(e, d))
    && (forall c, d :: c <= d ==> e(c) <= e(d))
  }

  predicate Reciprocal(e: Power, d: int) {
    e(d) * e(-d) == 1.0
  }

  /** The victory field of a report; any other number falls through the source's switch. */
  datatype Victory = Lost | Major | Minor | Draw | Other

  // ---------------------------------------------------------------- specification

  function Factor(v: Victory): int {
    match v
    case Minor => 2
    case Major => 4
    case _ => 1
  }

  function Result(v: Victory): int {
    if v == Lost then 0 else 1
  }

  /** How much the match is worth. */
  function Weight(v1: Victory, v2: Victory): int {
    25 * Factor(v1) * Factor(v2)
  }

  /** The expected result of a clan, from the other's score minus its own. */
  function Expected(e: Power, difference: int): real
    requires e(difference) > 0.0
  {
    1.0 / (1.0 + e(difference))
  }

  ghost function Gain(e: Power, own: int, other: int, v: Victory, vOther: Victory): int
    requires IsPower(e)
  {
    Points(Weight(v, vOther) as real, Result(v) as real, Expected(e, other - own))
  }

  /** Whole points for a result against its expectation. */
  function Points(weight: real, result: real, expected: real): int {
    (weight * (result - expected)).Floor
  }

  function Clamped(n: int): nat {
    if n < 0 then 0 else n
  }

  /** The wins, losses and draws of a clan. */
  datatype Record = Record(wins: Count32, losses: Count32, draws: Count32) {
    function After(v: Victory): Record {
      match v
      case Minor => this.(wins := (wins + 1) % UINT32)
      case Major => this.(wins := (wins + 1) % UINT32)
      case Lost => this.(losses := (losses + 1) % UINT32)
      case Draw => this.(draws := (draws + 1) % UINT32)
      case Other => this
    }

    function Total(): nat {
      wins + losses + draws
    }
  }

  // ---------------------------------------------------------------- laws of the rating

  lemma ReciprocalSum(x: real, y: real)
    requires x > 0.0 && y > 0.0 && x * y == 1.0
    ensures 1.0 / (1.0 + x) + 1.0 / (1.0 + y) == 1.0
  {}

  /** Each expectation is strictly between 0 and 1, and the two of a match sum to 1. */
  lemma ExpectationsSumToOne(e: Power, d: int)
    requires IsPower(e)
    ensures 0.0 < Expected(e, d) < 1.0
    ensures Expected(e, d) + Expected(e, -d) == 1.0
  {
    assert Reciprocal(e, d);
    ReciprocalSum(e(d), e(-d));
  }

  /**
   What both clans gain together follows from the two results, up to one point lost to rounding: nothing when one
   wins and one loses, the weight when both win or draw, minus the weight when both lose.
   */
  lemma GainsTogether(e: Power, s1: int, s2: int, v1: Victory, v2: Victory)
    requires IsPower(e)
    ensures var gains := Gain(e, s1, s2, v1, v2) + Gain(e, s2, s1, v2, v1);
            var fair := Weight(v1, v2) * (Result(v1) + Result(v2) - 1);
            gains == fair || gains == fair - 1
  {
    assert Weight(v2, v1) == Weight(v1, v2);
    ExpectationsSumToOne(e, s2 - s1);
    hide Weight, Result, IsPower, Expected, Points;
    assert s1 - s2 == -(s2 - s1);
    PointsTogether(Weight(v1, v2), Result(v1), Result(v2), Expected(e, s2 - s1), Expected(e, s1 - s2));
  }

  /** A win against a loss moves points: the clans' total stays or falls by one, unless the loser is clamped at 0. */
  lemma WinAgainstLoss(e: Power, winner: nat, loser: nat, v: Victory)
    requires IsPower(e) && (v == Minor || v == Major)
    ensures var total :=
              Clamped(winner + Gain(e, winner, loser, v, Lost)) + Clamped(loser + Gain(e, loser, winner, Lost, v));
            if loser + Gain(e, loser, winner, Lost, v) >= 0
            then total == winner + loser || total == winner + loser - 1
            else total >= winner + loser
  {
    hide Gain;
    GainsTogether(e, winner, loser, v, Lost);
    GainBounds(e, winner, loser, v, Lost);
    GainBounds(e, loser, winner, Lost, v);
  }

  /** The odds: the two expectations are in the proportion of the power, and equal scores expect one half. */
  lemma Odds(e: Power, d: int)
    requires IsPower(e)
    ensures Expected(e, d) * e(d) == Expected(e, -d)
    ensures Expected(e, 0) == 0.5
  {
    assert Reciprocal(e, d) && Reciprocal(e, 0);
    ExpectationsSumToOne(e, d);
    ExpectationsSumToOne(e, 0);
    var x := e(d);
    assert Expected(e, d) * (1.0 + x) == 1.0;
  }

  /** A gain in terms of the power alone: the weight times result less expectation, rounded down. */
  lemma GainExactly(e: Power, own: int, other: int, v: Victory, vOther: Victory)
    requires IsPower(e)
    ensures var n, k, r := Gain(e, own, other, v, vOther), Weight(v, vOther) as real, Result(v) as real;
            var w := 1.0 + e(other - own);
            Times(n as real, w) <= k * (r * w - 1.0) < Times((n + 1) as real, w)
  {
    var k, r, p := Weight(v, vOther) as real, Result(v) as real, Expected(e, other - own);
    var w := 1.0 + e(other - own);
    assert p * w == 1.0;
    hide Expected, Weight, Result, IsPower, Times;
    GainScaled(k, r, p, w);
  }

  lemma GainScaled(k: real, r: real, p: real, w: real)
    requires w > 0.0 && p * w == 1.0
    ensures var n := Points(k, r, p);
            Times(n as real, w) <= k * (r * w - 1.0) < Times((n + 1) as real, w)
  {
    hide Times;
    ScaledValue(k, r, p, w);
    FloorTimes(k * (r - p), w);
  }

  lemma ScaledValue(k: real, r: real, p: real, w: real)
    requires p * w == 1.0
    ensures Times(k * (r - p), w) == k * (r * w - 1.0)
  {
    assert (r - p) * w == r * w - p * w;
    assert k * (r - p) * w == k * ((r - p) * w);
  }

  /** The weight of every kind of match that counts. */
  lemma Weights()
    ensures Weight(Minor, Lost) == 50 && Weight(Major, Lost) == 100 && Weight(Draw, Draw) == 25
    ensures Weight(Minor, Minor) == 100 && Weight(Minor, Major) == 200 && Weight(Major, Major) == 400
    ensures Weight(Lost, Lost) == 25 && Weight(Minor, Draw) == 50 && Weight(Major, Draw) == 100
  {}

  /** In points: a minor win gains less than 50, a major one less than 100, and a draw gives 24 or 25 to both. */
  lemma GainNumbers(e: Power, own: int, other: int)
    requires IsPower(e)
    ensures 0 <= Gain(e, own, other, Minor, Lost) < 50 && -50 <= Gain(e, own, other, Lost, Minor) < 0
    ensures 0 <= Gain(e, own, other, Major, Lost) < 100 && -100 <= Gain(e, own, other, Lost, Major) < 0
    ensures 24 <= Gain(e, own, other, Draw, Draw) + Gain(e, other, own, Draw, Draw) <= 25
  {
    hide Gain, IsPower;
    GainBounds(e, own, other, Minor, Lost);
    GainBounds(e, own, other, Lost, Minor);
    GainBounds(e, own, other, Major, Lost);
    GainBounds(e, own, other, Lost, Major);
    GainsTogether(e, own, other, Draw, Draw);
  }

  lemma PointsTogether(k: int, r1: int, r2: int, p1: real, p2: real)
    requires p1 + p2 == 1.0
    ensures var points := Points(k as real, r1 as real, p1) + Points(k as real, r2 as real, p2);
            points == k * (r1 + r2 - 1) || points == k * (r1 + r2 - 1) - 1
  {}

  /** A winner gains at least 0 and less than the weight; a loser loses at least 1 and at most the weight. */
  lemma GainBounds(e: Power, own: int, other: int, v: Victory, vOther: Victory)
    requires IsPower(e)
    ensures v != Lost ==> 0 <= Gain(e, own, other, v, vOther) <= Weight(v, vOther) - 1
    ensures v == Lost ==> -Weight(v, vOther) <= Gain(e, own, other, v, vOther) <= -1
  {
    ExpectationsSumToOne(e, other - own);
    var p, k := Expected(e, other - own), Weight(v, vOther) as real;
    assert 0.0 < k * p < k;
    assert k * (1.0 - p) == k - k * p;
    assert k * (0.0 - p) == -(k * p);
  }

  lemma ReciprocalFalls(x: real, y: real)
    requires 0.0 < x <= y
    ensures 1.0 / (1.0 + x) >= 1.0 / (1.0 + y)
  {}

  /** For the same result, the clan that leads by more, or trails by less, gains no more. */
  lemma LeaderGainsNoMore(e: Power, own: int, other: int, own': int, other': int, v: Victory, vOther: Victory)
    requires IsPower(e) && own - other >= own' - other'
    ensures Gain(e, own, other, v, vOther) <= Gain(e, own', other', v, vOther)
  {
    var d, d' := other - own, other' - own';
    assert e(d) <= e(d');
    ReciprocalFalls(e(d), e(d'));
    var k, r := Weight(v, vOther) as real, Result(v) as real;
    assert k * (r - Expected(e, d)) <= k * (r - Expected(e, d'));
  }

  /** The assumptions on `e` can be met. */
  lemma PowerExists()
    ensures exists e: Power :: IsPower(e)
  {
    forall d ensures Reciprocal(Sample, d) {
    }
    forall c, d | c <= d ensures Sample(c) <= Sample(d) {
      if c < 0 && d < 0 {
        ReciprocalFalls((-d) as real, (-c) as real);
      }
    }
    assert IsPower(Sample);
  }

  function Sample(d: int): (r: real)
    ensures r > 0.0
  {
    if d >= 0 then (d + 1) as real else 1.0 / ((1 - d) as real)
  }

  // ---------------------------------------------------------------- the source's update

  class Clan {
    var score: Count32
    var wins: Count32
    var losses: Count32
    var draws: Count32

    constructor (score: Count32, r: Record)
      ensures this.score == score && Outcomes() == r
    {
      this.score, wins, losses, draws := score, r.wins, r.losses, r.draws;
    }

    function Outcomes(): Record
      reads this
    {
      Record(wins, losses, draws)
    }
  }

  lemma WeightAsReal(v1: Victory, v2: Victory)
    ensures Weight(v1, v2) == Weight(v2, v1)
    ensures Weight(v1, v2) as real == 25.0 * Factor(v1) as real * Factor(v2) as real
  {}

  /** One of the two switches over a victory: counts the outcome and raises the weight. */
  method Credit(clan: Clan, v: Victory, weight: real) returns (K: real, R: real)
    modifies clan
    ensures clan.score == old(clan.score) && clan.Outcomes() == old(clan.Outcomes()).After(v)
    ensures K == weight * Factor(v) as real && R == Result(v) as real
  {
    K, R := weight, 1.0;
    match v {
      case Minor =>
        K := K * 2.0;
        R := 1.0;
        clan.wins := (clan.wins + 1) % UINT32;
      case Major =>
        K := K * 4.0;
        R := 1.0;
        clan.wins := (clan.wins + 1) % UINT32;
      case Lost =>
        R := 0.0;
        clan.losses := (clan.losses + 1) % UINT32;
      case Draw =>
        R := 1.0;
        clan.draws := (clan.draws + 1) % UINT32;
      case Other =>
    }
  }

  method UpdateClanStats(clan1: Clan, clan2: Clan, clan1victory: Victory, clan2victory: Victory, e: Power)
    requires IsPower(e) && clan1 != clan2
    requires clan1.score + Gain(e, clan1.score, clan2.score, clan1victory, clan2victory) < 0x8000_0000
    requires clan2.score + Gain(e, clan2.score, clan1.score, clan2victory, clan1victory) < 0x8000_0000
    modifies clan1, clan2
    ensures clan1.score ==
      Clamped(old(clan1.score) + old(Gain(e, clan1.score, clan2.score, clan1victory, clan2victory)))
    ensures clan2.score ==
      Clamped(old(clan2.score) + old(Gain(e, clan2.score, clan1.score, clan2victory, clan1victory)))
    ensures clan1.Outcomes() == old(clan1.Outcomes()).After(clan1victory)
    ensures clan2.Outcomes() == old(clan2.Outcomes()).After(clan2victory)
  {
    var K := ELO_WEIGHT;
    var R1, R2;
    K, R1 := Credit(clan1, clan1victory, K);
    K, R2 := Credit(clan2, clan2victory, K);
    WeightAsReal(clan1victory, clan2victory);
    WeightAsReal(clan2victory, clan1victory);
    hide Weight, Factor, Result, Points, Expected, Clamped;
    assert K == Weight(clan1victory, clan2victory) as real == Weight(clan2victory, clan1victory) as real;
    var diff1 := clan2.score - clan1.score;
    var diff2 := clan1.score - clan2.score;
    var P1 := Expected(e, diff1);
    var P2 := Expected(e, diff2);
    var score1 := Points(K, R1, P1);
    var score2 := Points(K, R2, P2);
    var new1, new2 := Clamped(score1 + clan1.score), Clamped(score2 + clan2.score);
    ClampedRange(score1 + clan1.score);
    ClampedRange(score2 + clan2.score);
    clan1.score := new1;
    clan2.score := new2;
  }

  lemma ClampedRange(n: int)
    ensures n < UINT32 ==> Clamped(n) < UINT32
  {}

  // ---------------------------------------------------------------- runs of matches

  function RecordAfter(r: Record, victories: seq<Victory>): Record
    decreases victories
  {
    if victories == [] then r else RecordAfter(r.After(victories[0]), victories[1..])
  }

  function NumberOf(v: Victory, victories: seq<Victory>): nat {
    if victories == [] then 0 else One(victories[0] == v) + NumberOf(v, victories[1..])
  }

  /** Over any run of matches every counter counts its own outcomes, modulo 2^32. */
  lemma {:induction false} RecordCounts(r: Record, victories: seq<Victory>)
    ensures var after := RecordAfter(r, victories);
            && after.wins == (r.wins + NumberOf(Minor, victories) + NumberOf(Major, victories)) % UINT32
            && after.losses == (r.losses + NumberOf(Lost, victories)) % UINT32
            && after.draws == (r.draws + NumberOf(Draw, victories)) % UINT32
    decreases victories
  {
    hide Record.After;
    if victories != [] {
      var v, rest := victories[0], victories[1..];
      hide NumberOf;
      AfterOne(r, v);
      RecordCounts(r.After(v), rest);
      CountOne(victories);
      WrapOnce(r.wins + One(v == Minor) + One(v == Major), NumberOf(Minor, rest) + NumberOf(Major, rest));
      WrapOnce(r.losses + One(v == Lost), NumberOf(Lost, rest));
      WrapOnce(r.draws + One(v == Draw), NumberOf(Draw, rest));
    } else {
      NoneCounted();
    }
  }

  lemma NoneCounted()
    ensures forall v :: NumberOf(v, []) == 0
  {}

  lemma {:induction false} EveryMatchCounted(victories: seq<Victory>)
    ensures NumberOf(Minor, victories) + NumberOf(Major, victories) + NumberOf(Lost, victories) +
            NumberOf(Draw, victories) + NumberOf(Other, victories) == |victories|
  {
    if victories != [] {
      EveryMatchCounted(victories[1..]);
      CountOne(victories);
    }
  }

  /** As long as the counters stay below 2^32, together they rise by one for every match with a known outcome. */
  lemma RecordTotal(r: Record, victories: seq<Victory>)
    requires r.Total() + |victories| < UINT32
    ensures RecordAfter(r, victories).Total() == r.Total() + |victories| - NumberOf(Other, victories)
  {
    RecordCounts(r, victories);
    EveryMatchCounted(victories);
    hide NumberOf, RecordAfter;
    NoWrap(r.wins + NumberOf(Minor, victories) + NumberOf(Major, victories));
    NoWrap(r.losses + NumberOf(Lost, victories));
    NoWrap(r.draws + NumberOf(Draw, victories));
  }

  lemma NoWrap(n: nat)
    ensures n < UINT32 ==> n % UINT32 == n
  {}

  lemma AfterOne(r: Record, v: Victory)
    ensures r.After(v).wins == (r.wins + One(v == Minor) + One(v == Major)) % UINT32
    ensures r.After(v).losses == (r.losses + One(v == Lost)) % UINT32
    ensures r.After(v).draws == (r.draws + One(v == Draw)) % UINT32
  {}

  function One(b: bool): nat {
    if b then 1 else 0
  }

  lemma CountOne(victories: seq<Victory>)
    requires victories != []
    ensures forall v :: NumberOf(v, victories) == One(victories[0] == v) + NumberOf(v, victories[1..])
  {}
}
