/**
 A player's statistics: additive counters, medals, a rank that follows from score, points per hour and medals,
 and the points-per-hour formula.  Hours and rates are exact reals here.
 */
module PlayerStats {
  import opened Bytes
  import opened Numbers

  const INT32_MAX := 0x7fff_ffff

  type Int32 = n: int | -0x8000_0000 <= n < 0x8000_0000

  function Add32(a: Count32, b: Count32): Count32 {
    (a + b) % UINT32
  }

  // ---------------------------------------------------------------- counting bits

  /** The number of one bits. */
  function Ones(n: nat): nat {
    if n == 0 then 0 else n % 2 + Ones(n / 2)
  }

  /** `n & (n - 1)` clears exactly one bit. */
  lemma {:induction false} ClearingOneBit(n: nat)
    requires n > 0
    ensures Ones(BitAnd(n, n - 1)) == Ones(n) - 1
  {
    hide BitAnd, Ones;
    var m := n / 2;
    OnesDoubles(m);
    if n % 2 == 1 {
      assert n == 2 * m + 1;
      AndBelowOdd(m);
    } else {
      assert n == 2 * m;
      ClearingOneBit(m);
      AndBelowEven(m);
      OnesDoubles(BitAnd(m, m - 1));
    }
  }

  lemma OnesDoubles(m: nat)
    ensures Ones(2 * m) == Ones(m)
    ensures Ones(2 * m + 1) == Ones(m) + 1
  {}

  lemma {:induction false} OnesOfPower(k: nat)
    ensures Ones(0) == 0 && Ones(Pow2(k)) == 1
  {
    OnesDoubles(0);
    if k > 0 {
      OnesOfPower(k - 1);
      OnesDoubles(Pow2(k - 1));
    }
  }

  method CountSetBits(n: Count32) returns (count: nat)
    ensures count == Ones(n)
  {
    var num: nat := n;
    count := 0;
    while num != 0
      invariant num <= n && count + Ones(num) == Ones(n)
      decreases num
    {
      ClearingOneBit(num);
      num := BitAnd(num, num - 1);
      count := count + 1;
    }
  }

  // ---------------------------------------------------------------- ranks

  const RANKS := 20

  const RANK_SCORES: seq<int> := [0, 25, 50, 100, 150, 225, 360, 550, 750, 1050,
                                  1500, 2000, 2800, 4000, 5800, 8000, 12000, 16000, 22000, 32000]
  const RANK_PPH: seq<int> := [0, 10, 12, 15, 18, 25, 28, 30, 32, 35, 40, 42, 50, 55, 60, 65, 70, 80, 90, 100]
  const RANK_MEDALS: seq<int> := [0, 0, 1, 1, 2, 2, 3, 3, 4, 4, 5, 5, 6, 6, 7, 8, 9, 10, 11, 12]

  /** All three thresholds of rank r are met. */
  predicate Meets(r: int, score: int, pph: nat, medals: nat)
    requires 1 <= r <= RANKS
  {
    score >= RANK_SCORES[r - 1] && pph / 100 >= RANK_PPH[r - 1] && medals >= RANK_MEDALS[r - 1]
  }

  /** The row of each rank from the second on: points, points per hour, medals. */
  function Row(r: int): (int, int, int)
    requires 2 <= r <= 20
  {
    match r
    case 2 => (25, 10, 0)
    case 3 => (50, 12, 1)
    case 4 => (100, 15, 1)
    case 5 => (150, 18, 2)
    case 6 => (225, 25, 2)
    case 7 => (360, 28, 3)
    case 8 => (550, 30, 3)
    case 9 => (750, 32, 4)
    case 10 => (1050, 35, 4)
    case 11 => (1500, 40, 5)
    case 12 => (2000, 42, 5)
    case 13 => (2800, 50, 6)
    case 14 => (4000, 55, 6)
    case 15 => (5800, 60, 7)
    case 16 => (8000, 65, 8)
    case 17 => (12000, 70, 9)
    case 18 => (16000, 80, 10)
    case 19 => (22000, 90, 11)
    case 20 => (32000, 100, 12)
  }

  /** The three tables, read rank by rank; points per hour are stored a hundredfold. */
  lemma RankRows(r: int, score: int, pph: nat, medals: nat)
    requires 2 <= r <= 20
    ensures Meets(r, score, pph, medals) <==> score >= Row(r).0 && pph >= 100 * Row(r).1 && medals >= Row(r).2
  {
    TableRows(r);
    var threshold := RANK_PPH[r - 1];
    assert pph / 100 >= threshold <==> pph >= 100 * threshold;
  }

  lemma TableRows(r: int)
    requires 2 <= r <= 20
    ensures (RANK_SCORES[r - 1], RANK_PPH[r - 1], RANK_MEDALS[r - 1]) == Row(r)
  {}

  /** The highest rank whose thresholds are met; rank 1 asks for nothing. */
  ghost predicate IsRank(r: int, score: int, pph: nat, medals: nat) {
    && 1 <= r <= RANKS
    && (r == 1 || Meets(r, score, pph, medals))
    && forall q :: r < q <= RANKS ==> !Meets(q, score, pph, medals)
  }

  /** No threshold of a rank is above that of the next. */
  lemma TablesRise(r: int)
    requires 1 <= r < RANKS
    ensures RANK_SCORES[r - 1] <= RANK_SCORES[r]
    ensures RANK_PPH[r - 1] <= RANK_PPH[r]
    ensures RANK_MEDALS[r - 1] <= RANK_MEDALS[r]
  {}

  /** So whoever meets the thresholds of a rank meets those of every lower one. */
  lemma {:induction false} MeetsLower(q: int, r: int, score: int, pph: nat, medals: nat)
    requires 1 <= q <= r <= RANKS && Meets(r, score, pph, medals)
    ensures Meets(q, score, pph, medals)
    decreases r - q
  {
    if q < r {
      TablesRise(r - 1);
      MeetsLower(q, r - 1, score, pph, medals);
    }
  }

  /** More score, more points per hour or more medals never lower the rank; equal ones give equal ranks. */
  lemma RankMonotone(r: int, score: int, pph: nat, medals: nat, r': int, score': int, pph': nat, medals': nat)
    requires IsRank(r, score, pph, medals) && IsRank(r', score', pph', medals')
    requires score <= score' && pph <= pph' && medals <= medals'
    ensures r <= r'
    ensures score == score' && pph == pph' && medals == medals' ==> r == r'
  {
    if r > 1 {
      assert Meets(r, score', pph', medals');
    }
  }

  // ---------------------------------------------------------------- points per hour

  const SECONDS_PER_HOUR := 3600.0
  const NAME_CHANGE := -10000

  function Hours(seconds: Count32): real {
    seconds as real / SECONDS_PER_HOUR
  }

  /** Conversion of a real to an integer, towards zero. */
  function Truncate(x: real): int {
    if x >= 0.0 then x.Floor else -((-x).Floor)
  }

  function TotalScore(score: int, matchScore: int): nat {
    if score + matchScore < 0 then 0 else score + matchScore
  }

  /** The new points per hour, times 100, before it is stored as an unsigned number. */
  function NewPph(pph: Count32, time: Count32, score: int, matchTime: Count32, matchScore: int): int {
    var hours := Hours(Add32(time, matchTime));
    var total := TotalScore(score, matchScore);
    if matchScore == NAME_CHANGE then pph
    else if hours < 1.0 then total * 100
    else if hours < 5.0 then Truncate(total as real / hours * 100.0)
    else Truncate(RecentRate(pph, matchTime, matchScore) * 100.0)
  }

  /** The rate over five hours, of which the match takes its share and the old rate the rest. */
  function RecentRate(pph: Count32, matchTime: Count32, matchScore: int): real {
    ((5.0 - Hours(matchTime)) * (pph as real / 100.0) + matchScore as real) / 5.0
  }

  /** No sum or conversion leaves the range of its C++ type. */
  predicate InRange(pph: Count32, time: Count32, score: Int32, matchTime: Count32, matchScore: Int32) {
    && -0x8000_0000 <= score + matchScore < 0x8000_0000
    && (matchScore != NAME_CHANGE && Hours(Add32(time, matchTime)) < 1.0 ==>
          TotalScore(score, matchScore) * 100 <= INT32_MAX)
    && 0 <= NewPph(pph, time, score, matchTime, matchScore) < UINT32
  }

  /** Whole numbers around a quotient, for any positive divisor. */
  lemma TruncatedQuotient(x: real, n: int, d: nat)
    requires d > 0 && Times(x, d as real) == n as real
    ensures n >= 0 ==> Truncate(x) * d <= n < (Truncate(x) + 1) * d
    ensures n <= 0 ==> (Truncate(x) - 1) * d < n <= Truncate(x) * d
  {
    SignOfQuotient(x, n as real, d as real);
    Negated(x, n, d);
    hide Times;
    FloorQuotient(x, n, d);
    FloorQuotient(-x, -n, d);
    NegatedBounds((-x).Floor, n, d);
  }

  lemma SignOfQuotient(x: real, n: real, d: real)
    requires d > 0.0 && Times(x, d) == n
    ensures (x >= 0.0 <==> n >= 0.0) && (x == 0.0 <==> n == 0.0)
  {
    TimesMonotone(x, 0.0, d);
    TimesMonotone(0.0, x, d);
  }

  lemma Negated(x: real, n: int, d: nat)
    requires Times(x, d as real) == n as real
    ensures Times(-x, d as real) == (-n) as real
  {}

  lemma NegatedBounds(q: int, n: int, d: nat)
    requires q * d <= -n < (q + 1) * d
    ensures (-q - 1) * d < n <= (-q) * d
  {
    assert (-q) * d == -(q * d) && (-q - 1) * d == -((q + 1) * d);
  }

  /** Below one hour in all, a point counts a hundredfold, and a negative total counts nothing. */
  lemma PphOfFirstHour(pph: Count32, time: Count32, score: int, matchTime: Count32, matchScore: int)
    requires matchScore != -10000 && Add32(time, matchTime) < 3600
    ensures NewPph(pph, time, score, matchTime, matchScore) ==
            if score + matchScore < 0 then 0 else 100 * (score + matchScore)
  {}

  /** From one hour to five, the value is 360000 times the total over the seconds played, rounded down. */
  lemma PphToFiveHours(pph: Count32, time: Count32, score: int, matchTime: Count32, matchScore: int)
    requires matchScore != -10000 && 3600 <= Add32(time, matchTime) < 18000
    ensures var seconds := Add32(time, matchTime);
            var total := if score + matchScore < 0 then 0 else score + matchScore;
            var value := NewPph(pph, time, score, matchTime, matchScore);
            value * seconds <= 360000 * total < (value + 1) * seconds
  {
    var seconds: nat, total := Add32(time, matchTime), TotalScore(score, matchScore);
    var x := total as real / Hours(seconds) * 100.0;
    assert NewPph(pph, time, score, matchTime, matchScore) == Truncate(x);
    RateBySeconds(total as real, seconds as real);
    hide Truncate, NewPph, Times;
    TruncatedQuotient(x, 360000 * total, seconds);
  }

  lemma RateBySeconds(total: real, seconds: real)
    requires seconds > 0.0
    ensures Times(total / (seconds / 3600.0) * 100.0, seconds) == 360000.0 * total
  {
    var h := seconds / 3600.0;
    assert total / h * h == total;
  }

  /** From five hours on, the value is taken from the old one and the match score, cut off towards zero. */
  lemma PphFromFiveHours(pph: Count32, time: Count32, score: int, matchTime: Count32, matchScore: int)
    requires matchScore != -10000 && Add32(time, matchTime) >= 18000
    ensures var before: int := pph;
            var n := (18000 - matchTime) * before + 360000 * matchScore;
            var value := NewPph(pph, time, score, matchTime, matchScore);
            && (n >= 0 ==> 18000 * value <= n < 18000 * (value + 1))
            && (n <= 0 ==> 18000 * (value - 1) < n <= 18000 * value)
  {
    var p: int := pph;
    var seconds: int := matchTime;
    var n := (18000 - seconds) * p + 360000 * matchScore;
    var x := RecentRate(pph, matchTime, matchScore) * 100.0;
    assert NewPph(pph, time, score, matchTime, matchScore) == Truncate(x);
    MeanBySeconds(seconds as real, p as real, matchScore as real);
    WholeMean(seconds, p, matchScore);
    assert Times(x, 18000.0) == n as real;
    hide Truncate, NewPph, RecentRate, Times;
    TruncatedQuotient(x, n, 18000);
  }

  lemma WholeMean(seconds: int, p: int, score: int)
    ensures ((18000 - seconds) * p + 360000 * score) as real ==
            (18000.0 - seconds as real) * p as real + 360000.0 * score as real
  {
    ProductAsReal(18000 - seconds, p);
  }

  lemma MeanBySeconds(seconds: real, p: real, score: real)
    ensures ((5.0 - seconds / 3600.0) * (p / 100.0) + score) / 5.0 * 100.0 * 18000.0 ==
            (18000.0 - seconds) * p + 360000.0 * score
  {
    var rest := 5.0 - seconds / 3600.0;
    assert rest * (p / 100.0) == rest * p / 100.0;
    assert rest * p * 3600.0 == (18000.0 - seconds) * p;
  }

  /** A name change, reported as the score -10000, leaves the value as it is. */
  lemma PphOfNameChange(pph: Count32, time: Count32, score: int, matchTime: Count32)
    ensures NewPph(pph, time, score, matchTime, -10000) == pph
  {}

  lemma TruncateMonotone(x: real, y: real)
    requires x <= y
    ensures Truncate(x) <= Truncate(y)
  {}

  lemma QuotientMonotone(a: real, b: real, h: real)
    requires a <= b && h > 0.0
    ensures a / h <= b / h
  {}

  /** In every regime, a higher match score never gives fewer points per hour, name changes apart. */
  lemma PphMonotone(pph: Count32, time: Count32, score: int, matchTime: Count32, a: int, b: int)
    requires a <= b && a != NAME_CHANGE && b != NAME_CHANGE
    ensures NewPph(pph, time, score, matchTime, a) <= NewPph(pph, time, score, matchTime, b)
  {
    var hours := Hours(Add32(time, matchTime));
    var ta, tb := TotalScore(score, a) as real, TotalScore(score, b) as real;
    if 1.0 <= hours < 5.0 {
      QuotientMonotone(ta, tb, hours);
      TruncateMonotone(ta / hours * 100.0, tb / hours * 100.0);
    } else if hours >= 5.0 {
      var kept := (5.0 - Hours(matchTime)) * (pph as real / 100.0);
      TruncateMonotone((kept + a as real) / 5.0 * 100.0, (kept + b as real) / 5.0 * 100.0);
    }
  }

  /** Whatever the player's state, the score `b` never gives fewer points per hour than `a`. */
  ghost predicate NeverFewer(a: int, b: int) {
    forall pph: Count32, time: Count32, score: int, matchTime: Count32 ::
      NewPph(pph, time, score, matchTime, a) <= NewPph(pph, time, score, matchTime, b)
  }

  /** The same for the states and scores that stay in the range of their types. */
  ghost predicate NeverFewerInRange(a: Int32, b: Int32) {
    forall pph: Count32, time: Count32, score: Int32, matchTime: Count32 ::
      InRange(pph, time, score, matchTime, a) && InRange(pph, time, score, matchTime, b) ==>
        NewPph(pph, time, score, matchTime, a) <= NewPph(pph, time, score, matchTime, b)
  }

  /** The highest match score that no player's score can outweigh. */
  const HOPELESS := -0x7fff_ffff

  /** The score that marks a name change breaks the order, and does so in a state that the code can reach. */
  lemma NameChangeIsNotMonotone(a: int, b: int)
    returns (pph: Count32, time: Count32, score: int, matchTime: Count32)
    requires a < b && (a == NAME_CHANGE || b == NAME_CHANGE)
    ensures NewPph(pph, time, score, matchTime, a) > NewPph(pph, time, score, matchTime, b)
    ensures b <= INT32_MAX && (b == NAME_CHANGE ==> a > HOPELESS) ==>
      -0x8000_0000 <= score <= INT32_MAX
      && InRange(pph, time, score, matchTime, a) && InRange(pph, time, score, matchTime, b)
  {
    matchTime := 0;
    if a == NAME_CHANGE {
      // Two hours and no more than 10000 points against the highest stored value.
      pph, time := UINT32 - 1, 7200;
      score := if b < 0 then 0 else if INT32_MAX - 10000 < b <= INT32_MAX then 10000 - INT32_MAX else -b;
      assert Add32(time, matchTime) == 7200;
      assert Hours(7200) == 2.0;
      assert 0 <= TotalScore(score, b) <= 10000;
      HalfTimesHundred(TotalScore(score, b));
    } else {
      // One point in less than an hour against none.
      pph, time, score := 0, 0, 1 - a;
      assert Add32(time, matchTime) == 0;
      assert Hours(0) == 0.0;
    }
  }

  lemma HalfTimesHundred(n: nat)
    ensures Truncate(n as real / 2.0 * 100.0) == 50 * n
  {
    assert n as real / 2.0 * 100.0 == (50 * n) as real;
  }

  /** The order of scores carries over to points per hour exactly when neither score marks a name change. */
  lemma PphOrder(a: int, b: int)
    requires a < b
    ensures NeverFewer(a, b) <==> a != NAME_CHANGE && b != NAME_CHANGE
  {
    if a == NAME_CHANGE || b == NAME_CHANGE {
      var pph, time, score, matchTime := NameChangeIsNotMonotone(a, b);
    } else {
      forall pph: Count32, time: Count32, score: int, matchTime: Count32
        ensures NewPph(pph, time, score, matchTime, a) <= NewPph(pph, time, score, matchTime, b)
      {
        PphMonotone(pph, time, score, matchTime, a, b);
      }
    }
  }

  /** A score that takes everything away leaves no more than there was. */
  lemma HopelessGivesNoMore(pph: Count32, time: Count32, score: Int32, matchTime: Count32, a: Int32)
    requires a <= HOPELESS
    ensures NewPph(pph, time, score, matchTime, a) <= pph
  {
    assert TotalScore(score, a) == 0;
    var hours := Hours(Add32(time, matchTime));
    if 1.0 <= hours < 5.0 {
      assert 0.0 / hours * 100.0 == 0.0;
    } else if hours >= 5.0 {
      KeptIsNoMore(Hours(matchTime), pph as real);
      assert RecentRate(pph, matchTime, a) * 100.0 <= pph as real;
    }
  }

  lemma KeptIsNoMore(g: real, p: real)
    requires g >= 0.0 && p >= 0.0
    ensures (5.0 - g) * (p / 100.0) <= p / 20.0
  {
    assert g * (p / 100.0) >= 0.0;
  }

  /** Within the range of the types, the two lowest scores of all are no worse than a name change either. */
  lemma PphOrderInRange(a: Int32, b: Int32)
    requires a < b
    ensures NeverFewerInRange(a, b) <==> a != NAME_CHANGE && (b != NAME_CHANGE || a <= HOPELESS)
  {
    if a == NAME_CHANGE || (b == NAME_CHANGE && a > HOPELESS) {
      var pph, time, score, matchTime := NameChangeIsNotMonotone(a, b);
    } else {
      forall pph: Count32, time: Count32, score: Int32, matchTime: Count32
        ensures NewPph(pph, time, score, matchTime, a) <= NewPph(pph, time, score, matchTime, b)
      {
        if b == NAME_CHANGE {
          HopelessGivesNoMore(pph, time, score, matchTime, a);
        } else {
          PphMonotone(pph, time, score, matchTime, a, b);
        }
      }
    }
  }

  predicate Between(x: real, a: real, b: real) {
    if a < b then a <= x <= b else b <= x <= a
  }

  /** The mean of old value and match rate overshoots the match rate when the match alone takes more than five hours. */
  lemma MeanBetween(g: real, p: real, score: real, mean: real)
    requires g > 0.0 && mean == ((5.0 - g) * (p / 100.0) + score) / 5.0 * 100.0
    ensures var rate := score / g * 100.0;
            && (g <= 5.0 ==> Between(mean, p, rate))
            && (g > 5.0 && rate < p ==> mean < rate)
            && (g > 5.0 && rate > p ==> mean > rate)
            && (rate == p ==> mean == p)
  {
    var rate := score / g * 100.0;
    MeanOfRates(g, p, score);
    MixAt(g, p, rate, mean);
  }

  lemma MixAt(g: real, p: real, r: real, mean: real)
    requires 5.0 * mean == (5.0 - g) * p + g * r
    ensures 5.0 * (mean - r) == (5.0 - g) * (p - r) && 5.0 * (mean - p) == g * (r - p)
    ensures 0.0 <= g <= 5.0 ==> Between(mean, p, r)
    ensures g > 5.0 && r < p ==> mean < r
    ensures g > 5.0 && r > p ==> mean > r
    ensures r == p ==> mean == p
  {
    var rest, below := 5.0 - g, p - r;
    assert 5.0 * (mean - r) == rest * below;
    assert 5.0 * (mean - p) == g * (-below);
    SignOfProduct(rest, below);
    SignOfProduct(g, -below);
  }

  /**
   From five hours on, the new value before truncation lies between the old value and the rate of the match exactly
   when the match takes at most five hours, or its rate is the old value; otherwise it lies beyond the rate.
   */
  lemma MeanOrder(pph: Count32, matchTime: Count32, matchScore: int)
    requires matchTime > 0
    ensures var rate := matchScore as real / Hours(matchTime) * 100.0;
            var mean := RecentRate(pph, matchTime, matchScore) * 100.0;
            && (Between(mean, pph as real, rate) <==> Hours(matchTime) <= 5.0 || rate == pph as real)
            && (Hours(matchTime) > 5.0 && rate < pph as real ==> mean < rate)
            && (Hours(matchTime) > 5.0 && rate > pph as real ==> mean > rate)
  {
    var mean := RecentRate(pph, matchTime, matchScore) * 100.0;
    MeanBetween(Hours(matchTime), pph as real, matchScore as real, mean);
  }

  lemma TruncateBetween(x: real, p: nat, rate: real)
    ensures Between(x, p as real, rate) ==>
      if rate < p as real then rate.Floor <= Truncate(x) <= p else p <= Truncate(x) <= rate.Floor
    ensures rate < p as real && x < rate ==> Truncate(x) <= Truncate(rate)
    ensures rate > p as real && x > rate ==> Truncate(x) >= rate.Floor
  {}

  /**
   So the stored value lies, up to truncation, between the old value and the rate of a match of at most five hours,
   and on the far side of the rate of a longer one, name changes apart.
   */
  lemma PphBetween(pph: Count32, time: Count32, score: int, matchTime: Count32, matchScore: int)
    requires Hours(Add32(time, matchTime)) >= 5.0 && matchTime > 0
    ensures var rate := matchScore as real / Hours(matchTime) * 100.0;
            var value := NewPph(pph, time, score, matchTime, matchScore);
            if Hours(matchTime) <= 5.0 || rate == pph as real then
              if rate < pph as real then rate.Floor <= value <= pph else pph <= value <= rate.Floor
            else matchScore != NAME_CHANGE ==>
              if rate < pph as real then value <= Truncate(rate) else value >= rate.Floor
  {
    var mean := RecentRate(pph, matchTime, matchScore) * 100.0;
    assert matchScore != NAME_CHANGE ==> NewPph(pph, time, score, matchTime, matchScore) == Truncate(mean);
    assert matchScore == NAME_CHANGE ==> NewPph(pph, time, score, matchTime, matchScore) == pph;
    MeanOrder(pph, matchTime, matchScore);
    hide Hours, Truncate, NewPph, RecentRate;
    var rate := matchScore as real / Hours(matchTime) * 100.0;
    TruncateBetween(mean, pph, rate);
    TruncateBetween(pph as real, pph, rate);
    WholeTruncated(pph);
  }

  lemma WholeTruncated(n: nat)
    ensures Truncate(n as real) == n
  {}

  lemma MeanOfRates(g: real, p: real, score: real)
    requires g > 0.0
    ensures 5.0 * (((5.0 - g) * (p / 100.0) + score) / 5.0 * 100.0) == (5.0 - g) * p + g * (score / g * 100.0)
  {}

  // ---------------------------------------------------------------- the statistics of a player

  /** The counters a match adds to. */
  datatype Counter = Time | Kills | Deaths | Suicides | LAVs | MAVs | HAVs | Helicopters | Boats
    | KillsAssault | KillsSniper | KillsSpecialOp | KillsEngineer | KillsSupport
    | DeathsAssault | DeathsSniper | DeathsSpecialOp | DeathsEngineer | DeathsSupport
    | TopPlayer | Victories | Sessions | CapturedFlags | NeutralizedFlags | SavedFlags

  /** What one match reports for a player. */
  datatype Match = Match(score: Int32, medals: Count32, counts: Counter -> Count32)

  /** All the counters together. */
  datatype Tally = Tally(
    time: Count32, kills: Count32, deaths: Count32, suicides: Count32, lavd: Count32, mavd: Count32, havd: Count32,
    hed: Count32, bod: Count32, k1: Count32, k2: Count32, k3: Count32, k4: Count32, k5: Count32, s1: Count32,
    s2: Count32, s3: Count32, s4: Count32, s5: Count32, ttb: Count32, mv: Count32, ngp: Count32, cflags: Count32,
    nflags: Count32, sflags: Count32) {
    function Count(c: Counter): Count32 {
      match c
      case Time => time
      case Kills => kills
      case Deaths => deaths
      case Suicides => suicides
      case LAVs => lavd
      case MAVs => mavd
      case HAVs => havd
      case Helicopters => hed
      case Boats => bod
      case KillsAssault => k1
      case KillsSniper => k2
      case KillsSpecialOp => k3
      case KillsEngineer => k4
      case KillsSupport => k5
      case DeathsAssault => s1
      case DeathsSniper => s2
      case DeathsSpecialOp => s3
      case DeathsEngineer => s4
      case DeathsSupport => s5
      case TopPlayer => ttb
      case Victories => mv
      case Sessions => ngp
      case CapturedFlags => cflags
      case NeutralizedFlags => nflags
      case SavedFlags => sflags
    }

    function Plus(counts: Counter -> Count32): Tally {
      Tally(
        Add32(time, counts(Time)), Add32(kills, counts(Kills)), Add32(deaths, counts(Deaths)),
        Add32(suicides, counts(Suicides)), Add32(lavd, counts(LAVs)), Add32(mavd, counts(MAVs)),
        Add32(havd, counts(HAVs)), Add32(hed, counts(Helicopters)), Add32(bod, counts(Boats)),
        Add32(k1, counts(KillsAssault)), Add32(k2, counts(KillsSniper)), Add32(k3, counts(KillsSpecialOp)),
        Add32(k4, counts(KillsEngineer)), Add32(k5, counts(KillsSupport)), Add32(s1, counts(DeathsAssault)),
        Add32(s2, counts(DeathsSniper)), Add32(s3, counts(DeathsSpecialOp)), Add32(s4, counts(DeathsEngineer)),
        Add32(s5, counts(DeathsSupport)), Add32(ttb, counts(TopPlayer)), Add32(mv, counts(Victories)),
        Add32(ngp, counts(Sessions)), Add32(cflags, counts(CapturedFlags)),
        Add32(nflags, counts(NeutralizedFlags)), Add32(sflags, counts(SavedFlags)))
    }
  }

  /** Adding a match to a tally adds to each counter what the match counted for it. */
  lemma PlusCounts(t: Tally, counts: Counter -> Count32, c: Counter)
    ensures t.Plus(counts).Count(c) == Add32(t.Count(c), counts(c))
  {}

  const ALL_MEDALS := 32767

  /** New medals are taken over only if they are known ones and more of them than before. */
  function BetterMedals(held: Count32, offered: Count32): Count32 {
    if offered <= ALL_MEDALS && Ones(offered) > Ones(held) then offered else held
  }

  /** Exactly then: as many medals as before, or medals that are not known, change nothing. */
  lemma MedalsChange(held: Count32, offered: Count32)
    ensures BetterMedals(held, offered) != held <==> offered < 32768 && Ones(offered) > Ones(held)
    ensures BetterMedals(held, offered) in {held, offered}
  {}

  lemma VehicleSum(lavd: Count32, mavd: Count32, havd: Count32, hed: Count32, bod: Count32)
    ensures Add32(Add32(Add32(Add32(lavd, mavd), havd), hed), bod) == (lavd + mavd + havd + hed + bod) % UINT32
  {
    WrapOnce(lavd + mavd, havd);
    WrapOnce(lavd + mavd + havd, hed);
    WrapOnce(lavd + mavd + havd + hed, bod);
  }

  class Stats {
    var score: Int32
    var ran: Count32
    var pph: Count32
    var kills: Count32
    var deaths: Count32
    var suicides: Count32
    var time: Count32
    var vehicles: Count32
    var lavd: Count32
    var mavd: Count32
    var havd: Count32
    var hed: Count32
    var bod: Count32
    var k1: Count32
    var s1: Count32
    var k2: Count32
    var s2: Count32
    var k3: Count32
    var s3: Count32
    var k4: Count32
    var s4: Count32
    var k5: Count32
    var s5: Count32
    var medals: Count32
    var ttb: Count32
    var mv: Count32
    var ngp: Count32
    var cflags: Count32
    var nflags: Count32
    var sflags: Count32

    constructor ()
      ensures score == pph == medals == vehicles == 0 && ran == 1
      ensures forall c :: Counts().Count(c) == 0
    {
      score, ran, pph, kills, deaths, suicides, time, vehicles := 0, 1, 0, 0, 0, 0, 0, 0;
      lavd, mavd, havd, hed, bod := 0, 0, 0, 0, 0;
      k1, s1, k2, s2, k3, s3, k4, s4, k5, s5 := 0, 0, 0, 0, 0, 0, 0, 0, 0, 0;
      medals, ttb, mv, ngp, cflags, nflags, sflags := 0, 0, 0, 0, 0, 0, 0;
    }

    function Counts(): Tally
      reads `time, `kills, `deaths, `suicides, `lavd, `mavd, `havd, `hed, `bod, `ttb, `mv, `ngp
      reads `k1, `s1, `k2, `s2, `k3, `s3, `k4, `s4, `k5, `s5, `cflags, `nflags, `sflags
    {
      Tally(
        time, kills, deaths, suicides, lavd, mavd, havd, hed, bod, k1, k2, k3, k4, k5, s1, s2, s3, s4, s5, ttb, mv,
        ngp, cflags, nflags, sflags)
    }

    /** The stored rank is the one that score, points per hour and medals call for. */
    ghost predicate RankIsCurrent()
      reads this
    {
      IsRank(ran, score, pph, Ones(medals))
    }

    method CalcRank()
      modifies `ran
      ensures RankIsCurrent()
    {
      hide Meets, Ones;
      var totalMedals := CountSetBits(medals);
      var newRank := 1;
      for i := 1 to RANKS
        invariant newRank == i
        invariant newRank == 1 || Meets(newRank, score, pph, totalMedals)
      {
        if Meets(i + 1, score, pph, totalMedals) {
          newRank := i + 1;
        } else {
          forall q | i < q <= RANKS ensures !Meets(q, score, pph, totalMedals) {
            if Meets(q, score, pph, totalMedals) {
              MeetsLower(i + 1, q, score, pph, totalMedals);
            }
          }
          break;
        }
      }
      ran := newRank;
    }

    method SetScore(score: Int32)
      modifies `score, `ran
      ensures this.score == score && RankIsCurrent()
    {
      this.score := score;
      CalcRank();
    }

    method SetPPH(pph: Count32)
      modifies `pph, `ran
      ensures this.pph == pph && RankIsCurrent()
    {
      this.pph := pph;
      CalcRank();
    }

    method SetRank(ran: Count32) returns (ok: bool)
      modifies `ran
      ensures ok <==> 1 <= ran <= RANKS
      ensures this.ran == if ok then ran else old(this.ran)
    {
      ok := 1 <= ran <= RANKS;
      if ok {
        this.ran := ran;
      }
    }

    method SetMedals(medals: Count32) returns (ok: bool)
      modifies `medals, `ran
      ensures this.medals == BetterMedals(old(this.medals), medals)
      ensures ok <==> this.medals != old(this.medals)
      ensures if ok then RankIsCurrent() else ran == old(ran)
    {
      var offered := CountSetBits(medals);
      var held := CountSetBits(this.medals);
      if medals <= ALL_MEDALS && offered > held {
        this.medals := medals;
        CalcRank();
        return true;
      }
      return false;
    }

    /** Loading a player: the stored rank is set, and then overruled by what the other values call for. */
    method Load(score: Int32, ran: Count32, pph: Count32, medals: Count32)
      modifies `score, `ran, `pph, `medals
      ensures RankIsCurrent()
      ensures this.score == score && this.pph == pph
      ensures this.medals == BetterMedals(old(this.medals), medals)
    {
      SetScore(score);
      var _ := SetRank(ran);
      SetPPH(pph);
      var _ := SetMedals(medals);
    }

    method CalcNewPPH(time: Count32, score: Int32)
      requires InRange(pph, this.time, this.score, time, score)
      modifies `pph, `ran
      ensures pph == NewPph(old(pph), this.time, this.score, time, score)
      ensures if score == NAME_CHANGE then ran == old(ran) else RankIsCurrent()
    {
      hide Truncate, Add32, IsRank, Hours;
      if score == NAME_CHANGE {
        return;
      }
      var totalHours := Hours(Add32(this.time, time));
      var totalScore := if this.score + score < 0 then 0 else this.score + score;
      var newPph: int := 0;
      if totalHours < 1.0 {
        newPph := totalScore * 100;
      } else if totalHours < 5.0 {
        var newPphReal := totalScore as real / totalHours;
        newPph := Truncate(newPphReal * 100.0);
      } else {
        var currentPph := pph as real / 100.0;
        var gameTimeHours := Hours(time);
        var gapTimeSpan := 5.0 - gameTimeHours;
        var total := gapTimeSpan * currentPph;
        total := total + score as real;
        var newPphReal := total / 5.0;
        assert newPphReal == RecentRate(pph, time, score);
        newPph := Truncate(newPphReal * 100.0);
      }
      SetPPH(newPph);
    }

    /** Kills and spawns with the five kits. */
    method AddKits(m: Match)
      modifies `k1, `k2, `k3, `k4, `k5, `s1, `s2, `s3, `s4, `s5
      ensures k1 == Add32(old(k1), m.counts(KillsAssault)) && s1 == Add32(old(s1), m.counts(DeathsAssault))
      ensures k2 == Add32(old(k2), m.counts(KillsSniper)) && s2 == Add32(old(s2), m.counts(DeathsSniper))
      ensures k3 == Add32(old(k3), m.counts(KillsSpecialOp)) && s3 == Add32(old(s3), m.counts(DeathsSpecialOp))
      ensures k4 == Add32(old(k4), m.counts(KillsEngineer)) && s4 == Add32(old(s4), m.counts(DeathsEngineer))
      ensures k5 == Add32(old(k5), m.counts(KillsSupport)) && s5 == Add32(old(s5), m.counts(DeathsSupport))
    {
      hide Add32;
      k1 := Add32(k1, m.counts(KillsAssault));
      k2 := Add32(k2, m.counts(KillsSniper));
      k3 := Add32(k3, m.counts(KillsSpecialOp));
      k4 := Add32(k4, m.counts(KillsEngineer));
      k5 := Add32(k5, m.counts(KillsSupport));
      s1 := Add32(s1, m.counts(DeathsAssault));
      s2 := Add32(s2, m.counts(DeathsSniper));
      s3 := Add32(s3, m.counts(DeathsSpecialOp));
      s4 := Add32(s4, m.counts(DeathsEngineer));
      s5 := Add32(s5, m.counts(DeathsSupport));
    }

    /** The counters that are not about kits or vehicles. */
    method AddTotals(m: Match)
      modifies `kills, `deaths, `mv, `ngp, `suicides, `time, `ttb, `cflags, `nflags, `sflags
      ensures kills == Add32(old(kills), m.counts(Kills)) && deaths == Add32(old(deaths), m.counts(Deaths))
      ensures mv == Add32(old(mv), m.counts(Victories)) && ngp == Add32(old(ngp), m.counts(Sessions))
      ensures suicides == Add32(old(suicides), m.counts(Suicides)) && time == Add32(old(time), m.counts(Time))
      ensures ttb == Add32(old(ttb), m.counts(TopPlayer)) && cflags == Add32(old(cflags), m.counts(CapturedFlags))
      ensures nflags == Add32(old(nflags), m.counts(NeutralizedFlags))
      ensures sflags == Add32(old(sflags), m.counts(SavedFlags))
    {
      hide Add32;
      kills := Add32(kills, m.counts(Kills));
      deaths := Add32(deaths, m.counts(Deaths));
      mv := Add32(mv, m.counts(Victories));
      ngp := Add32(ngp, m.counts(Sessions));
      suicides := Add32(suicides, m.counts(Suicides));
      time := Add32(time, m.counts(Time));
      ttb := Add32(ttb, m.counts(TopPlayer));
      cflags := Add32(cflags, m.counts(CapturedFlags));
      nflags := Add32(nflags, m.counts(NeutralizedFlags));
      sflags := Add32(sflags, m.counts(SavedFlags));
    }

    /** The five kinds of vehicles, and their sum. */
    method AddVehicles(m: Match)
      modifies `bod, `havd, `hed, `lavd, `mavd, `vehicles
      ensures bod == Add32(old(bod), m.counts(Boats)) && havd == Add32(old(havd), m.counts(HAVs))
      ensures hed == Add32(old(hed), m.counts(Helicopters)) && lavd == Add32(old(lavd), m.counts(LAVs))
      ensures mavd == Add32(old(mavd), m.counts(MAVs))
      ensures vehicles == (lavd + mavd + havd + hed + bod) % UINT32
    {
      hide Add32;
      bod := Add32(bod, m.counts(Boats));
      havd := Add32(havd, m.counts(HAVs));
      hed := Add32(hed, m.counts(Helicopters));
      lavd := Add32(lavd, m.counts(LAVs));
      mavd := Add32(mavd, m.counts(MAVs));
      VehicleSum(lavd, mavd, havd, hed, bod);
      vehicles := Add32(Add32(Add32(Add32(lavd, mavd), havd), hed), bod);
    }

    method AddCounters(m: Match)
      modifies `k1, `k2, `k3, `k4, `k5, `s1, `s2, `s3, `s4, `s5, `lavd, `mavd, `havd, `hed, `bod, `vehicles
      modifies `kills, `deaths, `suicides, `time, `mv, `ngp, `ttb, `cflags, `nflags, `sflags
      ensures Counts() == old(Counts()).Plus(m.counts)
      ensures vehicles == (lavd + mavd + havd + hed + bod) % UINT32
    {
      hide Add32;
      ghost var t := Counts();
      AddKits(m);
      ghost var kits := Counts();
      assert kits == t.(k1 := kits.k1, k2 := kits.k2, k3 := kits.k3, k4 := kits.k4, k5 := kits.k5,
                        s1 := kits.s1, s2 := kits.s2, s3 := kits.s3, s4 := kits.s4, s5 := kits.s5);
      AddTotals(m);
      ghost var totals := Counts();
      assert totals == kits.(kills := totals.kills, deaths := totals.deaths, mv := totals.mv, ngp := totals.ngp,
                             suicides := totals.suicides, time := totals.time, ttb := totals.ttb,
                             cflags := totals.cflags, nflags := totals.nflags, sflags := totals.sflags);
      AddVehicles(m);
    }

    /** Takes one match over: every counter grows by what the match counted, the rest follows. */
    method Update(m: Match)
      requires InRange(pph, time, score, m.counts(Time), m.score)
      modifies this
      ensures Counts() == old(Counts()).Plus(m.counts)
      ensures score == old(score) + m.score
      ensures pph == NewPph(old(pph), old(time), old(score), m.counts(Time), m.score)
      ensures medals == BetterMedals(old(medals), m.medals)
      ensures vehicles == (lavd + mavd + havd + hed + bod) % UINT32
      ensures RankIsCurrent()
    {
      hide NewPph, Add32, BetterMedals, IsRank, Counts;
      CalcNewPPH(m.counts(Time), m.score);
      AddCounters(m);
      SetScore(score + m.score);
      var _ := SetMedals(m.medals);
    }
  }

  // ---------------------------------------------------------------- whole runs of matches

  function Sum(values: seq<nat>): nat {
    if values == [] then 0 else values[0] + Sum(values[1..])
  }

  lemma TakeOut<T>(s: seq<T>, i: nat)
    requires i < |s|
    ensures multiset(s[..i] + s[i + 1..]) == multiset(s) - multiset{s[i]}
  {
    assert s == s[..i] + [s[i]] + s[i + 1..];
  }

  function MedalsAfter(start: Count32, offers: seq<Count32>): Count32
    decreases offers
  {
    if offers == [] then start else MedalsAfter(BetterMedals(start, offers[0]), offers[1..])
  }

  /** After any run of matches the player holds the start medals or a known offer, and no known offer beats it. */
  lemma {:induction false} MedalsAreBest(start: Count32, offers: seq<Count32>)
    ensures var held := MedalsAfter(start, offers);
            && (held == start || (held in offers && held <= ALL_MEDALS))
            && Ones(held) >= Ones(start)
            && forall m :: m in offers && m <= ALL_MEDALS ==> Ones(m) <= Ones(held)
    decreases offers
  {
    if offers != [] {
      MedalsAreBest(BetterMedals(start, offers[0]), offers[1..]);
    }
  }

  /** The medals of a match as its report states them, reduced to the known ones. */
  function ReportedMedals(stated: Count32): Count32 {
    BitAnd(stated, ALL_MEDALS)
  }

  function AllOnes(width: nat): nat {
    if width == 0 then 0 else 2 * AllOnes(width - 1) + 1
  }

  /** Reducing keeps the low fifteen bits, one for each medal, and clears all others. */
  lemma ReportedMedalsAreLowBits(stated: Count32, k: nat)
    ensures Bit(ReportedMedals(stated), k) == if k < 15 then Bit(stated, k) else 0
  {
    assert AllOnes(5) == 31;
    assert AllOnes(10) == 1023;
    assert AllOnes(15) == ALL_MEDALS;
    AndAllOnes(stated, 15, k);
  }

  lemma {:induction false} AndAllOnes(n: nat, width: nat, k: nat)
    ensures Bit(BitAnd(n, AllOnes(width)), k) == if k < width then Bit(n, k) else 0
    decreases width + k
  {
    hide BitAnd;
    if width == 0 {
      NothingAnd(n);
      ZeroBits(k);
    } else {
      AndHalves(n, AllOnes(width));
      var ones := AllOnes(width - 1);
      assert AllOnes(width) == 2 * ones + 1;
      assert (2 * ones + 1) / 2 == ones && (2 * ones + 1) % 2 == 1;
      if k > 0 {
        AndAllOnes(n / 2, width - 1, k - 1);
      }
    }
  }

  lemma ZeroBits(k: nat)
    ensures Bit(0, k) == 0
  {}

  function AllReported(stated: seq<Count32>): (r: seq<Count32>)
    ensures |r| == |stated| && forall i :: 0 <= i < |r| ==> r[i] == ReportedMedals(stated[i])
  {
    seq(|stated|, i requires 0 <= i < |stated| => ReportedMedals(stated[i]))
  }

  /** Over any run of reports the medals stay within the known ones, and their number is the greatest reported. */
  lemma MedalsOverReports(start: Count32, stated: seq<Count32>)
    requires start <= ALL_MEDALS
    ensures var held := MedalsAfter(start, AllReported(stated));
            && held <= ALL_MEDALS
            && Ones(held) >= Ones(start)
            && (forall i :: 0 <= i < |stated| ==> Ones(ReportedMedals(stated[i])) <= Ones(held))
            && (held == start || exists i :: 0 <= i < |stated| && held == ReportedMedals(stated[i]))
  {
    hide BitAnd, Ones;
    MedalsAreBest(start, AllReported(stated));
    forall i | 0 <= i < |stated| ensures AllReported(stated)[i] in AllReported(stated) {
    }
    var held := MedalsAfter(start, AllReported(stated));
    if held != start {
      var i :| 0 <= i < |stated| && AllReported(stated)[i] == held;
      assert held == ReportedMedals(stated[i]);
    }
  }

  /** All the counters after a run of matches, each taken over as `Stats.Update` does. */
  function TallyAfter(t: Tally, ms: seq<Match>): Tally
    decreases ms
  {
    if ms == [] then t else TallyAfter(t.Plus(ms[0].counts), ms[1..])
  }

  function Counted(ms: seq<Match>, c: Counter): seq<Count32> {
    if ms == [] then [] else [ms[0].counts(c)] + Counted(ms[1..], c)
  }

  lemma AddThenSum(start: Count32, first: Count32, rest: seq<Count32>)
    ensures (Add32(start, first) + Sum(rest)) % UINT32 == (start + Sum([first] + rest)) % UINT32
  {}

  lemma {:induction false} TallyAfterIsSum(t: Tally, ms: seq<Match>, c: Counter)
    ensures TallyAfter(t, ms).Count(c) == (t.Count(c) + Sum(Counted(ms, c))) % UINT32
    decreases ms
  {
    hide Add32, Tally.Plus, Tally.Count;
    if ms != [] {
      TallyAfterIsSum(t.Plus(ms[0].counts), ms[1..], c);
      PlusCounts(t, ms[0].counts, c);
      AddThenSum(t.Count(c), ms[0].counts(c), Counted(ms[1..], c));
    }
  }

  lemma {:induction false} CountedTakeOut(ms: seq<Match>, i: nat, c: Counter)
    requires i < |ms|
    ensures Sum(Counted(ms, c)) == ms[i].counts(c) + Sum(Counted(ms[..i] + ms[i + 1..], c))
  {
    var others := ms[..i] + ms[i + 1..];
    if i == 0 {
      assert others == ms[1..];
    } else {
      CountedTakeOut(ms[1..], i - 1, c);
      assert others[1..] == ms[1..][..i - 1] + ms[1..][i..];
    }
  }

  lemma SomewhereIn<T>(s: seq<T>, t: seq<T>) returns (i: nat)
    requires s != [] && multiset(s) == multiset(t)
    ensures i < |t| && t[i] == s[0]
    ensures multiset(s[..0] + s[1..]) == multiset(t[..i] + t[i + 1..])
  {
    assert s[0] in multiset(t);
    i :| 0 <= i < |t| && t[i] == s[0];
    TakeOut(s, 0);
    TakeOut(t, i);
  }

  lemma SameLength<T>(s: seq<T>, t: seq<T>)
    requires multiset(s) == multiset(t)
    ensures |s| == |t|
  {
    assert |multiset(s)| == |s| && |multiset(t)| == |t|;
  }

  lemma {:induction false} CountedAnyOrder(a: seq<Match>, b: seq<Match>, c: Counter)
    requires multiset(a) == multiset(b)
    ensures Sum(Counted(a, c)) == Sum(Counted(b, c))
    decreases |a|
  {
    hide Sum, Counted;
    SameLength(a, b);
    if a != [] {
      var i := SomewhereIn(a, b);
      CountedTakeOut(a, 0, c);
      CountedTakeOut(b, i, c);
      CountedAnyOrder(a[..0] + a[1..], b[..i] + b[i + 1..], c);
    }
  }

  /** The same matches in another order leave every counter the same. */
  lemma TallyAnyOrder(t: Tally, a: seq<Match>, b: seq<Match>, c: Counter)
    requires multiset(a) == multiset(b)
    ensures TallyAfter(t, a).Count(c) == TallyAfter(t, b).Count(c)
  {
    hide Tally.Count, Tally.Plus;
    TallyAfterIsSum(t, a, c);
    TallyAfterIsSum(t, b, c);
    CountedAnyOrder(a, b, c);
  }

  lemma PphIsNat(pph: Count32, time: Count32, score: Int32, matchTime: Count32, matchScore: Int32)
    requires InRange(pph, time, score, matchTime, matchScore)
    ensures NewPph(pph, time, score, matchTime, matchScore) >= 0
  {}

  function ScoreSum(ms: seq<Match>): int {
    if ms == [] then 0 else ms[0].score + ScoreSum(ms[1..])
  }

  function Offers(ms: seq<Match>): seq<Count32> {
    if ms == [] then [] else [ms[0].medals] + Offers(ms[1..])
  }

  lemma {:induction false} ScoreTakeOut(ms: seq<Match>, i: nat)
    requires i < |ms|
    ensures ScoreSum(ms) == ms[i].score + ScoreSum(ms[..i] + ms[i + 1..])
  {
    var others := ms[..i] + ms[i + 1..];
    if i == 0 {
      assert others == ms[1..];
    } else {
      ScoreTakeOut(ms[1..], i - 1);
      assert others[1..] == ms[1..][..i - 1] + ms[1..][i..];
    }
  }

  /** The order of the matches makes no difference to the score either. */
  lemma {:induction false} ScoreAnyOrder(a: seq<Match>, b: seq<Match>)
    requires multiset(a) == multiset(b)
    ensures ScoreSum(a) == ScoreSum(b)
    decreases |a|
  {
    hide ScoreSum;
    SameLength(a, b);
    if a != [] {
      var i := SomewhereIn(a, b);
      ScoreTakeOut(a, 0);
      ScoreTakeOut(b, i);
      ScoreAnyOrder(a[..0] + a[1..], b[..i] + b[i + 1..]);
    }
  }

  /** Nor to the number of medals. */
  lemma MedalsAnyOrder(start: Count32, a: seq<Count32>, b: seq<Count32>)
    requires multiset(a) == multiset(b)
    ensures Ones(MedalsAfter(start, a)) == Ones(MedalsAfter(start, b))
  {
    hide Ones, MedalsAfter;
    MedalsAreBest(start, a);
    MedalsAreBest(start, b);
    forall m ensures m in a <==> m in b {
      assert m in multiset(a) <==> m in multiset(b);
    }
  }

  /** Every match of a run stays in the range of the types when its turn comes. */
  ghost predicate RunInRange(pph: Count32, time: Count32, score: Int32, ms: seq<Match>)
    decreases ms
  {
    ms != [] ==>
      var m := ms[0];
      var seconds := m.counts(Time);
      InRange(pph, time, score, seconds, m.score) &&
      RunInRange(NewPph(pph, time, score, seconds, m.score), Add32(time, seconds), score + m.score, ms[1..])
  }

  ghost function PphAfter(pph: Count32, time: Count32, score: Int32, ms: seq<Match>): Count32
    requires RunInRange(pph, time, score, ms)
    decreases ms
  {
    if ms == [] then pph
    else
      var m := ms[0];
      var seconds := m.counts(Time);
      PphAfter(NewPph(pph, time, score, seconds, m.score), Add32(time, seconds), score + m.score, ms[1..])
  }

  lemma PlusTime(t: Tally, counts: Counter -> Count32)
    ensures t.Plus(counts).time == Add32(t.time, counts(Time))
  {}

  /** One update for each match of a player's career. */
  method UpdateAll(stats: Stats, ms: seq<Match>)
    requires RunInRange(stats.pph, stats.time, stats.score, ms)
    modifies stats
    ensures stats.Counts() == TallyAfter(old(stats.Counts()), ms)
    ensures forall c :: stats.Counts().Count(c) == (old(stats.Counts()).Count(c) + Sum(Counted(ms, c))) % UINT32
    ensures stats.score == old(stats.score) + ScoreSum(ms)
    ensures stats.pph == old(PphAfter(stats.pph, stats.time, stats.score, ms))
    ensures stats.medals == MedalsAfter(old(stats.medals), Offers(ms))
    ensures old(stats.RankIsCurrent()) || ms != [] ==> stats.RankIsCurrent()
    ensures ms != [] ==> stats.vehicles == (stats.lavd + stats.mavd + stats.havd + stats.hed + stats.bod) % UINT32
  {
    hide InRange, NewPph, IsRank, BetterMedals, Tally.Plus, Tally.Count, Add32;
    var i := 0;
    assert ms[0..] == ms;
    while i < |ms|
      invariant 0 <= i <= |ms|
      invariant RunInRange(stats.pph, stats.time, stats.score, ms[i..])
      invariant TallyAfter(stats.Counts(), ms[i..]) == TallyAfter(old(stats.Counts()), ms)
      invariant stats.score + ScoreSum(ms[i..]) == old(stats.score) + ScoreSum(ms)
      invariant PphAfter(stats.pph, stats.time, stats.score, ms[i..]) ==
                old(PphAfter(stats.pph, stats.time, stats.score, ms))
      invariant MedalsAfter(stats.medals, Offers(ms[i..])) == MedalsAfter(old(stats.medals), Offers(ms))
      invariant old(stats.RankIsCurrent()) || i > 0 ==> stats.RankIsCurrent()
      invariant i > 0 ==> stats.vehicles == (stats.lavd + stats.mavd + stats.havd + stats.hed + stats.bod) % UINT32
    {
      assert ms[i..][1..] == ms[i + 1..] && ms[i..][0] == ms[i];
      PlusTime(stats.Counts(), ms[i].counts);
      stats.Update(ms[i]);
      i := i + 1;
    }
    forall c ensures stats.Counts().Count(c) == (old(stats.Counts()).Count(c) + Sum(Counted(ms, c))) % UINT32 {
      TallyAfterIsSum(old(stats.Counts()), ms, c);
    }
  }

  /** From the same state, the higher of two match scores never leads to the lower rank. */
  lemma HigherScoreNotLowerRank(pph: Count32, time: Count32, score: Int32, medals: nat, matchTime: Count32,
                                a: Int32, b: Int32, rankA: int, rankB: int)
    requires a <= b && a != NAME_CHANGE && b != NAME_CHANGE
    requires InRange(pph, time, score, matchTime, a) && InRange(pph, time, score, matchTime, b)
    requires IsRank(rankA, score + a, NewPph(pph, time, score, matchTime, a), medals)
    requires IsRank(rankB, score + b, NewPph(pph, time, score, matchTime, b), medals)
    ensures rankA <= rankB
  {
    hide NewPph, InRange, IsRank;
    PphMonotone(pph, time, score, matchTime, a, b);
    PphIsNat(pph, time, score, matchTime, a);
    PphIsNat(pph, time, score, matchTime, b);
    RankMonotone(rankA, score + a, NewPph(pph, time, score, matchTime, a), medals,
                 rankB, score + b, NewPph(pph, time, score, matchTime, b), medals);
  }

  /** A state and a match score that stay in range, and the rank they lead to. */
  ghost predicate RankAfter(rank: int, pph: Count32, time: Count32, score: Int32, matchTime: Count32, medals: nat,
                            matchScore: Int32) {
    && InRange(pph, time, score, matchTime, matchScore)
    && IsRank(rank, score + matchScore, NewPph(pph, time, score, matchTime, matchScore), medals)
  }

  /** Whatever the player's state, the score `b` never leads to a lower rank than `a`. */
  ghost predicate NeverLowerRank(a: Int32, b: Int32) {
    forall pph, time, score, matchTime, medals, rankA, rankB ::
      (RankAfter(rankA, pph, time, score, matchTime, medals, a) &&
       RankAfter(rankB, pph, time, score, matchTime, medals, b)) ==> rankA <= rankB
  }

  lemma ThresholdsFrom(q: int)
    requires 2 <= q <= RANKS
    ensures RANK_SCORES[q - 1] >= 25 && RANK_PPH[q - 1] >= 10
    ensures q > 2 ==> RANK_SCORES[q - 1] >= 50
  {
    if q > 3 {
      ThresholdsFrom(q - 1);
      TablesRise(q - 1);
    }
  }

  /** Without 25 points, or without 10 points per hour, the rank is the first. */
  lemma FirstRank(score: int, pph: nat, medals: nat)
    requires score < 25 || pph < 1000
    ensures forall r :: IsRank(r, score, pph, medals) <==> r == 1
  {
    forall q | 2 <= q <= RANKS ensures !Meets(q, score, pph, medals) {
      ThresholdsFrom(q);
    }
  }

  lemma SecondRank(pph: nat)
    requires pph >= 1000
    ensures IsRank(2, 25, pph, 0)
  {
    forall q | 2 < q <= RANKS ensures !Meets(q, 25, pph, 0) {
      ThresholdsFrom(q);
    }
  }

  /** A negative score takes the surplus over 9.99 points per hour away. */
  lemma DownToTen(b: Int32)
    requires NAME_CHANGE < b < 0
    ensures NewPph(999 - 20 * b, 18000, 10025, 0, b) == 999
  {
    assert Add32(18000, 0) == 18000;
    assert Hours(18000) == 5.0 && Hours(0) == 0.0;
    var pph: Count32 := 999 - 20 * b;
    assert RecentRate(pph, 0, b) * 100.0 == 999.0;
  }

  /** A long enough match outweighs a score, however high. */
  lemma DownToNothing(b: Int32, seconds: Count32)
    requires b >= 0 && 25 * seconds <= 9 * b < 25 * seconds + 25
    ensures 0 <= NewPph(1000000, 0, 10025, 18000 + seconds, b) < 1000
  {
    var g := Hours(18000 + seconds);
    assert Add32(0, 18000 + seconds) == 18000 + seconds;
    assert g == 5.0 + seconds as real / 3600.0;
    var p: Count32 := 1000000;
    assert (5.0 - g) * (p as real / 100.0) == -(seconds as real * 25.0 / 9.0);
    assert 0.0 <= RecentRate(p, 18000 + seconds, b) <= 1.0;
  }

  /** A name change keeps a second rank that any higher score in range would lose, and never gains one. */
  lemma NameChangeKeepsRank(b: Int32) returns (pph: Count32, time: Count32, matchTime: Count32)
    requires NAME_CHANGE < b <= INT32_MAX - 10025
    ensures RankAfter(2, pph, time, 10025, matchTime, 0, NAME_CHANGE)
    ensures RankAfter(1, pph, time, 10025, matchTime, 0, b)
  {
    if b < 0 {
      pph, time, matchTime := 999 - 20 * b, 18000, 0;
      DownToTen(b);
      assert Hours(Add32(time, matchTime)) == 5.0;
    } else {
      var seconds: Count32 := 9 * b / 25;
      pph, time, matchTime := 1000000, 0, 18000 + seconds;
      DownToNothing(b, seconds);
      assert Hours(Add32(time, matchTime)) >= 5.0;
    }
    hide Hours, RecentRate, IsRank;
    var kept, left := NewPph(pph, time, 10025, matchTime, NAME_CHANGE), NewPph(pph, time, 10025, matchTime, b);
    hide NewPph;
    assert kept == pph;
    SecondRank(pph);
    FirstRank(10025 + b, left, 0);
  }

  /** And a lower score can gain a second rank that the name change does not. */
  lemma NameChangeGainsNoRank(a: Int32)
    requires 25 - INT32_MAX <= a < NAME_CHANGE
    ensures RankAfter(2, 0, 0, 25 - a, 0, 0, a) && RankAfter(1, 0, 0, 25 - a, 0, 0, NAME_CHANGE)
  {
    assert Add32(0, 0) == 0;
    assert Hours(0) == 0.0;
    assert NewPph(0, 0, 25 - a, 0, a) == 2500;
    SecondRank(2500);
    FirstRank(25 - a + NAME_CHANGE, 0, 0);
  }

  /**
   The order of scores carries over to ranks exactly when neither score marks a name change, or the one that does
   stands against a score so extreme that the lower of the two leaves fewer than the 25 points of the second rank.
   */
  lemma RankOrder(a: Int32, b: Int32)
    requires a < b
    ensures NeverLowerRank(a, b) <==>
            (a == NAME_CHANGE ==> b > INT32_MAX - 10025) && (b == NAME_CHANGE ==> a < 25 - INT32_MAX)
  {
    hide InRange, IsRank, NewPph;
    if a == NAME_CHANGE && b <= INT32_MAX - 10025 {
      var pph, time, matchTime := NameChangeKeepsRank(b);
    } else if b == NAME_CHANGE && a >= 25 - INT32_MAX {
      NameChangeGainsNoRank(a);
    } else {
      forall pph, time, score, matchTime, medals, rankA, rankB |
        RankAfter(rankA, pph, time, score, matchTime, medals, a) &&
        RankAfter(rankB, pph, time, score, matchTime, medals, b)
        ensures rankA <= rankB
      {
        RankOrderAt(pph, time, score, matchTime, medals, a, b, rankA, rankB);
      }
    }
  }

  lemma RankOrderAt(pph: Count32, time: Count32, score: Int32, matchTime: Count32, medals: nat, a: Int32, b: Int32,
                    rankA: int, rankB: int)
    requires a < b && (a == NAME_CHANGE ==> b > INT32_MAX - 10025) && (b == NAME_CHANGE ==> a < 25 - INT32_MAX)
    requires RankAfter(rankA, pph, time, score, matchTime, medals, a)
    requires RankAfter(rankB, pph, time, score, matchTime, medals, b)
    ensures rankA <= rankB
  {
    if a == NAME_CHANGE || b == NAME_CHANGE {
      assert score + a < 25;
      FirstRank(score + a, NewPph(pph, time, score, matchTime, a), medals);
    } else {
      HigherScoreNotLowerRank(pph, time, score, medals, matchTime, a, b, rankA, rankB);
    }
  }
}
