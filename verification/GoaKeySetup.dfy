/**
 Key setup of the GOA cipher: a deck in ascending order is shuffled from the top down, each place exchanging
 its card with a place drawn from the key by a bounded rejection loop.
 */
module GoaKeySetup {
  import opened Bytes
  import opened GoaCipher

  const MAX_TRIES := 12

  type Key = key: seq<byte> | 0 < |key| < 256 witness [0]

  // ---------------------------------------------------------------- drawing a place

  /** The running sum and the place in the key, from which the next sum follows. */
  datatype Feed = Feed(rsum: byte, keypos: nat)

  function NextFeed(cards: Deck, key: Key, f: Feed): (r: Feed)
    requires f.keypos < |key|
    ensures r.keypos < |key|
  {
    var sum := Plus(cards[f.rsum], key[f.keypos]);
    if f.keypos + 1 >= |key| then Feed(Plus(sum, |key|), 0) else Feed(sum, f.keypos + 1)
  }

  /** The key is read round and round, and each time round its length is added, so that "aaaa" is not "aaaaaaaa". */
  lemma NextFeedSums(cards: Deck, key: Key, f: Feed)
    requires f.keypos < |key|
    ensures var r := NextFeed(cards, key, f);
            if f.keypos + 1 < |key| then r == Feed(Plus(cards[f.rsum], key[f.keypos]), f.keypos + 1)
            else r.keypos == 0 && r.rsum == (cards[f.rsum] + key[f.keypos] + |key|) % 256
  {
    PlusTwice(cards[f.rsum], key[f.keypos], |key|);
    hide Plus;
  }

  /** The feed after `n` sums. */
  function FeedAfter(cards: Deck, key: Key, f: Feed, n: nat): (r: Feed)
    requires f.keypos < |key|
    ensures r.keypos < |key|
  {
    if n == 0 then f else NextFeed(cards, key, FeedAfter(cards, key, f, n - 1))
  }

  /** The candidate made from the n-th sum. */
  function Candidate(cards: Deck, key: Key, mask: byte, f: Feed, n: nat): byte
    requires f.keypos < |key|
  {
    BitAnd(mask, FeedAfter(cards, key, f, n).rsum)
  }

  /** How many sums are made: up to the first candidate not above the limit, and never more than twelve. */
  function Tries(cards: Deck, key: Key, limit: byte, mask: byte, f: Feed, from: nat): (n: nat)
    requires f.keypos < |key| && 1 <= from <= MAX_TRIES
    ensures from <= n <= MAX_TRIES
    ensures forall k :: from <= k < n ==> Candidate(cards, key, mask, f, k) > limit
    ensures n < MAX_TRIES ==> Candidate(cards, key, mask, f, n) <= limit
    decreases MAX_TRIES - from
  {
    if from == MAX_TRIES || Candidate(cards, key, mask, f, from) <= limit then from
    else Tries(cards, key, limit, mask, f, from + 1)
  }

  datatype Draw = Draw(place: byte, feed: Feed)

  function DrawPlace(cards: Deck, key: Key, limit: byte, mask: byte, f: Feed): (d: Draw)
    requires f.keypos < |key| && limit > 0
    ensures d.place <= limit && d.feed.keypos < |key|
  {
    var n := Tries(cards, key, limit, mask, f, 1);
    var u := Candidate(cards, key, mask, f, n);
    Draw(if n == MAX_TRIES then u % limit else u, FeedAfter(cards, key, f, n))
  }

  /** A candidate within the limit among the first eleven is taken as it is; the twelfth is reduced in any case. */
  lemma FirstCandidateTaken(cards: Deck, key: Key, limit: byte, mask: byte, f: Feed, n: nat)
    requires f.keypos < |key| && limit > 0 && 1 <= n <= 12
    requires forall k :: 1 <= k < n ==> Candidate(cards, key, mask, f, k) > limit
    requires n < 12 ==> Candidate(cards, key, mask, f, n) <= limit
    ensures DrawPlace(cards, key, limit, mask, f) ==
            Draw(if n < 12 then Candidate(cards, key, mask, f, n) else Candidate(cards, key, mask, f, n) % limit,
                 FeedAfter(cards, key, f, n))
  {
    hide Candidate, FeedAfter;
  }

  method Keyrand(state: GoaState, limit: byte, mask: byte, key: Key, rsum: byte, keypos: nat)
    returns (u: byte, rsum': byte, keypos': nat)
    requires state.Valid() && keypos < |key|
    ensures limit == 0 ==> (u, rsum', keypos') == (0, rsum, keypos)
    ensures limit > 0 ==>
      Draw(u, Feed(rsum', keypos')) == DrawPlace(state.cards[..], key, limit, mask, Feed(rsum, keypos))
  {
    u, rsum', keypos' := 0, rsum, keypos;
    if limit == 0 {
      return;
    }
    ghost var cards, f := state.cards[..], Feed(rsum, keypos);
    var retryLimiter := 0;
    var again := true;
    while again
      invariant keypos' < |key| && retryLimiter <= MAX_TRIES
      invariant Feed(rsum', keypos') == FeedAfter(cards, key, f, retryLimiter)
      invariant again ==> retryLimiter < MAX_TRIES
      invariant forall k :: 1 <= k < retryLimiter ==> Candidate(cards, key, mask, f, k) > limit
      invariant again && retryLimiter > 0 ==> Candidate(cards, key, mask, f, retryLimiter) > limit
      invariant !again ==> retryLimiter > 0 && u <= limit
      invariant !again && retryLimiter < MAX_TRIES ==> u == Candidate(cards, key, mask, f, retryLimiter)
      invariant !again && retryLimiter == MAX_TRIES ==> u == Candidate(cards, key, mask, f, retryLimiter) % limit
      decreases MAX_TRIES - retryLimiter, again
    {
      rsum' := Plus(state.cards[rsum'], key[keypos']);
      keypos' := keypos' + 1;
      if keypos' >= |key| {
        keypos' := 0;
        rsum' := Plus(rsum', |key|);
      }
      u := BitAnd(mask, rsum');
      retryLimiter := retryLimiter + 1;
      if retryLimiter > 11 {
        u := u % limit;
      }
      again := u > limit;
    }
    assert retryLimiter == Tries(cards, key, limit, mask, f, 1);
  }

  // ---------------------------------------------------------------- the mask

  /** The least number of the form 2^k - 1 that is at least `n`. */
  function MaskFor(n: nat): (m: nat)
    ensures m / 2 < n <= m || n == m == 0
    ensures n > 0 ==> m % 2 == 1
  {
    if n == 0 then 0 else 1 + 2 * MaskFor(n / 2)
  }

  lemma {:induction false} MaskIsOneBelowPower(n: nat, width: nat)
    requires n < Pow2(width)
    ensures MaskFor(n) < Pow2(width)
    ensures exists k: nat :: k <= width && MaskFor(n) + 1 == Pow2(k)
  {
    if n == 0 {
      assert MaskFor(n) + 1 == Pow2(0);
    } else {
      MaskIsOneBelowPower(n / 2, width - 1);
      var k: nat :| k <= width - 1 && MaskFor(n / 2) + 1 == Pow2(k);
      assert MaskFor(n) + 1 == Pow2(k + 1);
    }
  }

  /** The source halves its mask exactly when `i & (i - 1)` is 0, and so keeps it the mask of the next place. */
  lemma {:induction false} MaskStep(i: nat)
    requires i > 0
    ensures MaskFor(i - 1) == if BitAnd(i, i - 1) == 0 then MaskFor(i) / 2 else MaskFor(i)
  {
    hide MaskFor, BitAnd;
    var m := i / 2;
    MaskDoubles(m);
    if i % 2 == 1 {
      assert i == 2 * m + 1;
      AndBelowOdd(m);
    } else {
      assert i == 2 * m;
      MaskStep(m);
      AndBelowEven(m);
      MaskDoubles(m - 1);
    }
  }

  lemma MaskAtTop(top: nat)
    requires top == 255
    ensures MaskFor(top) == top
  {}

  lemma MaskDoubles(m: nat)
    ensures MaskFor(2 * m + 1) == 1 + 2 * MaskFor(m)
    ensures m > 0 ==> MaskFor(2 * m) == 1 + 2 * MaskFor(m)
  {
    assert (2 * m + 1) / 2 == m && (2 * m) / 2 == m;
  }

  // ---------------------------------------------------------------- the deal

  function Ascending(): (cards: Deck)
    ensures forall i :: 0 <= i < 256 ==> cards[i] == i
  {
    seq(256, i requires 0 <= i < 256 => i)
  }

  function Descending(): (cards: Deck)
    ensures forall i :: 0 <= i < 256 ==> cards[i] == 255 - i
  {
    seq(256, i requires 0 <= i < 256 => 255 - i)
  }

  /** The deck and the feed once the places from `i` down to 1 have been dealt. */
  function Deal(cards: Deck, i: byte, key: Key, f: Feed): (Deck, Feed)
    requires f.keypos < |key|
    decreases i
  {
    if i == 0 then (cards, f)
    else
      MaskIsOneBelowPower(i, 8);
      assert Pow2(8) == 256;
      var d := DrawPlace(cards, key, i, MaskFor(i), f);
      Deal(Exchange(cards, i, d.place), i - 1, key, d.feed)
  }

  lemma DealNothing(cards: Deck, key: Key, f: Feed)
    requires f.keypos < |key|
    ensures Deal(cards, 0, key, f) == (cards, f)
  {}

  lemma DealStep(cards: Deck, i: byte, key: Key, f: Feed, mask: byte)
    requires f.keypos < |key| && i > 0 && mask == MaskFor(i)
    ensures var d := DrawPlace(cards, key, i, mask, f);
            Deal(cards, i, key, f) == Deal(Exchange(cards, i, d.place), i - 1, key, d.feed)
  {}

  /** Dealing loses no card, and a place above `i` keeps its card for good. */
  lemma {:induction false} DealKeepsCards(cards: Deck, i: byte, key: Key, f: Feed)
    requires f.keypos < |key|
    ensures multiset(Deal(cards, i, key, f).0) == multiset(cards)
    ensures forall j :: i < j < 256 ==> Deal(cards, i, key, f).0[j] == cards[j]
    decreases i
  {
    hide DrawPlace, MaskFor;
    if i > 0 {
      MaskIsOneBelowPower(i, 8);
      assert Pow2(8) == 256;
      var d := DrawPlace(cards, key, i, MaskFor(i), f);
      ExchangeKeepsMultiset(cards, i, d.place);
      DealKeepsCards(Exchange(cards, i, d.place), i - 1, key, d.feed);
    }
  }

  function DealAll(cards: Deck, key: Key): (Deck, Feed) {
    Deal(cards, |cards| - 1, key, Feed(0, 0))
  }

  function HashState(): State {
    State(Descending(), 1, 3, 5, 7, 11)
  }

  function KeyedState(key: seq<byte>): State
    requires |key| < 256
  {
    if |key| == 0 then HashState()
    else
      var (cards, f) := DealAll(Ascending(), key);
      State(cards, cards[1], cards[3], cards[5], cards[7], cards[f.rsum])
  }

  lemma CountAscending(n: nat, b: byte)
    requires n <= 256
    ensures multiset(Ascending()[..n])[b] == if b < n then 1 else 0
  {
    if n > 0 {
      CountAscending(n - 1, b);
      assert Ascending()[..n] == Ascending()[..n - 1] + [n - 1];
    }
  }

  lemma CountDescending(n: nat, b: byte)
    requires n <= 256
    ensures multiset(Descending()[..n])[b] == if b >= 256 - n then 1 else 0
  {
    if n > 0 {
      CountDescending(n - 1, b);
      assert Descending()[..n] == Descending()[..n - 1] + [256 - n];
    }
  }

  /** A candidate is the remainder of the sum modulo the power of two above the mask. */
  lemma CandidateIsRemainder(cards: Deck, key: Key, limit: byte, f: Feed, n: nat) returns (q: nat)
    requires f.keypos < |key|
    ensures MaskFor(limit) < 256
    ensures FeedAfter(cards, key, f, n).rsum ==
            q * (MaskFor(limit) + 1) + Candidate(cards, key, MaskFor(limit), f, n)
  {
    assert Pow2(8) == 256;
    MaskIsOneBelowPower(limit, 8);
    var k: nat :| k <= 8 && MaskFor(limit) + 1 == Pow2(k);
    q := AndOnesIsRemainder(FeedAfter(cards, key, f, n).rsum, k);
  }

  /** The place at hand gets the card of the place drawn, for good. */
  lemma DealtCard(cards: Deck, i: byte, key: Key, f: Feed)
    requires f.keypos < |key| && i > 0
    ensures MaskFor(i) < 256
    ensures Deal(cards, i, key, f).0[i] == cards[DrawPlace(cards, key, i, MaskFor(i), f).place]
  {
    hide DrawPlace, MaskFor;
    MaskIsOneBelowPower(i, 8);
    assert Pow2(8) == 256;
    var d := DrawPlace(cards, key, i, MaskFor(i), f);
    DealKeepsCards(Exchange(cards, i, d.place), i - 1, key, d.feed);
  }

  /** What key setup does first shows at the top of the deck: there lies the first byte of the key. */
  lemma TopCard(key: Key)
    ensures KeyedState(key).cards[255] == if |key| == 1 then Plus(key[0], 1) else key[0]
  {
    hide Deal, MaskFor, DrawPlace, FeedAfter, BitAnd, Ascending, Pow2;
    var cards, f, tries := Ascending(), Feed(0, 0), 1;
    var top := |cards| - 1;
    MaskAtTop(top);
    DealtCard(cards, top, key, f);
    FirstSum(cards, key, tries);
    var sum := FeedAfter(cards, key, f, tries).rsum;
    EightBits();
    AndOnes(sum, 8);
    assert Candidate(cards, key, top, f, tries) == sum;
    FirstCandidateTaken(cards, key, top, top, f, tries);
  }

  lemma EightBits()
    ensures Pow2(8) == 256
  {}

  lemma FirstSum(cards: Deck, key: Key, tries: nat)
    requires cards == Ascending() && tries == 1
    ensures FeedAfter(cards, key, Feed(0, 0), tries).rsum == if |key| == 1 then Plus(key[0], 1) else key[0]
  {
    assert FeedAfter(cards, key, Feed(0, 0), 0) == Feed(0, 0);
    NextFeedSums(cards, key, Feed(0, 0));
  }

  /** The unkeyed cipher enciphers its first byte with 0xef. */
  lemma FirstByteUnkeyed(b: byte)
    ensures Step(Encipher, HashState(), b).1 == Xor(b, 0xef)
  {
    hide Xor;
    var s := HashState();
    CardsMove(s);
    var t := Shuffle(s);
    assert t.rotor == 2 && t.ratchet == 1 && t.avalanche == 16;
    assert t.cards[16] == 239 && t.cards[2] == 244 && t.cards[227] == 28;
    assert t.cards[7] == 253 && t.cards[11] == 254 && t.cards[1] == 248 && t.cards[243] == 12 && t.cards[12] == 243;
    assert Mask(t, b) == Xor(Xor(b, 28), 243);
    XorAssociates(b, 28, 243);
    ConstantXor();
  }

  lemma ConstantXor()
    ensures Xor(28, 243) == 0xef
  {
    hide Xor;
    DigitsXor(0x1, 0xc, 0xf, 0x3, 0xe, 0xf);
  }

  /** Whatever the key, the cipher starts with a permutation. */
  lemma KeyedStateIsPermutation(key: seq<byte>)
    requires |key| < 256
    ensures IsPermutation(KeyedState(key).cards)
  {
    forall b: byte ensures multiset(KeyedState(key).cards)[b] == 1 {
      if |key| == 0 {
        CountDescending(256, b);
        assert Descending()[..256] == Descending();
      } else {
        CountAscending(256, b);
        assert Ascending()[..256] == Ascending();
        DealKeepsCards(Ascending(), |Ascending()| - 1, key, Feed(0, 0));
      }
    }
  }

  /** From key setup on, through any string, the deck is a permutation. */
  lemma CipherKeepsPermutation(key: seq<byte>, way: Way, text: seq<byte>)
    requires |key| < 256
    ensures IsPermutation(Run(way, KeyedState(key), text).0.cards)
  {
    KeyedStateIsPermutation(key);
    RunKeepsPermutation(way, KeyedState(key), text);
  }

  // ---------------------------------------------------------------- the source's loops

  method HashInit(state: GoaState)
    requires state.Valid()
    modifies state, state.cards
    ensures state.View() == HashState()
  {
    state.rotor := 1;
    state.ratchet := 3;
    state.avalanche := 5;
    state.lastPlain := 7;
    state.lastCipher := 11;
    var i, j := 0, 255;
    while i < 256
      modifies state.cards
      invariant 0 <= i <= 256 && j == 255 - i
      invariant forall k :: 0 <= k < i ==> state.cards[k] == 255 - k
    {
      state.cards[i] := j;
      i, j := i + 1, j - 1;
    }
    assert state.cards[..] == Descending();
  }

  method SwapCards(cards: array<byte>, i: byte, j: byte)
    requires cards.Length == 256
    modifies cards
    ensures cards[..] == Exchange(old(cards[..]), i, j)
  {
    var swaptemp := cards[i];
    cards[i] := cards[j];
    cards[j] := swaptemp;
  }

  /** The main loop of key setup, which touches nothing but the cards. */
  method DealFrom(state: GoaState, key: Key, top: byte, topMask: byte) returns (rsum: byte)
    requires state.Valid() && topMask == MaskFor(top)
    modifies state.cards
    ensures state.cards[..] == Deal(old(state.cards[..]), top, key, Feed(0, 0)).0
    ensures rsum == Deal(old(state.cards[..]), top, key, Feed(0, 0)).1.rsum
  {
    hide Deal, DrawPlace, MaskFor, BitAnd;
    var i, mask := top, topMask;
    var toswap, keypos := 0, 0;
    rsum := 0;
    while i > 0
      invariant 0 <= i <= top && 0 <= keypos < |key|
      invariant mask == MaskFor(i)
      invariant Deal(state.cards[..], i, key, Feed(rsum, keypos)) == Deal(old(state.cards[..]), top, key, Feed(0, 0))
    {
      DealStep(state.cards[..], i, key, Feed(rsum, keypos), mask);
      toswap, rsum, keypos := Keyrand(state, i, mask, key, rsum, keypos);
      SwapCards(state.cards, i, toswap);
      MaskStep(i);
      if BitAnd(i, i - 1) == 0 {
        mask := mask / 2;
      }
      i := i - 1;
    }
    DealNothing(state.cards[..], key, Feed(rsum, keypos));
  }

  method DealCards(state: GoaState, key: Key) returns (rsum: byte)
    requires state.Valid()
    modifies state.cards
    ensures state.cards[..] == DealAll(old(state.cards[..]), key).0
    ensures rsum == DealAll(old(state.cards[..]), key).1.rsum
  {
    hide Deal, MaskFor;
    var top := state.cards.Length - 1;
    MaskAtTop(top);
    rsum := DealFrom(state, key, top, top);
  }

  method CryptInit(state: GoaState, key: seq<byte>)
    requires state.Valid() && |key| < 256
    modifies state, state.cards
    ensures state.View() == KeyedState(key)
    ensures |key| > 0 ==>
      && state.rotor == state.cards[1] && state.ratchet == state.cards[3] && state.avalanche == state.cards[5]
      && state.lastPlain == state.cards[7] && state.lastCipher == state.cards[DealAll(Ascending(), key).1.rsum]
  {
    if |key| < 1 {
      HashInit(state);
      return;
    }
    forall n | 0 <= n < 256 {
      state.cards[n] := n;
    }
    assert state.cards[..] == Ascending();
    var rsum := DealCards(state, key);
    state.rotor := state.cards[1];
    state.ratchet := state.cards[3];
    state.avalanche := state.cards[5];
    state.lastPlain := state.cards[7];
    state.lastCipher := state.cards[rsum];
  }
}
