/**
 The GOA stream cipher of the server-browsing protocol.

 The source rewrites a deck of 256 cards and five index registers in place for every byte.  Here `State` is
 the value of such a state, `Shuffle` says what one byte does to it as three exchanges of cards, and class
 `GoaState` performs the source's five assignments on an array and is proved against it.
 */
module GoaCipher {
  import opened Bytes

  type Deck = cards: seq<byte> | |cards| == 256 witness seq(256, _ => 0)

  datatype State = State(
    cards: Deck, rotor: byte, ratchet: byte, avalanche: byte, lastPlain: byte, lastCipher: byte)

  /** Which of the two functions is applied to a byte. */
  datatype Way = Encipher | Decipher {
    function Reverse(): Way {
      if this == Encipher then Decipher else Encipher
    }
  }

  // ---------------------------------------------------------------- specification

  /** Every byte value lies on exactly one card. */
  ghost predicate IsPermutation(cards: Deck) {
    forall b: byte :: multiset(cards)[b] == 1
  }

  function Exchange(cards: Deck, i: byte, j: byte): Deck {
    cards[i := cards[j]][j := cards[i]]
  }

  /** Three exchanges that carry the card at `a` by way of `b` and `c` to `d`. */
  function Cycle(cards: Deck, a: byte, b: byte, c: byte, d: byte): Deck {
    Exchange(Exchange(Exchange(cards, a, b), b, c), c, d)
  }

  function Shuffle(s: State): State {
    var ratchet := Plus(s.ratchet, s.cards[s.rotor]);
    var rotor := Plus(s.rotor, 1);
    var cards := Cycle(s.cards, s.lastCipher, ratchet, s.lastPlain, rotor);
    State(cards, rotor, ratchet, Plus(s.avalanche, cards[s.cards[s.lastCipher]]), s.lastPlain, s.lastCipher)
  }

  /** Combines a byte with two cards picked by a shuffled state. */
  function Mask(s: State, b: byte): byte {
    var c := s.cards;
    Xor(Xor(b, c[Plus(c[s.avalanche], c[s.rotor])]),
        c[c[Plus(Plus(c[s.lastPlain], c[s.lastCipher]), c[s.ratchet])]])
  }

  function Step(way: Way, s: State, b: byte): (State, byte) {
    var t := Shuffle(s);
    var r := Mask(t, b);
    (match way
     case Encipher => t.(lastPlain := b, lastCipher := r)
     case Decipher => t.(lastPlain := r, lastCipher := b),
     r)
  }

  /** The state and the text after a whole string, one byte at a time. */
  function Run(way: Way, s: State, text: seq<byte>): (r: (State, seq<byte>))
    ensures |r.1| == |text|
  {
    if text == [] then (s, [])
    else
      var (t, out) := Run(way, s, text[..|text| - 1]);
      var (u, b) := Step(way, t, text[|text| - 1]);
      (u, out + [b])
  }

  // ---------------------------------------------------------------- where cards and registers go

  /** With the four places apart, each card moves one place on and every other card stays; sums are modulo 256. */
  lemma CardsMove(s: State)
    requires var a, b, c, d := s.lastCipher, (s.ratchet + s.cards[s.rotor]) % 256, s.lastPlain, (s.rotor + 1) % 256;
             a != b && a != c && a != d && b != c && b != d && c != d
    ensures var a, b, c, d := s.lastCipher, (s.ratchet + s.cards[s.rotor]) % 256, s.lastPlain, (s.rotor + 1) % 256;
            var t := Shuffle(s);
            && t.rotor == d && t.ratchet == b && t.lastPlain == c && t.lastCipher == a
            && t.cards[a] == s.cards[b] && t.cards[b] == s.cards[c]
            && t.cards[c] == s.cards[d] && t.cards[d] == s.cards[a]
            && (forall k: byte :: k !in {a, b, c, d} ==> t.cards[k] == s.cards[k])
            && t.avalanche == (s.avalanche + t.cards[s.cards[a]]) % 256
  {
    var b, d := (s.ratchet + s.cards[s.rotor]) % 256, (s.rotor + 1) % 256;
    CycleApart(s.cards, s.lastCipher, b, s.lastPlain, d);
  }

  lemma CycleApart(cards: Deck, a: byte, b: byte, c: byte, d: byte)
    requires a != b && a != c && a != d && b != c && b != d && c != d
    ensures var t := Cycle(cards, a, b, c, d);
            && t[a] == cards[b] && t[b] == cards[c] && t[c] == cards[d] && t[d] == cards[a]
            && forall k: byte :: k !in {a, b, c, d} ==> t[k] == cards[k]
  {}

  /** What the mask is on a deck in descending order: which registers are summed, and how often cards are looked up. */
  lemma MaskOnDescending(s: State, b: byte)
    requires forall i: byte :: s.cards[i] == 255 - i
    ensures Mask(s, b) == Xor(Xor(b, (s.avalanche + s.rotor + 1) % 256),
                              (765 - s.lastPlain - s.lastCipher - s.ratchet) % 256)
  {
    hide Xor, Plus;
    var c := s.cards;
    PlusWraps(c[s.avalanche], c[s.rotor]);
    PlusTwice(c[s.lastPlain], c[s.lastCipher], c[s.ratchet]);
  }

  /** In both ways the plain byte and the cipher byte go to their registers, and nothing else follows the shuffle. */
  lemma StepRegisters(s: State, plain: byte, cipher: byte)
    requires Mask(Shuffle(s), plain) == cipher
    ensures Step(Encipher, s, plain) == (Shuffle(s).(lastPlain := plain, lastCipher := cipher), cipher)
    ensures Step(Decipher, s, cipher) == (Shuffle(s).(lastPlain := plain, lastCipher := cipher), plain)
  {
    MaskInverse(Shuffle(s), plain);
  }

  // ---------------------------------------------------------------- the deck stays a permutation

  /** In a permutation every byte has one place, and no other. */
  lemma EachCardOnce(cards: Deck, b: byte) returns (i: byte)
    requires IsPermutation(cards)
    ensures cards[i] == b && forall j: byte :: cards[j] == b ==> j == i
  {
    assert multiset(cards)[b] == 1;
    assert b in multiset(cards);
    i :| 0 <= i < 256 && cards[i] == b;
    forall j: byte | cards[j] == b ensures j == i {
      if j != i {
        TwiceInDeck(cards, if i < j then i else j, if i < j then j else i);
      }
    }
  }

  lemma TwiceInDeck(cards: Deck, i: byte, j: byte)
    requires i < j && cards[i] == cards[j]
    ensures multiset(cards)[cards[i]] >= 2
  {
    var front, back := cards[..j], cards[j..];
    assert cards == front + back;
    assert front[i] in multiset(front) && back[0] in multiset(back);
  }

  lemma ExchangeKeepsMultiset(cards: Deck, i: byte, j: byte)
    ensures multiset(Exchange(cards, i, j)) == multiset(cards)
  {}

  lemma CycleKeepsMultiset(cards: Deck, a: byte, b: byte, c: byte, d: byte)
    ensures multiset(Cycle(cards, a, b, c, d)) == multiset(cards)
  {
    ExchangeKeepsMultiset(cards, a, b);
    ExchangeKeepsMultiset(Exchange(cards, a, b), b, c);
    ExchangeKeepsMultiset(Exchange(Exchange(cards, a, b), b, c), c, d);
  }

  /** No coincidence among the four positions can lose or duplicate a card. */
  lemma ShuffleKeepsPermutation(s: State)
    ensures multiset(Shuffle(s).cards) == multiset(s.cards)
    ensures IsPermutation(s.cards) ==> IsPermutation(Shuffle(s).cards)
  {
    CycleKeepsMultiset(s.cards, s.lastCipher, Plus(s.ratchet, s.cards[s.rotor]), s.lastPlain, Plus(s.rotor, 1));
  }

  lemma {:induction false} RunKeepsPermutation(way: Way, s: State, text: seq<byte>)
    requires IsPermutation(s.cards)
    ensures IsPermutation(Run(way, s, text).0.cards)
  {
    if text != [] {
      RunKeepsPermutation(way, s, text[..|text| - 1]);
      ShuffleKeepsPermutation(Run(way, s, text[..|text| - 1]).0);
    }
  }

  // ---------------------------------------------------------------- inverse functions

  lemma MaskInverse(s: State, b: byte)
    ensures Mask(s, Mask(s, b)) == b
  {
    var c := s.cards;
    var x := c[Plus(c[s.avalanche], c[s.rotor])];
    var y := c[c[Plus(Plus(c[s.lastPlain], c[s.lastCipher]), c[s.ratchet])]];
    XorAssociates(b, x, y);
    XorAssociates(Mask(s, b), x, y);
    XorCancels(b, Xor(x, y));
  }

  /** One byte forwards and back: the text returns and both states move alike. */
  lemma StepInverse(way: Way, s: State, b: byte)
    ensures Step(way.Reverse(), s, Step(way, s, b).1) == (Step(way, s, b).0, b)
  {
    MaskInverse(Shuffle(s), b);
  }

  /** From equal states, the reverse function undoes any string and ends in the same state. */
  lemma {:induction false} RunInverse(way: Way, s: State, text: seq<byte>)
    ensures Run(way.Reverse(), s, Run(way, s, text).1) == (Run(way, s, text).0, text)
  {
    hide Step;
    if text != [] {
      var init := text[..|text| - 1];
      var (t, out) := Run(way, s, init);
      var (u, b) := Step(way, t, text[|text| - 1]);
      RunInverse(way, s, init);
      StepInverse(way, t, text[|text| - 1]);
      assert (out + [b])[..|text| - 1] == out;
      assert text == init + [text[|text| - 1]];
    }
  }

  /** Each state gives a bijection on the strings of every length. */
  lemma RunBijective(way: Way, s: State, a: seq<byte>, b: seq<byte>)
    ensures Run(way, s, a).1 == Run(way, s, b).1 <==> a == b
    ensures exists x :: |x| == |b| && Run(way, s, x).1 == b
  {
    RunInverse(way, s, a);
    RunInverse(way, s, b);
    RunInverse(way.Reverse(), s, b);
    var x := Run(way.Reverse(), s, b).1;
    assert |x| == |b| && Run(way, s, x).1 == b;
  }

  /** A string may be processed in pieces; hence what comes out of a prefix depends on that prefix alone. */
  lemma {:induction false} RunConcat(way: Way, s: State, a: seq<byte>, b: seq<byte>)
    ensures Run(way, s, a + b).0 == Run(way, Run(way, s, a).0, b).0
    ensures Run(way, s, a + b).1 == Run(way, s, a).1 + Run(way, Run(way, s, a).0, b).1
  {
    hide Step;
    if b == [] {
      assert a + b == a;
    } else {
      var init := b[..|b| - 1];
      RunConcat(way, s, a, init);
      assert (a + b)[..|a + b| - 1] == a + init;
      assert (a + b)[|a + b| - 1] == b[|b| - 1];
    }
  }

  lemma RunNothing(way: Way, s: State, text: seq<byte>)
    ensures Run(way, s, text[..0]) == (s, [])
  {}

  lemma RunNext(way: Way, s: State, text: seq<byte>, i: nat)
    requires i < |text|
    ensures var (t, out) := Run(way, s, text[..i]);
            Run(way, s, text[..i + 1]) == (Step(way, t, text[i]).0, out + [Step(way, t, text[i]).1])
  {
    assert text[..i + 1] == text[..i] + [text[i]];
    RunSnoc(way, s, text[..i], text[i]);
  }

  lemma RunSnoc(way: Way, s: State, text: seq<byte>, b: byte)
    ensures Run(way, s, text + [b]) ==
            (Step(way, Run(way, s, text).0, b).0, Run(way, s, text).1 + [Step(way, Run(way, s, text).0, b).1])
  {}

  // ---------------------------------------------------------------- the source's state

  /**
   The moving hole: four assignments that pass a card around through the places a, b, c and d, with the first
   card held aside and put back last, make the same deck as three exchanges, whichever places coincide.
   */
  lemma FourWritesAreACycle(cards: Deck, a: byte, b: byte, c: byte, d: byte)
    ensures var one: Deck := cards[a := cards[b]];
            var two: Deck := one[b := one[c]];
            var three: Deck := two[c := two[d]];
            three[d := cards[a]] == Cycle(cards, a, b, c, d)
  {
    var held := cards[a];
    var one: Deck := cards[a := cards[b]];
    var two: Deck := one[b := one[c]];
    HoleMoves(cards, a, b, held);
    HoleMoves(one, b, c, held);
    HoleMoves(two, c, d, held);
    assert cards[a := held] == cards;
  }

  /** Filling a hole from elsewhere moves the hole: the held card would now go where the filling came from. */
  lemma HoleMoves(cards: Deck, hole: byte, from: byte, held: byte)
    ensures cards[hole := cards[from]][from := held] == Exchange(cards[hole := held], hole, from)
  {}

  /** The four card assignments that the source writes out in each of its four functions. */
  method PassCards(cards: array<byte>, a: byte, b: byte, c: byte, d: byte)
    requires cards.Length == 256
    modifies cards
    ensures cards[..] == Cycle(old(cards[..]), a, b, c, d)
    ensures cards[d] == old(cards[a])
  {
    FourWritesAreACycle(cards[..], a, b, c, d);
    var swaptemp := cards[a];
    cards[a] := cards[b];
    cards[b] := cards[c];
    cards[c] := cards[d];
    cards[d] := swaptemp;
  }

  /** The buffer with `out` written over it from position `start`. */
  function Overwrite(buffer: seq<byte>, start: nat, out: seq<byte>): (r: seq<byte>)
    requires start + |out| <= |buffer|
    ensures |r| == |buffer|
  {
    buffer[..start] + out + buffer[start + |out|..]
  }

  lemma OverwriteNothing(buffer: seq<byte>, start: nat)
    requires start <= |buffer|
    ensures Overwrite(buffer, start, []) == buffer
  {}

  lemma OverwriteRest(buffer: seq<byte>, start: nat, out: seq<byte>)
    requires start + |out| == |buffer|
    ensures Overwrite(buffer, start, out) == buffer[..start] + out
  {}

  lemma OverwriteAhead(buffer: seq<byte>, start: nat, out: seq<byte>, i: nat)
    requires start + |out| <= i < |buffer|
    ensures Overwrite(buffer, start, out)[i] == buffer[i]
  {}

  lemma OverwriteNext(buffer: seq<byte>, start: nat, out: seq<byte>, b: byte)
    requires start + |out| < |buffer|
    ensures Overwrite(buffer, start, out)[start + |out| := b] == Overwrite(buffer, start, out + [b])
  {}

  class GoaState {
    const cards: array<byte>
    var rotor: byte
    var ratchet: byte
    var avalanche: byte
    var lastPlain: byte
    var lastCipher: byte

    ghost predicate Valid() {
      cards.Length == 256
    }

    ghost function View(): State
      requires Valid()
      reads this, cards
    {
      State(cards[..], rotor, ratchet, avalanche, lastPlain, lastCipher)
    }

    constructor ()
      ensures Valid() && fresh(cards)
    {
      cards := new byte[256](_ => 0);
      rotor, ratchet, avalanche, lastPlain, lastCipher := 0, 0, 0, 0, 0;
    }

    method EncryptByte(b: byte) returns (r: byte)
      requires Valid()
      modifies this, cards
      ensures (View(), r) == Step(Encipher, old(View()), b)
    {
      ratchet := Plus(ratchet, cards[rotor]);
      rotor := Plus(rotor, 1);
      var swaptemp := cards[lastCipher];
      PassCards(cards, lastCipher, ratchet, lastPlain, rotor);
      avalanche := Plus(avalanche, cards[swaptemp]);
      assert View() == Shuffle(old(View()));
      lastCipher := Xor(Xor(b, cards[Plus(cards[avalanche], cards[rotor])]),
        cards[cards[Plus(Plus(cards[lastPlain], cards[lastCipher]), cards[ratchet])]]);
      lastPlain := b;
      r := lastCipher;
    }

    method DecryptByte(b: byte) returns (r: byte)
      requires Valid()
      modifies this, cards
      ensures (View(), r) == Step(Decipher, old(View()), b)
    {
      ratchet := Plus(ratchet, cards[rotor]);
      rotor := Plus(rotor, 1);
      var swaptemp := cards[lastCipher];
      PassCards(cards, lastCipher, ratchet, lastPlain, rotor);
      avalanche := Plus(avalanche, cards[swaptemp]);
      assert View() == Shuffle(old(View()));
      lastPlain := Xor(Xor(b, cards[Plus(cards[avalanche], cards[rotor])]),
        cards[cards[Plus(Plus(cards[lastPlain], cards[lastCipher]), cards[ratchet])]]);
      lastCipher := b;
      r := lastPlain;
    }

    /** Enciphers `len` bytes of the buffer in place, with the registers held in locals. */
    method Encrypt(bp: array<byte>, start: nat, len: nat)
      requires Valid() && bp != cards && start + len <= bp.Length
      modifies this, cards, bp
      ensures View() == Run(Encipher, old(View()), old(bp[start..start + len])).0
      ensures bp[..] == Overwrite(old(bp[..]), start, Run(Encipher, old(View()), old(bp[start..start + len])).1)
    {
      hide Run, Cycle, Xor, Overwrite;
      ghost var s, buffer, text := View(), bp[..], bp[start..start + len];
      ghost var out: seq<byte> := [];
      var r, t, a, p, c := rotor, ratchet, avalanche, lastPlain, lastCipher;
      var i := 0;
      RunNothing(Encipher, s, text);
      OverwriteNothing(buffer, start);
      while i < len
        invariant 0 <= i <= len && |out| == i
        invariant bp[..] == Overwrite(buffer, start, out)
        invariant (State(cards[..], r, t, a, p, c), out) == Run(Encipher, s, text[..i])
      {
        ghost var before := State(cards[..], r, t, a, p, c);
        OverwriteAhead(buffer, start, out, start + i);
        var plain := bp[start + i];
        t := Plus(t, cards[r]);
        r := Plus(r, 1);
        var swaptemp := cards[c];
        PassCards(cards, c, t, p, r);
        a := Plus(a, cards[swaptemp]);
        assert State(cards[..], r, t, a, p, c) == Shuffle(before);
        c := Xor(Xor(plain, cards[Plus(cards[a], swaptemp)]), cards[cards[Plus(Plus(cards[p], cards[c]), cards[t])]]);
        p := plain;
        assert (State(cards[..], r, t, a, p, c), c) == Step(Encipher, before, plain);
        bp[start + i] := c;
        RunNext(Encipher, s, text, i);
        OverwriteNext(buffer, start, out, bp[start + i]);
        out := out + [bp[start + i]];
        i := i + 1;
      }
      rotor, ratchet, avalanche, lastPlain, lastCipher := r, t, a, p, c;
      assert text[..len] == text;
    }

    /** Deciphers `len` bytes of the buffer in place, with the registers held in locals. */
    method Decrypt(bp: array<byte>, start: nat, len: nat)
      requires Valid() && bp != cards && start + len <= bp.Length
      modifies this, cards, bp
      ensures View() == Run(Decipher, old(View()), old(bp[start..start + len])).0
      ensures bp[..] == Overwrite(old(bp[..]), start, Run(Decipher, old(View()), old(bp[start..start + len])).1)
    {
      hide Run, Cycle, Xor, Overwrite;
      ghost var s, buffer, text := View(), bp[..], bp[start..start + len];
      ghost var out: seq<byte> := [];
      var r, t, a, p, c := rotor, ratchet, avalanche, lastPlain, lastCipher;
      var i := 0;
      RunNothing(Decipher, s, text);
      OverwriteNothing(buffer, start);
      while i < len
        invariant 0 <= i <= len && |out| == i
        invariant bp[..] == Overwrite(buffer, start, out)
        invariant (State(cards[..], r, t, a, p, c), out) == Run(Decipher, s, text[..i])
      {
        ghost var before := State(cards[..], r, t, a, p, c);
        OverwriteAhead(buffer, start, out, start + i);
        var cipher := bp[start + i];
        t := Plus(t, cards[r]);
        r := Plus(r, 1);
        var swaptemp := cards[c];
        PassCards(cards, c, t, p, r);
        a := Plus(a, cards[swaptemp]);
        assert State(cards[..], r, t, a, p, c) == Shuffle(before);
        p := Xor(Xor(cipher, cards[Plus(cards[a], cards[r])]), cards[cards[Plus(Plus(cards[p], cards[c]), cards[t])]]);
        c := cipher;
        assert (State(cards[..], r, t, a, p, c), p) == Step(Decipher, before, cipher);
        bp[start + i] := p;
        RunNext(Decipher, s, text, i);
        OverwriteNext(buffer, start, out, bp[start + i]);
        out := out + [bp[start + i]];
        i := i + 1;
      }
      rotor, ratchet, avalanche, lastPlain, lastCipher := r, t, a, p, c;
      assert text[..len] == text;
    }
  }
}
