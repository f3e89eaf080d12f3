/**
 The end-of-game report: a flat list of names and values, first those of the game, then, from the first "auth_"
 name on, those of the players, whose names end in an underscore and the index of the player.
 */
module GameReport {
  import opened Bytes
  import opened GameSpyText
  import opened Wrappers

  const UNDERSCORE: byte := 0x5f
  const MINUS: byte := 0x2d
  const PLUS: byte := 0x2b

  /** "auth_" */
  const AUTH: Text := [0x61, 0x75, 0x74, 0x68, UNDERSCORE]

  // ---------------------------------------------------------------- std::stoi and std::to_string

  predicate IsDigit(b: byte) {
    0x30 <= b <= 0x39
  }

  predicate IsSpaceByte(b: byte) {
    b == 0x20 || 0x09 <= b <= 0x0d
  }

  function SkipSpaces(t: Text): Text {
    if t != [] && IsSpaceByte(t[0]) then SkipSpaces(t[1..]) else t
  }

  function DigitCount(t: Text): (n: nat)
    ensures n <= |t| && forall i :: 0 <= i < n ==> IsDigit(t[i])
    ensures n < |t| ==> !IsDigit(t[n])
  {
    if t != [] && IsDigit(t[0]) then 1 + DigitCount(t[1..]) else 0
  }

  function NatOf(digits: Text): nat
    requires forall i :: 0 <= i < |digits| ==> IsDigit(digits[i])
  {
    if digits == [] then 0
    else
      assert IsDigit(digits[|digits| - 1]);
      var last: int := digits[|digits| - 1];
      NatOf(digits[..|digits| - 1]) * 10 + (last - 0x30)
  }

  function InInt32(v: int): Option<int> {
    if -0x8000_0000 <= v < 0x8000_0000 then Some(v) else None
  }

  /** The digits at the front of the text as a number with the given sign. */
  function Digits(d: Text, negative: bool): Option<int> {
    var n := DigitCount(d);
    if n == 0 then None
    else
      var m: int := NatOf(d[..n]);
      InInt32(if negative then -m else m)
  }

  /** The number at the front of the text; None where the library throws. */
  function Stoi(t: Text): Option<int> {
    var s := SkipSpaces(t);
    if s != [] && (s[0] == MINUS || s[0] == PLUS) then Digits(s[1..], s[0] == MINUS) else Digits(s, false)
  }

  function DecimalNat(n: nat): (t: Text)
    ensures t != [] && forall i :: 0 <= i < |t| ==> IsDigit(t[i])
  {
    if n < 10 then [0x30 + n] else DecimalNat(n / 10) + [0x30 + n % 10]
  }

  function Decimal(v: int): Text {
    if v < 0 then [MINUS] + DecimalNat(-v) else DecimalNat(v)
  }

  lemma {:induction false} NatOfDecimal(n: nat)
    ensures NatOf(DecimalNat(n)) == n
  {
    if n >= 10 {
      NatOfDecimal(n / 10);
      var t := DecimalNat(n);
      assert t[..|t| - 1] == DecimalNat(n / 10);
    } else {
      assert NatOf([0x30 + n][..0]) == 0;
    }
  }

  lemma DigitCountAll(t: Text)
    requires forall i :: 0 <= i < |t| ==> IsDigit(t[i])
    ensures DigitCount(t) == |t|
  {}

  lemma NothingToSkip(t: Text)
    requires t != [] && !IsSpaceByte(t[0])
    ensures SkipSpaces(t) == t
  {}

  lemma StoiDecimal(v: int)
    requires -0x8000_0000 <= v < 0x8000_0000
    ensures Stoi(Decimal(v)) == Some(v)
  {
    var n: nat := if v < 0 then -v else v;
    var d, t := DecimalNat(n), Decimal(v);
    NatOfDecimal(n);
    DigitCountAll(d);
    assert IsDigit(d[0]);
    NothingToSkip(t);
    hide DecimalNat, NatOf, DigitCount, SkipSpaces;
    assert d[..|d|] == d;
    if v < 0 {
      assert t[1..] == d;
    }
  }

  /** Spaces in front make no difference. */
  lemma StoiSkips(spaces: Text, s: Text)
    requires forall i :: 0 <= i < |spaces| ==> IsSpaceByte(spaces[i])
    requires s != [] && !IsSpaceByte(s[0])
    ensures Stoi(spaces + s) == Stoi(s)
  {
    SkipsSpaces(spaces, s);
    NothingToSkip(s);
    hide SkipSpaces, IsSpaceByte, DigitCount;
  }

  lemma StoiUnsigned(s: Text)
    requires s != [] && IsDigit(s[0])
    ensures Stoi(s) == Digits(s, false)
  {
    NothingToSkip(s);
    hide SkipSpaces, Digits;
  }

  lemma StoiSigned(sign: byte, s: Text)
    requires sign == MINUS || sign == PLUS
    ensures Stoi([sign] + s) == Digits(s, sign == MINUS)
  {
    var t := [sign] + s;
    assert t[1..] == s;
    NothingToSkip(t);
    hide SkipSpaces, Digits;
  }

  predicate AllDigits(d: Text) {
    forall i :: 0 <= i < |d| ==> IsDigit(d[i])
  }

  lemma DigitsRead(d: Text, rest: Text, negative: bool)
    requires d != [] && AllDigits(d) && (rest == [] || !IsDigit(rest[0]))
    ensures var m: int := NatOf(d); Digits(d + rest, negative) == InInt32(if negative then -m else m)
  {
    CountsDigits(d, rest);
    SumFront(d, rest);
    hide DigitCount, NatOf, IsDigit, InInt32;
  }

  lemma SumFront(a: Text, b: Text)
    ensures (a + b)[..|a|] == a
  {}

  /** A number may have a sign and may stand before anything but a digit; out of range it is not read at all. */
  lemma StoiReads(n: nat, rest: Text)
    requires rest == [] || !IsDigit(rest[0])
    ensures Stoi(DecimalNat(n) + rest) == Stoi(Ascii("+") + (DecimalNat(n) + rest))
    ensures Stoi(DecimalNat(n) + rest) == if n <= 2147483647 then Some(n) else None
    ensures Stoi(Ascii("-") + (DecimalNat(n) + rest)) == if n <= 2147483648 then Some(0 - n) else None
  {
    var d := DecimalNat(n);
    var digits := d + rest;
    assert Ascii("-") == [MINUS] && Ascii("+") == [PLUS];
    assert digits[0] == d[0] && IsDigit(d[0]);
    NatOfDecimal(n);
    DigitsRead(d, rest, false);
    DigitsRead(d, rest, true);
    hide DecimalNat, NatOf, Digits, Stoi, Ascii, IsDigit;
    StoiUnsigned(digits);
    StoiSigned(PLUS, digits);
    StoiSigned(MINUS, digits);
  }

  lemma {:induction false} SkipsSpaces(spaces: Text, s: Text)
    requires forall i :: 0 <= i < |spaces| ==> IsSpaceByte(spaces[i])
    requires s != [] && !IsSpaceByte(s[0])
    ensures SkipSpaces(spaces + s) == s
  {
    if spaces == [] {
      assert spaces + s == s;
    } else {
      assert (spaces + s)[1..] == spaces[1..] + s;
      SkipsSpaces(spaces[1..], s);
    }
  }

  lemma {:induction false} CountsDigits(d: Text, rest: Text)
    requires AllDigits(d) && (rest == [] || !IsDigit(rest[0]))
    ensures DigitCount(d + rest) == |d|
  {
    if d == [] {
      assert d + rest == rest;
    } else {
      assert (d + rest)[1..] == d[1..] + rest;
      CountsDigits(d[1..], rest);
    }
  }

  /** Numbers are written in tens, and the space and the tabulator are spaces. */
  lemma Numerals()
    ensures DecimalNat(10) == Ascii("10") && DecimalNat(987) == Ascii("987")
    ensures IsSpaceByte(' ' as int) && IsSpaceByte('\t' as int) && IsSpaceByte('\n' as int)
    ensures forall b: byte :: IsDigit(b) <==> '0' as int <= b <= '9' as int
  {}

  // ---------------------------------------------------------------- names

  /** The place of the last underscore, or -1. */
  function LastUnderscore(t: Text): (r: int)
    ensures -1 <= r < |t|
    ensures r >= 0 ==> t[r] == UNDERSCORE
    ensures forall i :: r < i < |t| ==> t[i] != UNDERSCORE
  {
    if t == [] then -1
    else if t[|t| - 1] == UNDERSCORE then |t| - 1
    else LastUnderscore(t[..|t| - 1])
  }

  /** The key and the player index of a name; a name without a readable index counts as index -1. */
  function KeyAndIndex(name: Text): (Text, int) {
    var pos := LastUnderscore(name);
    if pos < 0 then ([], -1)
    else
      match Stoi(name[pos + 1..])
      case None => (name[..pos], -1)
      case Some(v) => (name[..pos], v)
  }

  method GetKeyAndPlayerIndex(input: Text) returns (found: bool, key: Text, playerIndex: int)
    ensures (key, playerIndex) == KeyAndIndex(input)
    ensures found <==> LastUnderscore(input) >= 0 && Stoi(input[LastUnderscore(input) + 1..]).Some?
  {
    hide LastUnderscore, Stoi;
    playerIndex := -1;
    key := [];
    var pos := LastUnderscore(input);
    if pos < 0 {
      return false, key, playerIndex;
    }
    key := input[..pos];
    match Stoi(input[pos + 1..]) {
      case None => return false, key, playerIndex;
      case Some(v) => playerIndex := v;
    }
    return true, key, playerIndex;
  }

  function IndexedName(key: Text, index: int): Text {
    key + [UNDERSCORE] + Decimal(index)
  }

  lemma {:induction false} LastUnderscoreIn(a: Text, b: Text)
    requires UNDERSCORE !in b
    ensures LastUnderscore(a + [UNDERSCORE] + b) == |a|
  {
    var t := a + [UNDERSCORE] + b;
    if b != [] {
      var init := b[..|b| - 1];
      assert t[..|t| - 1] == a + [UNDERSCORE] + init;
      assert t[|t| - 1] == b[|b| - 1] && b[|b| - 1] in b;
      LastUnderscoreIn(a, init);
    }
  }

  /** The key itself may hold underscores: only the last one counts. */
  lemma NameReadBack(key: Text, index: int)
    requires -0x8000_0000 <= index < 0x8000_0000
    ensures KeyAndIndex(IndexedName(key, index)) == (key, index)
  {
    var d := Decimal(index);
    forall b | b in d ensures b != UNDERSCORE {
      var i :| 0 <= i < |d| && d[i] == b;
      assert IsDigit(b) || b == MINUS;
    }
    LastUnderscoreIn(key, d);
    StoiDecimal(index);
    assert IndexedName(key, index)[|key| + 1..] == d;
    assert IndexedName(key, index)[..|key|] == key;
  }

  /** Names as they come: with an index, with a key that ends in no number, and without an underscore. */
  lemma NamesOfKinds()
    ensures KeyAndIndex(Ascii("auth_0")) == (Ascii("auth"), 0)
    ensures KeyAndIndex(Ascii("map_id")) == (Ascii("map"), -1)
    ensures KeyAndIndex(Ascii("kills")) == ([], -1)
  {
    NameWithIndex();
    NameWithoutIndex();
    NameWithoutUnderscore();
    hide KeyAndIndex, Ascii;
  }

  lemma NameWithIndex()
    ensures KeyAndIndex(Ascii("auth_0")) == (Ascii("auth"), 0)
  {
    assert Ascii("auth_0") == IndexedName(Ascii("auth"), 0);
    NameReadBack(Ascii("auth"), 0);
    hide KeyAndIndex;
  }

  lemma NameWithoutIndex()
    ensures KeyAndIndex(Ascii("map_id")) == (Ascii("map"), -1)
  {
    var name, key, end := Ascii("map_id"), Ascii("map"), Ascii("id");
    assert name == key + [UNDERSCORE] + end;
    assert !IsSpaceByte(end[0]) && !IsDigit(end[0]) && end[0] != MINUS && end[0] != PLUS;
    assert UNDERSCORE !in end;
    hide Ascii;
    LastUnderscoreIn(key, end);
    NothingToSkip(end);
    hide LastUnderscore, SkipSpaces;
    assert name[|key| + 1..] == end && name[..|key|] == key;
    assert DigitCount(end) == 0;
  }

  lemma NameWithoutUnderscore()
    ensures KeyAndIndex(Ascii("kills")) == ([], -1)
  {
    var name := Ascii("kills");
    assert UNDERSCORE !in name;
    hide Ascii, Stoi;
    assert LastUnderscore(name) < 0;
  }

  // ---------------------------------------------------------------- runs of equal index

  /** One name and its value, the name split into key and index. */
  datatype Entry = Entry(index: int, key: Text, value: Text)

  /** How many entries from the front on have the given index. */
  function RunLength(es: seq<Entry>, index: int): (n: nat)
    ensures n <= |es|
    ensures forall i :: 0 <= i < n ==> es[i].index == index
    ensures n < |es| ==> es[n].index != index
  {
    if es == [] || es[0].index != index then 0 else 1 + RunLength(es[1..], index)
  }

  /** The maximal runs of equal index. */
  function Runs(es: seq<Entry>): seq<seq<Entry>> {
    if es == [] then []
    else
      var n := RunLength(es, es[0].index);
      [es[..n]] + Runs(es[n..])
  }

  function Flatten(runs: seq<seq<Entry>>): seq<Entry> {
    if runs == [] then [] else runs[0] + Flatten(runs[1..])
  }

  predicate Uniform(run: seq<Entry>) {
    forall i :: 0 <= i < |run| ==> run[i].index == run[0].index
  }

  predicate AllUniform(runs: seq<seq<Entry>>) {
    forall r :: r in runs ==> Uniform(r)
  }

  /** Every run holds an entry, and neighbours differ in index. */
  predicate Separated(runs: seq<seq<Entry>>) {
    runs == [] ||
    (runs[0] != [] && Separated(runs[1..]) &&
     (|runs| > 1 ==> runs[1] == [] || runs[0][0].index != runs[1][0].index))
  }

  lemma FlattenCons(head: seq<Entry>, rest: seq<seq<Entry>>)
    ensures Flatten([head] + rest) == head + Flatten(rest)
  {}

  lemma SeparatedCons(head: seq<Entry>, rest: seq<seq<Entry>>)
    ensures Separated([head] + rest) <==>
            head != [] && Separated(rest) && (rest != [] ==> rest[0] == [] || head[0].index != rest[0][0].index)
  {}

  /** Every entry goes to exactly one run, in order, and the runs cannot be made longer. */
  lemma {:induction false} RunsPartition(es: seq<Entry>)
    ensures Flatten(Runs(es)) == es
    ensures Separated(Runs(es)) && AllUniform(Runs(es))
    ensures es != [] ==> Runs(es) != [] && Runs(es)[0] != [] && Runs(es)[0][0] == es[0]
    decreases |es|
  {
    if es != [] {
      var n := RunLength(es, es[0].index);
      var head, rest := es[..n], Runs(es[n..]);
      RunsPartition(es[n..]);
      FlattenCons(head, rest);
      SeparatedCons(head, rest);
    }
  }

  lemma RunBoundary(head: seq<Entry>, tail: seq<Entry>)
    requires head != [] && Uniform(head)
    ensures RunLength(head + tail, head[0].index) >= |head|
    ensures RunLength(head + tail, head[0].index) == |head| <==>
            tail == [] || tail[0].index != head[0].index
  {
    var es := head + tail;
    assert forall i :: 0 <= i < |head| ==> es[i] == head[i];
    assert tail != [] ==> es[|head|] == tail[0];
  }

  lemma FlattenFirst(runs: seq<seq<Entry>>)
    requires Separated(runs)
    ensures runs == [] <==> Flatten(runs) == []
    ensures runs != [] ==> Flatten(runs)[0] == runs[0][0]
  {}

  /** Runs of one index each are recovered from their entries exactly when they are separated. */
  lemma {:induction false} RunsRecovered(runs: seq<seq<Entry>>)
    requires AllUniform(runs)
    ensures Runs(Flatten(runs)) == runs <==> Separated(runs)
  {
    RunsPartition(Flatten(runs));
    if Separated(runs) {
      SeparatedRunsRecovered(runs);
    }
  }

  lemma {:induction false} SeparatedRunsRecovered(runs: seq<seq<Entry>>)
    requires AllUniform(runs) && Separated(runs)
    ensures Runs(Flatten(runs)) == runs
  {
    if runs != [] {
      var head, rest := runs[0], runs[1..];
      var tail := Flatten(rest);
      assert Uniform(head);
      SeparatedRunsRecovered(rest);
      FlattenFirst(rest);
      RunBoundary(head, tail);
      assert (head + tail)[..|head|] == head && (head + tail)[|head|..] == tail;
      assert runs == [head] + rest;
    }
  }

  // ---------------------------------------------------------------- the report

  /** What is offered to the setters of one game or of one player: keys and values in order. */
  type Settings = seq<(Text, Text)>

  /** The parameters two by two; an odd one at the end is ignored. */
  function Pairs(parameter: seq<Text>): Settings {
    if |parameter| < 2 then [] else [(parameter[0], parameter[1])] + Pairs(parameter[2..])
  }

  predicate AuthAt(name: Text, k: int) {
    0 <= k <= |name| - 5 && name[k..k + 5] == AUTH
  }

  predicate StartsPlayers(name: Text) {
    exists k | 0 <= k <= |name| :: AuthAt(name, k)
  }

  function GameLength(pairs: Settings): (n: nat)
    ensures n <= |pairs|
    ensures forall i :: 0 <= i < n ==> !StartsPlayers(pairs[i].0)
    ensures n < |pairs| ==> StartsPlayers(pairs[n].0)
  {
    if pairs == [] || StartsPlayers(pairs[0].0) then 0 else 1 + GameLength(pairs[1..])
  }

  function EntryOf(pair: (Text, Text)): Entry {
    var (key, index) := KeyAndIndex(pair.0);
    Entry(index, key, pair.1)
  }

  function Entries(pairs: Settings): (r: seq<Entry>)
    ensures |r| == |pairs| && forall i :: 0 <= i < |pairs| ==> r[i] == EntryOf(pairs[i])
  {
    seq(|pairs|, i requires 0 <= i < |pairs| => EntryOf(pairs[i]))
  }

  function SettingsOf(run: seq<Entry>): (r: Settings)
    ensures |r| == |run|
  {
    seq(|run|, i requires 0 <= i < |run| => (run[i].key, run[i].value))
  }

  function AllSettingsOf(runs: seq<seq<Entry>>): (r: seq<Settings>)
    ensures |r| == |runs|
  {
    seq(|runs|, i requires 0 <= i < |runs| => SettingsOf(runs[i]))
  }

  datatype Report = Report(game: Settings, players: seq<Settings>)

  function ReportOf(parameter: seq<Text>): Report {
    var pairs := Pairs(parameter);
    var n := GameLength(pairs);
    Report(pairs[..n], AllSettingsOf(Runs(Entries(pairs[n..]))))
  }

  /** The players start at "auth_", wherever it stands in a name, and at no name without an underscore. */
  lemma PlayersStartAtAuth(before: Text, after: Text)
    ensures StartsPlayers(before + Ascii("auth_") + after)
    ensures UNDERSCORE !in after ==> !StartsPlayers(after)
  {
    var name := before + Ascii("auth_") + after;
    assert Ascii("auth_") == AUTH;
    assert name[|before|..|before| + 5] == AUTH;
    assert AuthAt(name, |before|);
    forall k ensures AuthAt(after, k) ==> UNDERSCORE in after {
      if AuthAt(after, k) {
        assert after[k..k + 5][4] == after[k + 4];
      }
    }
  }

  /** The pairs still to be read at an offset. */
  function Rest(parameter: seq<Text>, offset: nat): Settings {
    if offset <= |parameter| then Pairs(parameter[offset..]) else []
  }

  lemma RestStep(parameter: seq<Text>, offset: nat)
    ensures |parameter| > offset + 1 ==>
      Rest(parameter, offset) == [(parameter[offset], parameter[offset + 1])] + Rest(parameter, offset + 2)
    ensures |parameter| <= offset + 1 ==> Rest(parameter, offset) == []
  {}

  lemma EntriesStep(parameter: seq<Text>, offset: nat)
    ensures |parameter| > offset + 1 ==>
      Entries(Rest(parameter, offset)) ==
      [EntryOf((parameter[offset], parameter[offset + 1]))] + Entries(Rest(parameter, offset + 2))
    ensures |parameter| <= offset + 1 ==> Entries(Rest(parameter, offset)) == []
  {
    hide Rest;
    RestStep(parameter, offset);
    if |parameter| > offset + 1 {
      EntriesCons((parameter[offset], parameter[offset + 1]), Rest(parameter, offset + 2));
    }
  }

  lemma EntriesCons(pair: (Text, Text), pairs: Settings)
    ensures Entries([pair] + pairs) == [EntryOf(pair)] + Entries(pairs)
  {}

  /** The first loop: the settings of the game, up to the first name that starts the players. */
  method ReadGame(parameter: seq<Text>, start: nat) returns (game: Settings, offset: nat)
    ensures game == Rest(parameter, start)[..GameLength(Rest(parameter, start))]
    ensures Rest(parameter, offset) == Rest(parameter, start)[GameLength(Rest(parameter, start))..]
  {
    hide Rest;
    offset := start;
    game := [];
    ghost var pairs := Rest(parameter, start);
    while |parameter| > offset + 1
      invariant |game| <= |pairs| && game == pairs[..|game|]
      invariant Rest(parameter, offset) == pairs[|game|..]
      invariant forall i :: 0 <= i < |game| ==> !StartsPlayers(pairs[i].0)
      decreases |parameter| - offset
    {
      RestStep(parameter, offset);
      var key := parameter[offset];
      var value := parameter[offset + 1];
      assert pairs[|game|] == pairs[|game|..][0] == (key, value);
      assert pairs[|game|..][1..] == pairs[|game| + 1..];
      if StartsPlayers(key) {
        break;
      }
      game := game + [(key, value)];
      offset := offset + 2;
    }
    RestStep(parameter, offset);
    assert |game| == GameLength(pairs);
  }

  /** The inner loop: the settings of one player, up to the first name with another index. */
  method ReadPlayer(parameter: seq<Text>, start: nat) returns (gsplayer: Settings, offset: nat)
    requires |parameter| > start + 1
    ensures offset > start
    ensures var es := Entries(Rest(parameter, start));
            es != [] && gsplayer == SettingsOf(es[..RunLength(es, es[0].index)]) &&
            Entries(Rest(parameter, offset)) == es[RunLength(es, es[0].index)..]
  {
    hide Rest, Entries, KeyAndIndex, RunLength;
    offset := start;
    gsplayer := [];
    ghost var es := Entries(Rest(parameter, start));
    EntriesStep(parameter, start);
    var found, key, playerIndex := GetKeyAndPlayerIndex(parameter[offset]);
    var previousPlayerIndex := playerIndex;
    while |parameter| > offset + 1
      invariant offset == start + 2 * |gsplayer| && |gsplayer| <= |es|
      invariant gsplayer == SettingsOf(es[..|gsplayer|])
      invariant Entries(Rest(parameter, offset)) == es[|gsplayer|..]
      invariant forall i :: 0 <= i < |gsplayer| ==> es[i].index == previousPlayerIndex
      decreases |parameter| - offset
    {
      EntriesStep(parameter, offset);
      SettingsStep(es, |gsplayer|, EntryOf((parameter[offset], parameter[offset + 1])),
                   Entries(Rest(parameter, offset + 2)));
      found, key, playerIndex := GetKeyAndPlayerIndex(parameter[offset]);
      var value := parameter[offset + 1];
      if previousPlayerIndex != playerIndex {
        break;
      }
      gsplayer := gsplayer + [(key, value)];
      offset := offset + 2;
    }
    EntriesStep(parameter, offset);
    RunLengthIs(es, previousPlayerIndex, |gsplayer|);
  }

  lemma SettingsStep(es: seq<Entry>, n: nat, e: Entry, later: seq<Entry>)
    requires n <= |es| && es[n..] == [e] + later
    ensures n < |es| && es[n] == e && es[n + 1..] == later
    ensures SettingsOf(es[..n + 1]) == SettingsOf(es[..n]) + [(e.key, e.value)]
  {}

  lemma {:induction false} RunLengthIs(es: seq<Entry>, index: int, n: nat)
    requires n <= |es|
    requires forall i :: 0 <= i < n ==> es[i].index == index
    requires n < |es| ==> es[n].index != index
    ensures RunLength(es, index) == n
  {}

  lemma ReportParts(parameter: seq<Text>, start: nat)
    ensures var pairs := Rest(parameter, start);
            var n := GameLength(pairs);
            ReportOf(if start <= |parameter| then parameter[start..] else []) ==
            Report(pairs[..n], AllSettingsOf(Runs(Entries(pairs[n..]))))
  {
    hide Pairs, GameLength, Runs, Entries, AllSettingsOf;
    NoPairs();
  }

  lemma NoPairs()
    ensures Pairs([]) == []
  {}

  lemma RunsStep(done: seq<Settings>, es: seq<Entry>)
    requires es != []
    ensures var n := RunLength(es, es[0].index);
            done + AllSettingsOf(Runs(es)) == (done + [SettingsOf(es[..n])]) + AllSettingsOf(Runs(es[n..]))
  {
    var n := RunLength(es, es[0].index);
    AllSettingsCons(es[..n], Runs(es[n..]));
    assert Runs(es) == [es[..n]] + Runs(es[n..]);
    hide Runs, AllSettingsOf, SettingsOf, RunLength;
    Associate(done, [SettingsOf(es[..n])], AllSettingsOf(Runs(es[n..])));
  }

  lemma NoRuns(done: seq<Settings>)
    ensures done + AllSettingsOf(Runs([])) == done
  {}

  /** The parsing of a report, whose parameters start at position `start`; a shorter message holds nothing. */
  method ReadReport(parameter: seq<Text>, start: nat) returns (game: Settings, players: seq<Settings>)
    ensures Report(game, players) == ReportOf(if start <= |parameter| then parameter[start..] else [])
  {
    hide ReportOf, Rest, Entries, Runs, AllSettingsOf, SettingsOf, RunLength, GameLength;
    var offset;
    ReportParts(parameter, start);
    game, offset := ReadGame(parameter, start);
    players := [];
    ghost var es := Entries(Rest(parameter, offset));
    ghost var todo := es;
    AppendNothing(AllSettingsOf(Runs(es)));
    while |parameter| > offset + 1
      invariant todo == Entries(Rest(parameter, offset))
      invariant players + AllSettingsOf(Runs(todo)) == AllSettingsOf(Runs(es))
      decreases |parameter| - offset
    {
      var gsplayer;
      gsplayer, offset := ReadPlayer(parameter, offset);
      RunsStep(players, todo);
      players := players + [gsplayer];
      todo := todo[RunLength(todo, todo[0].index)..];
    }
    EntriesStep(parameter, offset);
    NoRuns(players);
  }

  lemma AllSettingsCons(run: seq<Entry>, runs: seq<seq<Entry>>)
    ensures AllSettingsOf([run] + runs) == [SettingsOf(run)] + AllSettingsOf(runs)
  {}

  // ---------------------------------------------------------------- printing a report

  /** A player as a game server reports it: an index, and keys and values. */
  datatype Player = Player(index: int, settings: Settings)

  function PrintSettings(settings: Settings): seq<Text> {
    if settings == [] then [] else [settings[0].0, settings[0].1] + PrintSettings(settings[1..])
  }

  function Indexed(p: Player): (r: Settings)
    ensures |r| == |p.settings|
    ensures forall i :: 0 <= i < |r| ==> r[i] == (IndexedName(p.settings[i].0, p.index), p.settings[i].1)
  {
    seq(|p.settings|, i requires 0 <= i < |p.settings| => (IndexedName(p.settings[i].0, p.index), p.settings[i].1))
  }

  function IndexedAll(players: seq<Player>): Settings {
    if players == [] then [] else Indexed(players[0]) + IndexedAll(players[1..])
  }

  function RunsOf(players: seq<Player>): (r: seq<seq<Entry>>)
    ensures |r| == |players|
  {
    if players == [] then [] else [Entries(Indexed(players[0]))] + RunsOf(players[1..])
  }

  function SettingsOfAll(players: seq<Player>): (r: seq<Settings>)
    ensures |r| == |players| && forall i :: 0 <= i < |r| ==> r[i] == players[i].settings
  {
    seq(|players|, i requires 0 <= i < |players| => players[i].settings)
  }

  predicate IndexFits(p: Player) {
    -0x8000_0000 <= p.index < 0x8000_0000
  }

  /** Every player has a setting, and neighbours differ in index. */
  predicate Distinguishable(players: seq<Player>) {
    players == [] ||
    (players[0].settings != [] && Distinguishable(players[1..]) &&
     (|players| > 1 ==> players[0].index != players[1].index))
  }

  lemma {:induction false} PairsPrinted(settings: Settings, odd: seq<Text>)
    requires |odd| <= 1
    ensures Pairs(PrintSettings(settings) + odd) == settings
  {
    if settings == [] {
      AppendNothing(odd);
    } else {
      var text := PrintSettings(settings) + odd;
      assert text[0] == settings[0].0 && text[1] == settings[0].1;
      assert text[2..] == PrintSettings(settings[1..]) + odd;
      PairsPrinted(settings[1..], odd);
    }
  }

  lemma EntriesIndexed(p: Player)
    requires IndexFits(p)
    ensures SettingsOf(Entries(Indexed(p))) == p.settings
    ensures forall e :: e in Entries(Indexed(p)) ==> e.index == p.index
  {
    forall i | 0 <= i < |p.settings|
      ensures Entries(Indexed(p))[i] == Entry(p.index, p.settings[i].0, p.settings[i].1)
    {
      NameReadBack(p.settings[i].0, p.index);
    }
  }

  lemma EntriesConcat(a: Settings, b: Settings)
    ensures Entries(a + b) == Entries(a) + Entries(b)
  {}

  lemma {:induction false} RunsOfPlayers(players: seq<Player>)
    requires forall p :: p in players ==> IndexFits(p)
    ensures AllUniform(RunsOf(players))
    ensures AllSettingsOf(RunsOf(players)) == SettingsOfAll(players)
    ensures Flatten(RunsOf(players)) == Entries(IndexedAll(players))
    ensures Separated(RunsOf(players)) <==> Distinguishable(players)
  {
    if players != [] {
      var p, rest := players[0], players[1..];
      hide KeyAndIndex, IndexedName, Indexed, SettingsOf;
      EntriesIndexed(p);
      RunsOfPlayers(rest);
      AllSettingsCons(Entries(Indexed(p)), RunsOf(rest));
      FlattenCons(Entries(Indexed(p)), RunsOf(rest));
      EntriesConcat(Indexed(p), IndexedAll(rest));
      SeparatedCons(Entries(Indexed(p)), RunsOf(rest));
      if rest != [] {
        EntriesIndexed(rest[0]);
      }
    }
  }

  lemma {:induction false} GameLengthOf(game: Settings, more: Settings)
    requires forall s :: s in game ==> !StartsPlayers(s.0)
    requires more == [] || StartsPlayers(more[0].0)
    ensures GameLength(game + more) == |game|
  {
    if game == [] {
      AppendNothing(more);
    } else {
      assert (game + more)[1..] == game[1..] + more;
      GameLengthOf(game[1..], more);
    }
  }

  /**
   A printed report is read back: the settings of the game always, and the players, each with its settings in
   order, if and only if every player has a setting and no two neighbours share an index.
   */
  lemma ReportRoundTrip(game: Settings, players: seq<Player>, odd: seq<Text>)
    requires forall s :: s in game ==> !StartsPlayers(s.0)
    requires forall p :: p in players ==> IndexFits(p)
    requires IndexedAll(players) == [] || StartsPlayers(IndexedAll(players)[0].0)
    requires |odd| <= 1
    ensures var r := ReportOf(PrintSettings(game + IndexedAll(players)) + odd);
            r.game == game && (r.players == SettingsOfAll(players) <==> Distinguishable(players))
  {
    hide PrintSettings, Pairs, GameLength, Runs, Entries, AllSettingsOf, SettingsOfAll, Distinguishable;
    var named := IndexedAll(players);
    PairsPrinted(game + named, odd);
    GameLengthOf(game, named);
    assert (game + named)[..|game|] == game && (game + named)[|game|..] == named;
    PlayersRecovered(players);
  }

  lemma PlayersRecovered(players: seq<Player>)
    requires forall p :: p in players ==> IndexFits(p)
    ensures AllSettingsOf(Runs(Entries(IndexedAll(players)))) == SettingsOfAll(players) <==> Distinguishable(players)
  {
    hide Runs, Entries, AllSettingsOf, SettingsOfAll, Distinguishable, Separated, Flatten, IndexedAll, RunsOf;
    var es := Entries(IndexedAll(players));
    RunsOfPlayers(players);
    RunsRecovered(RunsOf(players));
    if AllSettingsOf(Runs(es)) == SettingsOfAll(players) {
      RunsPartition(es);
      SameLengthsSameRuns(Runs(es), RunsOf(players));
    }
  }

  /** Two ways to cut the same entries into runs with the same numbers of settings are the same. */
  lemma {:induction false} SameLengthsSameRuns(a: seq<seq<Entry>>, b: seq<seq<Entry>>)
    requires AllSettingsOf(a) == AllSettingsOf(b)
    requires Flatten(a) == Flatten(b)
    ensures a == b
  {
    assert |a| == |AllSettingsOf(a)| == |b|;
    if a != [] {
      assert |a[0]| == |AllSettingsOf(a)[0]| == |b[0]|;
      assert Flatten(a)[..|a[0]|] == a[0] && Flatten(b)[..|b[0]|] == b[0];
      assert Flatten(a)[|a[0]|..] == Flatten(a[1..]) && Flatten(b)[|b[0]|..] == Flatten(b[1..]);
      assert AllSettingsOf(a)[1..] == AllSettingsOf(a[1..]) && AllSettingsOf(b)[1..] == AllSettingsOf(b[1..]);
      SameLengthsSameRuns(a[1..], b[1..]);
      assert a == [a[0]] + a[1..] && b == [b[0]] + b[1..];
    }
  }
}
