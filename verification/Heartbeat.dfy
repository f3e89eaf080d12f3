/**
 The heartbeat of a game server: NUL-terminated settings, a table of players and a table of two teams.  Reading
 goes on at the place where the last read stopped, and a read at or past the end finds an empty text.
 */
module Heartbeat {
  import opened Bytes
  import opened Wrappers

  // ---------------------------------------------------------------- specification

  /** A read: whether a terminator was found, the text before it, and what follows it. */
  datatype Read = Read(found: bool, text: Text, rest: Text)

  function ReadFront(t: Text): (r: Read)
    ensures r.found ==> t == r.text + [0] + r.rest && 0 !in r.text
    ensures !r.found ==> r.text == t && r.rest == [] && 0 !in t
    ensures |r.rest| <= |t| && (r.found ==> |r.rest| < |t|)
  {
    if t == [] then Read(false, [], [])
    else if t[0] == 0 then Read(true, [], t[1..])
    else
      var r := ReadFront(t[1..]);
      assert t == [t[0]] + t[1..];
      Read(r.found, [t[0]] + r.text, r.rest)
  }

  function Skip(t: Text, n: nat): Text {
    if n <= |t| then t[n..] else []
  }

  datatype Player = Player(name: Text, score: Text, skill: Text, ping: Text, team: Text, deaths: Text, pid: Text)

  datatype Team = Team(name: Text, score: Text)

  /** What a heartbeat sets: settings in order, players in order, and the two teams if there is a team table. */
  datatype Beat = Beat(settings: seq<(Text, Text)>, players: seq<Player>, teams: Option<(Team, Team)>)

  function SettingsAt(t: Text): (r: (seq<(Text, Text)>, Text))
    ensures |r.1| <= |t|
    decreases |t|
  {
    var key := ReadFront(t);
    if !key.found || key.text == [] then ([], key.rest)
    else
      var value := ReadFront(key.rest);
      var (more, rest) := SettingsAt(value.rest);
      ([(key.text, value.text)] + more, rest)
  }

  /** Six more fields after a name. */
  function PlayerAt(name: Text, t: Text): (r: (Player, Text))
    ensures |r.1| <= |t|
  {
    var score := ReadFront(t);
    var skill := ReadFront(score.rest);
    var ping := ReadFront(skill.rest);
    var team := ReadFront(ping.rest);
    var deaths := ReadFront(team.rest);
    var pid := ReadFront(deaths.rest);
    (Player(name, score.text, skill.text, ping.text, team.text, deaths.text, pid.text), pid.rest)
  }

  function PlayersAt(t: Text): (r: (seq<Player>, Text))
    decreases |t|
  {
    var name := ReadFront(t);
    if !name.found || name.text == [] then ([], name.rest)
    else
      var (player, rest) := PlayerAt(name.text, name.rest);
      var (more, end) := PlayersAt(rest);
      ([player] + more, end)
  }

  /** The player table: the names of its seven columns, a byte, and the rows. */
  function PlayerTableAt(t: Text): (seq<Player>, Text) {
    var column := ReadFront(t);
    if !column.found || column.text == [] then ([], column.rest)
    else PlayersAt(Skip(PlayerAt(column.text, column.rest).1, 1))
  }

  function TeamAt(t: Text): (Team, Text) {
    var name := ReadFront(t);
    var score := ReadFront(name.rest);
    (Team(name.text, score.text), score.rest)
  }

  /** The team table: the names of its two columns, a byte, and two rows. */
  function TeamTableAt(t: Text): Option<(Team, Team)> {
    var column := ReadFront(t);
    if !column.found || column.text == [] then None
    else
      var (one, rest) := TeamAt(Skip(ReadFront(column.rest).rest, 1));
      Some((one, TeamAt(rest).0))
  }

  function BeatOf(request: Text): Beat {
    var (settings, t1) := SettingsAt(Skip(request, 5));
    var (players, t2) := PlayerTableAt(Skip(t1, 2));
    Beat(settings, players, TeamTableAt(Skip(t2, 1)))
  }

  // ---------------------------------------------------------------- the source's loops

  method ReadString(buffer: Text, start: nat) returns (found: bool, str: Text, offset: nat)
    ensures ReadFront(Skip(buffer, start)) == Read(found, str, Skip(buffer, offset))
    ensures offset >= start
  {
    hide ReadFront, Skip;
    str := [];
    offset := start;
    ghost var all := ReadFront(Skip(buffer, start));
    AppendNothing(all.text);
    while offset < |buffer|
      invariant offset >= start
      invariant all == PrependText(str, ReadFront(Skip(buffer, offset)))
    {
      ReadStep(buffer, offset, str);
      if buffer[offset] == 0 {
        offset := offset + 1;
        return true, str, offset;
      }
      str := str + [buffer[offset]];
      offset := offset + 1;
    }
    ReadStep(buffer, offset, str);
    return false, str, offset;
  }

  function PrependText(before: Text, r: Read): Read {
    Read(r.found, before + r.text, r.rest)
  }

  lemma ReadStep(buffer: Text, offset: nat, str: Text)
    ensures offset >= |buffer| ==>
      PrependText(str, ReadFront(Skip(buffer, offset))) == Read(false, str, Skip(buffer, offset))
    ensures offset < |buffer| && buffer[offset] == 0 ==>
      PrependText(str, ReadFront(Skip(buffer, offset))) == Read(true, str, Skip(buffer, offset + 1))
    ensures offset < |buffer| && buffer[offset] != 0 ==>
      PrependText(str, ReadFront(Skip(buffer, offset))) ==
      PrependText(str + [buffer[offset]], ReadFront(Skip(buffer, offset + 1)))
  {
    var t := Skip(buffer, offset);
    AppendNothing(str);
    if offset < |buffer| {
      assert t[0] == buffer[offset] && t[1..] == Skip(buffer, offset + 1);
      Associate(str, [t[0]], ReadFront(t[1..]).text);
    }
  }

  lemma SkipMore(buffer: Text, offset: nat, n: nat)
    ensures Skip(Skip(buffer, offset), n) == Skip(buffer, offset + n)
  {}

  method ReadPlayer(request: Text, player: Text, start: nat) returns (gsplayer: Player, offset: nat)
    ensures PlayerAt(player, Skip(request, start)) == (gsplayer, Skip(request, offset))
  {
    var score, skill, ping, team, deaths, pid, found;
    hide ReadFront, Skip;
    found, score, offset := ReadString(request, start);
    found, skill, offset := ReadString(request, offset);
    found, ping, offset := ReadString(request, offset);
    found, team, offset := ReadString(request, offset);
    found, deaths, offset := ReadString(request, offset);
    found, pid, offset := ReadString(request, offset);
    gsplayer := Player(player, score, skill, ping, team, deaths, pid);
  }

  method ReadTeam(request: Text, start: nat) returns (team: Team, offset: nat)
    ensures TeamAt(Skip(request, start)) == (team, Skip(request, offset))
  {
    hide ReadFront, Skip;
    var name, score, found;
    found, name, offset := ReadString(request, start);
    found, score, offset := ReadString(request, offset);
    team := Team(name, score);
  }

  method ReadSettings(request: Text, start: nat) returns (settings: seq<(Text, Text)>, offset: nat)
    ensures SettingsAt(Skip(request, start)) == (settings, Skip(request, offset))
  {
    hide ReadFront, Skip;
    var found, key, value;
    settings := [];
    ghost var t := Skip(request, start);
    found, key, offset := ReadString(request, start);
    AppendNothing(SettingsAt(t).0);
    while found && |key| > 0
      invariant ReadFront(t) == Read(found, key, Skip(request, offset))
      invariant SettingsAt(Skip(request, start)) == (settings + SettingsAt(t).0, SettingsAt(t).1)
      decreases |t|, found && |key| > 0
    {
      var valueFound;
      valueFound, value, offset := ReadString(request, offset);
      ghost var next := Skip(request, offset);
      Associate(settings, [(key, value)], SettingsAt(next).0);
      settings := settings + [(key, value)];
      t := next;
      found, key, offset := ReadString(request, offset);
    }
    AppendNothing(settings);
  }

  method ReadPlayers(request: Text, start: nat) returns (players: seq<Player>, offset: nat)
    ensures PlayersAt(Skip(request, start)) == (players, Skip(request, offset))
  {
    hide ReadFront, Skip, PlayerAt;
    var found, player;
    players := [];
    ghost var t := Skip(request, start);
    found, player, offset := ReadString(request, start);
    AppendNothing(PlayersAt(t).0);
    while found && |player| > 0
      invariant ReadFront(t) == Read(found, player, Skip(request, offset))
      invariant PlayersAt(Skip(request, start)) == (players + PlayersAt(t).0, PlayersAt(t).1)
      decreases |t|, found && |player| > 0
    {
      var gsplayer;
      gsplayer, offset := ReadPlayer(request, player, offset);
      ghost var next := Skip(request, offset);
      Associate(players, [gsplayer], PlayersAt(next).0);
      players := players + [gsplayer];
      t := next;
      found, player, offset := ReadString(request, offset);
    }
    AppendNothing(players);
  }

  /** The whole parsing of a heartbeat. */
  method ReadHeartbeat(request: Text) returns (beat: Beat)
    ensures beat == BeatOf(request)
  {
    hide ReadFront, Skip, SettingsAt, PlayersAt, PlayerAt, TeamAt;
    var offset := 5;
    var settings, players, teams := [], [], None;
    var found, text;
    settings, offset := ReadSettings(request, offset);
    SkipMore(request, offset, 2);
    offset := offset + 2;
    found, text, offset := ReadString(request, offset);
    if found && |text| > 0 {
      var columns;
      columns, offset := ReadPlayer(request, text, offset);
      SkipMore(request, offset, 1);
      offset := offset + 1;
      players, offset := ReadPlayers(request, offset);
    }
    SkipMore(request, offset, 1);
    offset := offset + 1;
    found, text, offset := ReadString(request, offset);
    if found && |text| > 0 {
      found, text, offset := ReadString(request, offset);
      SkipMore(request, offset, 1);
      offset := offset + 1;
      var one, two;
      one, offset := ReadTeam(request, offset);
      two, offset := ReadTeam(request, offset);
      teams := Some((one, two));
    }
    beat := Beat(settings, players, teams);
  }

  // ---------------------------------------------------------------- what a game server writes

  predicate NoNul(t: Text) {
    0 !in t
  }

  function Line(t: Text): Text {
    t + [0]
  }

  function WriteSettings(settings: seq<(Text, Text)>): Text {
    if settings == [] then []
    else Line(settings[0].0) + Line(settings[0].1) + WriteSettings(settings[1..])
  }

  function WriteFields(p: Player): Text {
    Line(p.score) + Line(p.skill) + Line(p.ping) + Line(p.team) + Line(p.deaths) + Line(p.pid)
  }

  function WritePlayers(players: seq<Player>): Text {
    if players == [] then []
    else Line(players[0].name) + WriteFields(players[0]) + WritePlayers(players[1..])
  }

  function WriteTeam(t: Team): Text {
    Line(t.name) + Line(t.score)
  }

  /** The parts of a heartbeat that the parser skips over. */
  datatype Frame = Frame(head: Text, playerCount: Text, columns: Player, teamCount: byte, teamColumns: Team)

  predicate FrameFits(f: Frame) {
    && |f.head| == 5 && |f.playerCount| == 2
    && f.columns.name != [] && PlayerNoNul(f.columns)
    && f.teamColumns.name != [] && NoNul(f.teamColumns.name) && NoNul(f.teamColumns.score)
  }

  predicate PlayerNoNul(p: Player) {
    NoNul(p.name) && NoNul(p.score) && NoNul(p.skill) && NoNul(p.ping) && NoNul(p.team) && NoNul(p.deaths) &&
    NoNul(p.pid)
  }

  /** The high byte of the two-byte team count is the 0 that ends the player table. */
  function Write(f: Frame, settings: seq<(Text, Text)>, players: seq<Player>, one: Team, two: Team, tail: Text): Text {
    f.head + (WriteSettings(settings) + ([0] + (f.playerCount +
    (Line(f.columns.name) + (WriteFields(f.columns) + ([0] + (WritePlayers(players) + ([0] + ([f.teamCount] +
    (Line(f.teamColumns.name) + (Line(f.teamColumns.score) + ([0] +
    (WriteTeam(one) + (WriteTeam(two) + tail))))))))))))))
  }

  lemma {:induction false} ReadLine(t: Text, rest: Text)
    requires NoNul(t)
    ensures ReadFront(Line(t) + rest) == Read(true, t, rest)
  {
    var all := Line(t) + rest;
    if t == [] {
      assert all[1..] == rest;
    } else {
      assert t[0] in t;
      assert all[1..] == Line(t[1..]) + rest;
      ReadLine(t[1..], rest);
    }
  }

  lemma ReadFields(name: Text, p: Player, rest: Text)
    requires PlayerNoNul(p)
    ensures PlayerAt(name, WriteFields(p) + rest) == (p.(name := name), rest)
  {
    hide ReadFront, Line;
    var t5 := Line(p.pid) + rest;
    var t4 := Line(p.deaths) + t5;
    var t3 := Line(p.team) + t4;
    var t2 := Line(p.ping) + t3;
    var t1 := Line(p.skill) + t2;
    assert WriteFields(p) + rest == Line(p.score) + t1;
    ReadLine(p.score, t1);
    ReadLine(p.skill, t2);
    ReadLine(p.ping, t3);
    ReadLine(p.team, t4);
    ReadLine(p.deaths, t5);
    ReadLine(p.pid, rest);
  }

  lemma ReadTeamBack(t: Team, rest: Text)
    requires NoNul(t.name) && NoNul(t.score)
    ensures TeamAt(WriteTeam(t) + rest) == (t, rest)
  {
    hide ReadFront, Line;
    Associate(Line(t.name), Line(t.score), rest);
    ReadLine(t.name, Line(t.score) + rest);
    ReadLine(t.score, rest);
  }

  predicate KeysNonEmpty(settings: seq<(Text, Text)>) {
    forall s :: s in settings ==> s.0 != []
  }

  predicate NamesNonEmpty(players: seq<Player>) {
    forall p :: p in players ==> p.name != []
  }

  lemma {:induction false} SettingsReadBack(settings: seq<(Text, Text)>, rest: Text)
    requires forall s :: s in settings ==> NoNul(s.0) && NoNul(s.1)
    ensures KeysNonEmpty(settings) ==> SettingsAt(WriteSettings(settings) + ([0] + rest)) == (settings, rest)
    ensures !KeysNonEmpty(settings) ==> |SettingsAt(WriteSettings(settings) + ([0] + rest)).0| < |settings|
  {
    hide ReadFront, Line;
    var end := [0] + rest;
    if settings == [] {
      AppendNothing(end);
      EmptyLine(rest);
    } else {
      var s, more := settings[0], settings[1..];
      var later := WriteSettings(more) + end;
      assert s in settings && settings == [s] + more;
      Associate(Line(s.0) + Line(s.1), WriteSettings(more), end);
      Associate(Line(s.0), Line(s.1), later);
      ReadLine(s.0, Line(s.1) + later);
      ReadLine(s.1, later);
      SettingsReadBack(more, rest);
    }
  }

  lemma EmptyLine(rest: Text)
    ensures ReadFront([0] + rest) == Read(true, [], rest)
  {}

  lemma {:induction false} PlayersReadBack(players: seq<Player>, rest: Text)
    requires forall p :: p in players ==> PlayerNoNul(p)
    ensures NamesNonEmpty(players) ==> PlayersAt(WritePlayers(players) + ([0] + rest)) == (players, rest)
    ensures !NamesNonEmpty(players) ==> |PlayersAt(WritePlayers(players) + ([0] + rest)).0| < |players|
  {
    hide ReadFront, Line, WriteFields, PlayerAt;
    var end := [0] + rest;
    if players == [] {
      AppendNothing(end);
      EmptyLine(rest);
    } else {
      var p, more := players[0], players[1..];
      var later := WritePlayers(more) + end;
      assert p in players && players == [p] + more;
      Associate(Line(p.name) + WriteFields(p), WritePlayers(more), end);
      Associate(Line(p.name), WriteFields(p), later);
      ReadLine(p.name, WriteFields(p) + later);
      ReadFields(p.name, p, later);
      PlayersReadBack(more, rest);
    }
  }

  lemma SkipFront(front: Text, rest: Text)
    ensures Skip(front + rest, |front|) == rest
  {}

  /**
   A written heartbeat is read back, settings, players and teams, if and only if no setting has an empty key and
   no player an empty name.  What follows the second team does not matter.
   */
  lemma HeartbeatRoundTrip(f: Frame, settings: seq<(Text, Text)>, players: seq<Player>, one: Team, two: Team,
                           tail: Text)
    requires FrameFits(f)
    requires forall s :: s in settings ==> NoNul(s.0) && NoNul(s.1)
    requires forall p :: p in players ==> PlayerNoNul(p)
    requires NoNul(one.name) && NoNul(one.score) && NoNul(two.name) && NoNul(two.score)
    ensures BeatOf(Write(f, settings, players, one, two, tail)) == Beat(settings, players, Some((one, two))) <==>
            KeysNonEmpty(settings) && NamesNonEmpty(players)
  {
    hide ReadFront, Line, WriteFields, PlayerAt, SettingsAt, PlayersAt, TeamAt, WriteSettings, WritePlayers, WriteTeam,
         Skip;
    var u := WriteTeam(two) + tail;
    var t10 := WriteTeam(one) + u;
    var t9 := Line(f.teamColumns.score) + ([0] + t10);
    var t8 := Line(f.teamColumns.name) + t9;
    var t7 := [f.teamCount] + t8;
    var t6 := WritePlayers(players) + ([0] + t7);
    var t5 := WriteFields(f.columns) + ([0] + t6);
    var t4 := Line(f.columns.name) + t5;
    var t3 := f.playerCount + t4;
    var t2 := WriteSettings(settings) + ([0] + t3);
    SkipFront(f.head, t2);
    SettingsReadBack(settings, t3);
    SkipFront(f.playerCount, t4);
    ReadLine(f.columns.name, t5);
    ReadFields(f.columns.name, f.columns, [0] + t6);
    SkipFront([0], t6);
    PlayersReadBack(players, t7);
    SkipFront([f.teamCount], t8);
    ReadLine(f.teamColumns.name, t9);
    ReadLine(f.teamColumns.score, [0] + t10);
    SkipFront([0], t10);
    ReadTeamBack(one, u);
    ReadTeamBack(two, tail);
  }
}
