/**
 The session table of the messaging server: clients are accepted, log in and are disconnected, each as one atomic
 step.  `Conn` pairs a client with the profile its session belongs to; -1 stands for no profile.
 */
module Sessions {
  import opened Wrappers

  const NO_PROFILE := -1

  // ---------------------------------------------------------------- the table and its steps

  datatype Conn<C> = Conn(client: C, profileid: int)

  datatype Step<C> = Accept(client: C) | Login(client: C, profileid: int) | Leave(client: C)

  type Table<C> = seq<Conn<C>>

  ghost predicate Connected<C>(t: Table<C>, client: C) {
    exists i :: 0 <= i < |t| && t[i].client == client
  }

  /** The table without the first entry of a client. */
  ghost function Remove<C>(t: Table<C>, client: C): Table<C> {
    if t == [] then []
    else if t[0].client == client then t[1..]
    else [t[0]] + Remove(t[1..], client)
  }

  function RemoveProfile<C>(t: Table<C>, profileid: int): Table<C> {
    if t == [] then []
    else if t[0].profileid == profileid then RemoveProfile(t[1..], profileid)
    else [t[0]] + RemoveProfile(t[1..], profileid)
  }

  ghost function SetProfile<C>(t: Table<C>, client: C, profileid: int): (r: Table<C>)
    ensures |r| == |t|
    ensures forall i :: 0 <= i < |t| ==> r[i] == if t[i].client == client then Conn(client, profileid) else t[i]
  {
    if t == [] then []
    else [if t[0].client == client then Conn(client, profileid) else t[0]] + SetProfile(t[1..], client, profileid)
  }

  /** A login first disconnects whoever holds the profile, be it the client itself, and then takes it over. */
  ghost function Next<C>(t: Table<C>, step: Step<C>): Table<C> {
    match step
    case Accept(client) => t + [Conn(client, NO_PROFILE)]
    case Login(client, profileid) => SetProfile(RemoveProfile(t, profileid), client, profileid)
    case Leave(client) => Remove(t, client)
  }

  /** Only a client that is not in the table yet is accepted. */
  ghost predicate Allowed<C>(t: Table<C>, step: Step<C>) {
    step.Accept? ==> !Connected(t, step.client)
  }

  /** Where a run of steps leads, from the empty table. */
  ghost function After<C>(steps: seq<Step<C>>): Table<C> {
    if steps == [] then [] else Next(After(steps[..|steps| - 1]), steps[|steps| - 1])
  }

  ghost predicate Run<C>(steps: seq<Step<C>>) {
    forall n :: 0 <= n < |steps| ==> Allowed(After(steps[..n]), steps[n])
  }

  /** No client is in the table twice, and no profile is. */
  ghost predicate Consistent<C>(t: Table<C>) {
    && (forall i, j :: 0 <= i < j < |t| ==> t[i].client != t[j].client)
    && (forall i, j :: 0 <= i < j < |t| && t[i].profileid == t[j].profileid ==> t[i].profileid == NO_PROFILE)
  }

  /** The first session of a profile. */
  function Find<C>(t: Table<C>, profileid: int): (r: Option<Conn<C>>)
    ensures r.Some? ==> r.value in t && r.value.profileid == profileid
    ensures r.None? ==> forall c :: c in t ==> c.profileid != profileid
  {
    if t == [] then None else if t[0].profileid == profileid then Some(t[0]) else Find(t[1..], profileid)
  }

  /** The session found is the first in the table. */
  lemma {:induction false} FindFirst<C>(t: Table<C>, i: nat)
    requires i < |t| && forall k :: 0 <= k < i ==> t[k].profileid != t[i].profileid
    ensures Find(t, t[i].profileid) == Some(t[i])
  {
    if i > 0 {
      FindFirst(t[1..], i - 1);
    }
  }

  // ---------------------------------------------------------------- what every step keeps

  /** An entry that can stand in front of others: another client, and another profile unless it is none. */
  ghost predicate Apart<C>(c: Conn<C>, t: Table<C>) {
    forall i :: 0 <= i < |t| ==>
      t[i].client != c.client && (t[i].profileid == c.profileid ==> c.profileid == NO_PROFILE)
  }

  lemma ConsistentSplit<C>(t: Table<C>)
    requires t != [] && Consistent(t)
    ensures Consistent(t[1..]) && Apart(t[0], t[1..])
  {}

  /** Taking entries out keeps an entry apart from the others. */
  lemma StillApart<C>(c: Conn<C>, t: Table<C>, u: Table<C>)
    requires Apart(c, t)
    requires forall i :: 0 <= i < |u| ==> u[i] in t
    ensures Apart(c, u)
  {}

  lemma ConsistentJoin<C>(c: Conn<C>, t: Table<C>)
    requires Consistent(t) && Apart(c, t)
    ensures Consistent([c] + t)
  {}

  lemma {:induction false} RemoveProfileKeeps<C>(t: Table<C>, profileid: int)
    requires Consistent(t)
    ensures Consistent(RemoveProfile(t, profileid))
    ensures forall c :: c in t && c.profileid != profileid ==> c in RemoveProfile(t, profileid)
    ensures forall i :: 0 <= i < |RemoveProfile(t, profileid)| ==>
              RemoveProfile(t, profileid)[i] in t && RemoveProfile(t, profileid)[i].profileid != profileid
  {
    if t != [] {
      hide Consistent;
      assert t == [t[0]] + t[1..];
      ConsistentSplit(t);
      RemoveProfileKeeps(t[1..], profileid);
      if t[0].profileid != profileid {
        StillApart(t[0], t[1..], RemoveProfile(t[1..], profileid));
        ConsistentJoin(t[0], RemoveProfile(t[1..], profileid));
      }
    } else {
      assert RemoveProfile(t, profileid) == [];
    }
  }

  lemma {:induction false} RemoveKeeps<C>(t: Table<C>, client: C)
    requires Consistent(t)
    ensures Consistent(Remove(t, client))
    ensures forall c :: c in t && c.client != client ==> c in Remove(t, client)
    ensures forall i :: 0 <= i < |Remove(t, client)| ==>
              Remove(t, client)[i] in t && Remove(t, client)[i].client != client
    ensures |Remove(t, client)| == |t| - if Connected(t, client) then 1 else 0
  {
    if t != [] {
      hide Consistent;
      assert t == [t[0]] + t[1..];
      ConsistentSplit(t);
      RemoveKeeps(t[1..], client);
      ConnectedCons(t, client);
      if t[0].client != client {
        StillApart(t[0], t[1..], Remove(t[1..], client));
        ConsistentJoin(t[0], Remove(t[1..], client));
      }
    } else {
      assert Remove(t, client) == [];
    }
  }

  lemma ConnectedCons<C>(t: Table<C>, client: C)
    requires t != []
    ensures Connected(t, client) <==> t[0].client == client || Connected(t[1..], client)
  {}

  lemma SetProfileKeeps<C>(t: Table<C>, client: C, profileid: int)
    requires Consistent(t)
    requires forall i :: 0 <= i < |t| ==> t[i].profileid != profileid
    ensures Consistent(SetProfile(t, client, profileid))
  {}

  lemma NextKeepsConsistent<C>(t: Table<C>, step: Step<C>)
    requires Consistent(t) && Allowed(t, step)
    ensures Consistent(Next(t, step))
  {
    match step {
      case Accept(client) =>
      case Login(client, profileid) =>
        RemoveProfileKeeps(t, profileid);
        SetProfileKeeps(RemoveProfile(t, profileid), client, profileid);
      case Leave(client) =>
        RemoveKeeps(t, client);
    }
  }

  /** In every state that can be reached, a profile has at most one session. */
  lemma {:induction false} ReachableIsConsistent<C>(steps: seq<Step<C>>)
    requires Run(steps)
    ensures Consistent(After(steps))
  {
    if steps != [] {
      var n := |steps| - 1;
      assert forall k :: 0 <= k < n ==> steps[..n][..k] == steps[..k];
      ReachableIsConsistent(steps[..n]);
      NextKeepsConsistent(After(steps[..n]), steps[n]);
    }
  }

  /** So the session found for a profile does not depend on the order of the table. */
  lemma FindAnyOrder<C>(t: Table<C>, u: Table<C>, profileid: int)
    requires Consistent(t) && profileid != NO_PROFILE
    requires forall c :: c in t <==> c in u
    ensures Find(t, profileid) == Find(u, profileid)
  {}

  /** Disconnecting a client twice is disconnecting it once. */
  lemma LeaveTwice<C>(t: Table<C>, client: C)
    requires Consistent(t)
    ensures Next(Next(t, Leave(client)), Leave(client)) == Next(t, Leave(client))
    ensures !Connected(Next(t, Leave(client)), client)
  {
    RemoveKeeps(t, client);
    var u := Remove(t, client);
    RemoveAbsent(u, client);
  }

  lemma {:induction false} RemoveAbsent<C>(t: Table<C>, client: C)
    requires !Connected(t, client)
    ensures Remove(t, client) == t
  {
    if t != [] {
      assert t[0].client != client;
      assert forall i :: 0 <= i < |t| - 1 ==> t[1..][i] == t[i + 1];
      RemoveAbsent(t[1..], client);
    }
  }

  /**
   After a login the profile is found at the client that logged in if and only if that client was connected and did
   not hold the profile already; otherwise, its own second login having disconnected it, the profile is not found.
   */
  lemma FoundAfterLogin<C>(t: Table<C>, client: C, profileid: int)
    requires Consistent(t) && profileid != NO_PROFILE
    ensures var found := Find(Next(t, Login(client, profileid)), profileid);
            found == if Connected(t, client) && Conn(client, profileid) !in t
                     then Some(Conn(client, profileid)) else None
  {
    var after := SetProfile(RemoveProfile(t, profileid), client, profileid);
    RemoveProfileKeeps(t, profileid);
    if Connected(t, client) && Conn(client, profileid) !in t {
      OnlineAfterLogin(t, client, profileid);
    } else {
      forall c | c in after ensures c.profileid != profileid {
        NotOnlineAfterLogin(t, client, profileid, c);
      }
    }
  }

  lemma OneLogin<C>(client: C, before: int, profileid: int)
    ensures Next([Conn(client, before)], Login(client, profileid)) ==
            if before == profileid then [] else [Conn(client, profileid)]
  {
    var t := [Conn(client, before)];
    assert t[1..] == [];
    assert RemoveProfile(t, profileid) == if before == profileid then [] else t;
  }

  /** Such a state is reached: a client that logs in twice to the same profile is not connected any more. */
  lemma SecondLoginDisconnects<C>(client: C, profileid: int)
    requires profileid != NO_PROFILE
    ensures var steps := [Accept(client), Login(client, profileid), Login(client, profileid)];
            && Run(steps)
            && Find(After(steps[..2]), profileid) == Some(Conn(client, profileid))
            && After(steps) == [] && Find(After(steps), profileid) == None
  {
    var steps := [Accept(client), Login(client, profileid), Login(client, profileid)];
    assert steps[..0] == [] && steps[..1] == [steps[0]] && steps[..2] == [steps[0], steps[1]];
    assert steps[..1][..0] == [] && steps[..2][..1] == steps[..1];
    assert After(steps[..1]) == [Conn(client, NO_PROFILE)];
    OneLogin(client, NO_PROFILE, profileid);
    OneLogin(client, profileid, profileid);
  }

  lemma OnlineAfterLogin<C>(t: Table<C>, client: C, profileid: int)
    requires Consistent(t) && Connected(t, client) && Conn(client, profileid) !in t
    ensures var r := Find(SetProfile(RemoveProfile(t, profileid), client, profileid), profileid);
            r == Some(Conn(client, profileid))
  {}

  lemma NotOnlineAfterLogin<C>(t: Table<C>, client: C, profileid: int, c: Conn<C>)
    requires Consistent(t) && (Connected(t, client) ==> Conn(client, profileid) in t)
    requires c in SetProfile(RemoveProfile(t, profileid), client, profileid)
    ensures c.profileid != profileid
  {}

  // ---------------------------------------------------------------- friends

  function Reverse(friends: seq<int>): (r: seq<int>)
    ensures |r| == |friends|
    ensures forall i :: 0 <= i < |r| ==> r[i] == friends[|friends| - 1 - i]
  {
    if friends == [] then [] else [friends[|friends| - 1]] + Reverse(friends[..|friends| - 1])
  }

  /** The friends reported by `calls` calls, and those still to be reported. */
  function Synced(friends: seq<int>, calls: nat): (seq<int>, seq<int>) {
    if calls == 0 then ([], friends)
    else
      var (reported, left) := Synced(friends, calls - 1);
      if left == [] then (reported, left) else (reported + [left[|left| - 1]], left[..|left| - 1])
  }

  /** Every call reports one further friend, from the last to the first, and then no more. */
  lemma {:induction false} SyncedInReverse(friends: seq<int>, calls: nat)
    ensures var n := if calls < |friends| then calls else |friends|;
            Synced(friends, calls) == (Reverse(friends)[..n], friends[..|friends| - n])
  {
    if calls > 0 {
      SyncedInReverse(friends, calls - 1);
      if calls <= |friends| {
        var left := friends[..|friends| - (calls - 1)];
        assert Reverse(friends)[..calls] == Reverse(friends)[..calls - 1] + [left[|left| - 1]];
        assert left[..|left| - 1] == friends[..|friends| - calls];
      } else {
        assert friends[..0] == [];
      }
    } else {
      assert friends[..|friends|] == friends;
    }
  }

  /** Calls can be made in turns: a first few and then more. */
  lemma {:induction false} SyncedOnwards(friends: seq<int>, first: nat, more: nat)
    ensures var (reported, left) := Synced(friends, first);
            Synced(friends, first + more) == (reported + Synced(left, more).0, Synced(left, more).1)
  {
    var (reported, left) := Synced(friends, first);
    if more == 0 {
      assert reported + [] == reported;
    } else {
      SyncedOnwards(friends, first, more - 1);
      var (now, still) := Synced(left, more - 1);
      if still != [] {
        assert (reported + now) + [still[|still| - 1]] == reported + (now + [still[|still| - 1]]);
      }
    }
  }

  lemma OneCall(friends: seq<int>)
    ensures Synced(friends, 1) ==
            if friends == [] then ([], []) else ([friends[|friends| - 1]], friends[..|friends| - 1])
  {
    assert Synced(friends, 0) == ([], friends);
    if friends != [] {
      var last := [friends[|friends| - 1]];
      assert [] + last == last;
    }
  }

  /** The friend that a call reports, if any. */
  function Reported(report: Option<(int, string)>): seq<int> {
    if report.Some? then [report.value.0] else []
  }

  // ---------------------------------------------------------------- the server

  const OFFLINE := "|s|0|ss|Offline"
  const ONLINE := "|s|1|ss|Online"

  class Client {
    var profileid: int
    var authtoken: string
    var status: string
    var syncFriends: seq<int>

    constructor ()
      ensures profileid == NO_PROFILE && syncFriends == []
    {
      profileid, authtoken, status, syncFriends := NO_PROFILE, "", "", [];
    }
  }

  ghost function View(clients: seq<Client>): (t: Table<Client>)
    reads (set c | c in clients)`profileid
    ensures |t| == |clients|
    ensures forall i :: 0 <= i < |t| ==> t[i] == Conn(clients[i], clients[i].profileid)
  {
    if clients == [] then [] else [Conn(clients[0], clients[0].profileid)] + View(clients[1..])
  }

  lemma {:induction false} ViewJoin(clients: seq<Client>, client: Client)
    ensures View(clients + [client]) == View(clients) + [Conn(client, client.profileid)]
  {}

  lemma NotConnectedYet(clients: seq<Client>, client: Client)
    requires client !in clients
    ensures !Connected(View(clients), client)
  {}

  /** What a friend's status is reported as. */
  ghost function StatusOf(clients: seq<Client>, friend: int): string
    reads clients
  {
    var found := Find(View(clients), friend);
    if friend != NO_PROFILE && found.Some? && found.value.client in clients then found.value.client.status
    else OFFLINE
  }

  /** The view once a client has another profile than in an earlier view of the same list. */
  lemma ProfileTaken(clients: seq<Client>, client: Client, before: Table<Client>)
    requires |before| == |clients|
    requires forall i :: 0 <= i < |clients| ==> before[i].client == clients[i]
    requires forall i :: 0 <= i < |clients| && clients[i] != client ==> before[i].profileid == clients[i].profileid
    ensures View(clients) == SetProfile(before, client, client.profileid)
  {
    hide View, SetProfile;
  }

  /** With one session at most for a profile, its status is that of the client that holds it. */
  lemma StatusOfHolder(clients: seq<Client>, c: Client)
    requires Consistent(View(clients)) && c in clients && c.profileid != NO_PROFILE
    ensures StatusOf(clients, c.profileid) == c.status
  {
    var t := View(clients);
    var i :| 0 <= i < |clients| && clients[i] == c;
    assert t[i] == Conn(c, c.profileid);
    hide View;
    FindFirst(t, i);
  }

  lemma StatusOfNobody(clients: seq<Client>, friend: int)
    requires forall c :: c in clients ==> c.profileid != friend
    ensures StatusOf(clients, friend) == "|s|0|ss|Offline"
  {
    var t := View(clients);
    hide View;
    forall c | c in t ensures c.profileid != friend {
      var i :| 0 <= i < |t| && t[i] == c;
      assert clients[i] in clients;
    }
  }

  /** No profile is never online, though clients that have not logged in carry it. */
  lemma StatusOfNoProfile(clients: seq<Client>)
    ensures StatusOf(clients, -1) == "|s|0|ss|Offline"
  {}

  /** What is known of the report about a friend. */
  ghost predicate IsReport(clients: seq<Client>, friend: int, status: string)
    reads clients
  {
    && (Consistent(View(clients)) && friend != NO_PROFILE ==>
          forall c :: c in clients && c.profileid == friend ==> status == c.status)
    && (friend == -1 || (forall c :: c in clients ==> c.profileid != friend) ==> status == "|s|0|ss|Offline")
  }

  lemma StatusIsReport(clients: seq<Client>, friend: int)
    ensures IsReport(clients, friend, StatusOf(clients, friend))
  {
    StatusOfNoProfile(clients);
    hide View, StatusOf, Consistent;
    if Consistent(View(clients)) && friend != NO_PROFILE {
      forall c | c in clients && c.profileid == friend ensures StatusOf(clients, friend) == c.status {
        StatusOfHolder(clients, c);
      }
    }
    if forall c :: c in clients ==> c.profileid != friend {
      StatusOfNobody(clients, friend);
    }
  }

  lemma {:induction false} RemoveAt<C>(t: Table<C>, i: nat)
    requires i < |t| && forall k :: 0 <= k < i ==> t[k].client != t[i].client
    ensures Remove(t, t[i].client) == t[..i] + t[i + 1..]
  {
    if i > 0 {
      RemoveAt(t[1..], i - 1);
      assert t[..i] + t[i + 1..] == [t[0]] + (t[1..][..i - 1] + t[1..][i..]);
    }
  }

  lemma {:induction false} RemoveProfileSnoc<C>(t: Table<C>, c: Conn<C>, profileid: int)
    ensures RemoveProfile(t + [c], profileid) ==
            RemoveProfile(t, profileid) + if c.profileid == profileid then [] else [c]
  {
    if t != [] {
      assert (t + [c])[1..] == t[1..] + [c];
      RemoveProfileSnoc(t[1..], c, profileid);
    }
  }

  /** The table in the middle of disconnecting a profile: entries before `i` have been dealt with. */
  ghost function Halfway<C>(t: Table<C>, i: nat, profileid: int): Table<C>
    requires i <= |t|
  {
    RemoveProfile(t[..i], profileid) + t[i..]
  }

  lemma HalfwayEnds<C>(t: Table<C>, profileid: int)
    ensures Halfway(t, 0, profileid) == t
    ensures Halfway(t, |t|, profileid) == RemoveProfile(t, profileid)
  {
    assert t[..|t|] == t;
  }

  /** The entry at hand goes if it has the profile, being the only one of its client, and stays otherwise. */
  lemma HalfwayNext<C>(t: Table<C>, i: nat, profileid: int)
    requires Consistent(t) && i < |t|
    ensures Halfway(t, i + 1, profileid) ==
            if t[i].profileid == profileid then Remove(Halfway(t, i, profileid), t[i].client)
            else Halfway(t, i, profileid)
  {
    hide Consistent, Remove, RemoveProfile;
    assert t[..i + 1] == t[..i] + [t[i]];
    RemoveProfileSnoc(t[..i], t[i], profileid);
    if t[i].profileid == profileid {
      LeaveAtHand(t, i, profileid);
    } else {
      KeepAtHand(RemoveProfile(t[..i], profileid), t, i);
    }
  }

  lemma LeaveAtHand<C>(t: Table<C>, i: nat, profileid: int)
    requires Consistent(t) && i < |t|
    ensures Remove(RemoveProfile(t[..i], profileid) + t[i..], t[i].client) ==
            RemoveProfile(t[..i], profileid) + t[i + 1..]
  {
    var before := RemoveProfile(t[..i], profileid);
    var all := before + t[i..];
    RemoveProfileKeeps(t[..i], profileid);
    forall k | 0 <= k < |before| ensures all[k].client != t[i].client {
      assert before[k] in t[..i];
      var j :| 0 <= j < i && t[..i][j] == before[k];
      assert t[j] == before[k];
    }
    RemoveAt(all, |before|);
    assert all[|before| + 1..] == t[i + 1..];
  }

  lemma KeepAtHand<C>(kept: Table<C>, t: Table<C>, i: nat)
    requires i < |t|
    ensures kept + t[i..] == (kept + [t[i]]) + t[i + 1..]
  {}

  class Server {
    var clients: seq<Client>

    constructor ()
      ensures clients == []
    {
      clients := [];
    }

    method GetClients() returns (copy: seq<Client>)
      ensures copy == clients
    {
      copy := clients;
    }

    method AcceptClient() returns (client: Client)
      modifies this
      ensures fresh(client) && client.profileid == -1 && clients == old(clients) + [client]
      ensures View(clients) == Next(old(View(clients)), Accept(client))
      ensures Allowed(old(View(clients)), Accept(client))
    {
      hide View, Connected;
      client := new Client();
      ghost var was := clients;
      clients := clients + [client];
      ViewJoin(was, client);
      NotConnectedYet(was, client);
    }

    method OnClientDisconnect(client: Client)
      modifies this
      ensures View(clients) == Remove(old(View(clients)), client)
    {
      hide View, Remove;
      var i := 0;
      while i < |clients| && clients[i] != client
        invariant 0 <= i <= |clients| && clients == old(clients)
        invariant forall k :: 0 <= k < i ==> clients[k] != client
      {
        i := i + 1;
      }
      ghost var t := View(clients);
      if i < |clients| {
        RemoveAt(t, i);
        clients := clients[..i] + clients[i + 1..];
        assert View(clients) == t[..i] + t[i + 1..];
      } else {
        RemoveAbsent(t, client);
      }
    }

    method Disconnect(client: Client)
      modifies this, client`status
      ensures client.status == "|s|0|ss|Offline"
      ensures View(clients) == Next(old(View(clients)), Leave(client))
    {
      hide View, Remove;
      client.status := OFFLINE;
      assert View(clients) == old(View(clients));
      OnClientDisconnect(client);
    }

    /** Disconnects every client of a profile, going through a copy of the list. */
    method DisconnectProfile(profileid: int)
      requires Consistent(View(clients))
      modifies this, (set c | c in clients)`status
      ensures View(clients) == RemoveProfile(old(View(clients)), profileid)
      ensures forall c :: c in old(clients) ==>
        c.status == if c.profileid == profileid then "|s|0|ss|Offline" else old(c.status)
    {
      hide View, Remove, RemoveProfile, Consistent, Halfway;
      ghost var t := View(clients);
      var copy := GetClients();
      HalfwayEnds(t, profileid);
      for i := 0 to |copy|
        invariant View(copy) == t
        invariant View(clients) == Halfway(t, i, profileid)
        invariant forall k :: 0 <= k < i && copy[k].profileid == profileid ==> copy[k].status == OFFLINE
        invariant forall c :: c in copy && c.profileid != profileid ==> c.status == old(c.status)
      {
        var client := copy[i];
        assert t[i] == Conn(client, client.profileid);
        HalfwayNext(t, i, profileid);
        if client.profileid == profileid {
          Disconnect(client);
        }
      }
    }

    method FindSessionByProfileId(profileid: int) returns (session: Option<Client>)
      ensures match Find(View(clients), profileid)
              case None => session == None
              case Some(c) => session == Some(c.client)
    {
      hide View;
      for i := 0 to |clients|
        invariant Find(View(clients), profileid) == Find(View(clients)[i..], profileid)
      {
        if clients[i].profileid == profileid {
          return Some(clients[i]);
        }
        assert View(clients)[i..][1..] == View(clients)[i + 1..];
      }
      return None;
    }

    /** Reports the status of the last friend in line and drops that friend from the line. */
    method SyncFriends(client: Client) returns (report: Option<(int, string)>)
      modifies client`syncFriends
      ensures old(client.syncFriends) == [] ==> report == None && client.syncFriends == []
      ensures old(client.syncFriends) != [] ==>
        var line := old(client.syncFriends);
        var friend := line[|line| - 1];
        && report == Some((friend, StatusOf(clients, friend))) && IsReport(clients, friend, report.value.1)
        && client.syncFriends == line[..|line| - 1]
    {
      hide View, Find, IsReport;
      report := None;
      if |client.syncFriends| >= 1 {
        var id := |client.syncFriends| - 1;
        var friend := client.syncFriends[id];
        var session := FindSessionByProfileId(friend);
        if session.Some? && session.value.profileid != NO_PROFILE {
          report := Some((friend, session.value.status));
        } else {
          report := Some((friend, OFFLINE));
        }
        client.syncFriends := client.syncFriends[..id];
        StatusIsReport(clients, friend);
      }
    }

    /** The calls that a client's later profile requests make, one each. */
    method SyncMoreFriends(client: Client, calls: nat) returns (reported: seq<int>)
      modifies client`syncFriends
      ensures (reported, client.syncFriends) == Synced(old(client.syncFriends), calls)
    {
      reported := [];
      for i := 0 to calls
        invariant (reported, client.syncFriends) == Synced(old(client.syncFriends), i)
      {
        var report := SyncFriends(client);
        assert reported + [] == reported;
        reported := reported + Reported(report);
      }
    }

    /**
     The effect of a login on the sessions, once its parameters have been looked at: nothing at all for a wrong
     password, otherwise the old session of the profile goes and the client takes the profile over.
     */
    method RequestLogin(client: Client, passwordMatches: bool, profileid: int, authtoken: string, friends: seq<int>)
      returns (report: Option<(int, string)>)
      requires Consistent(View(clients))
      modifies this, client, (set c | c in clients)`status
      ensures Consistent(View(clients))
      ensures View(clients) ==
        if passwordMatches then Next(old(View(clients)), Login(client, profileid)) else old(View(clients))
      ensures passwordMatches ==>
        client.profileid == profileid && client.authtoken == authtoken && client.status == "|s|1|ss|Online"
      ensures passwordMatches ==> forall c :: c in old(clients) && c != client ==>
        c.status == if old(c.profileid) == profileid then "|s|0|ss|Offline" else old(c.status)
      ensures passwordMatches ==> (Reported(report), client.syncFriends) == Synced(friends, 1)
      ensures passwordMatches && report.Some? ==> IsReport(clients, report.value.0, report.value.1)
    {
      hide View, Find, RemoveProfile, SetProfile, IsReport, StatusOf, Consistent, Synced;
      report := None;
      if !passwordMatches {
        return;
      }
      ghost var after := Next(View(clients), Login(client, profileid));
      NextKeepsConsistent(View(clients), Login(client, profileid));
      DisconnectProfile(profileid);
      ghost var t := View(clients);
      client.profileid := profileid;
      client.authtoken := authtoken;
      client.status := ONLINE;
      client.syncFriends := friends;
      ProfileTaken(clients, client, t);
      assert View(clients) == after;
      report := SyncFriends(client);
      OneCall(friends);
    }
  }
}
