/**
 What the server-browsing messages carry: length-prefixed requests on the way in, and on the way out a list of
 self-delimiting server records whose flag byte says which fields follow.
 */
module BrowsingRecords {
  import opened Bytes
  import opened BrowsingChallenge
  import opened Wrappers

  // ---------------------------------------------------------------- requests

  predicate Stuck(rest: seq<byte>) {
    |rest| < 2 || BigEndian(rest[0], rest[1]) == 0 || BigEndian(rest[0], rest[1]) > |rest|
  }

  function Requests(buffer: seq<byte>): seq<seq<byte>> {
    if Stuck(buffer) then []
    else
      var size := BigEndian(buffer[0], buffer[1]);
      [buffer[..size]] + Requests(buffer[size..])
  }

  method BufferToRequests(buffer: seq<byte>) returns (requests: seq<seq<byte>>)
    ensures requests == Requests(buffer)
  {
    requests := [];
    var offset := 0;
    while offset + 1 < |buffer|
      invariant 0 <= offset <= |buffer|
      invariant requests + Requests(buffer[offset..]) == Requests(buffer)
      decreases |buffer| - offset
    {
      var requestSize := BigEndian(buffer[offset], buffer[offset + 1]);
      assert buffer[offset..][0] == buffer[offset] && buffer[offset..][1] == buffer[offset + 1];
      if requestSize == 0 || offset + requestSize > |buffer| {
        break;
      }
      var request := buffer[offset..offset + requestSize];
      assert buffer[offset..][..requestSize] == request;
      assert buffer[offset..][requestSize..] == buffer[offset + requestSize..];
      Associate(requests, [request], Requests(buffer[offset + requestSize..]));
      requests := requests + [request];
      offset := offset + requestSize;
    }
    assert Stuck(buffer[offset..]);
    AppendNothing(requests);
  }

  /** What is left of a buffer after the requests taken from its front. */
  function Remainder(buffer: seq<byte>): seq<byte> {
    if Stuck(buffer) then buffer else Remainder(buffer[BigEndian(buffer[0], buffer[1])..])
  }

  /** The requests are cut from the front, leave nothing out, and stop only where no further request can be read. */
  lemma {:induction false} RequestsArePrefix(buffer: seq<byte>)
    ensures Concat(Requests(buffer)) + Remainder(buffer) == buffer
    ensures Stuck(Remainder(buffer))
    ensures forall r :: r in Requests(buffer) ==> r != [] && (|r| >= 2 ==> BigEndian(r[0], r[1]) == |r|)
  {
    if !Stuck(buffer) {
      var size := BigEndian(buffer[0], buffer[1]);
      var head, rest := buffer[..size], buffer[size..];
      RequestsArePrefix(rest);
      ConcatCons(head, Requests(rest));
      Associate(head, Concat(Requests(rest)), Remainder(rest));
    }
  }

  /** Where the splitter stops: the size in the first two bytes is not there, or is none, or is not all there. */
  lemma StuckWithoutSize(rest: seq<byte>)
    ensures |rest| >= 2 ==>
      var high: int := rest[0];
      var size := 256 * high + rest[1];
      Stuck(rest) <==> !(1 <= size <= |rest|)
    ensures |rest| < 2 ==> Stuck(rest)
  {}

  /** A message with its size in front, high byte first, is one request. */
  lemma OneRequest(message: seq<byte>)
    requires |message| + 2 < 65536
    ensures var size := |message| + 2; var frame := [size / 256, size % 256] + message;
            Requests(frame) == [frame]
  {
    var size := |message| + 2;
    var frame := [size / 256, size % 256] + message;
    assert frame[..size] == frame && frame[size..] == [];
    assert Requests([]) == [];
  }

  predicate CarriesOwnSize(frame: seq<byte>) {
    |frame| >= 2 && BigEndian(frame[0], frame[1]) == |frame|
  }

  /** Frames that carry their own size are recovered exactly, whatever incomplete piece follows them. */
  lemma {:induction false} RequestsRecovered(frames: seq<seq<byte>>, tail: seq<byte>)
    requires forall f :: f in frames ==> CarriesOwnSize(f)
    requires Stuck(tail)
    ensures Requests(Concat(frames) + tail) == frames
    ensures Remainder(Concat(frames) + tail) == tail
  {
    if frames == [] {
      assert Concat(frames) + tail == tail;
    } else {
      var head, rest := frames[0], frames[1..];
      var buffer := Concat(frames) + tail;
      assert CarriesOwnSize(head);
      assert buffer == head + (Concat(rest) + tail);
      assert buffer[..|head|] == head && buffer[|head|..] == Concat(rest) + tail;
      assert buffer[0] == head[0] && buffer[1] == head[1];
      RequestsRecovered(rest, tail);
      assert frames == [head] + rest;
    }
  }

  // ---------------------------------------------------------------- server records

  const FLAG_PRIVATE_IP: byte := 2
  const FLAG_ICMP_IP: byte := 8
  const FLAG_NONSTANDARD_PORT: byte := 16
  const FLAG_NONSTANDARD_PRIVATE_PORT: byte := 32

  type Address = ip: seq<byte> | |ip| == 4 witness [0, 0, 0, 0]
  type Port = p: int | 0 <= p < 65536

  datatype GameServer = GameServer(ip: Address, port: Port, flag: byte, verified: bool)

  predicate Has(flag: byte, bit: byte) {
    BitAnd(flag, bit) != 0
  }

  function PortBytes(port: Port): seq<byte> {
    [port / 256, port % 256]
  }

  /** The bytes of one server: the flag, the address, and the fields its flag asks for. */
  function Record(s: GameServer): (r: seq<byte>) {
    [s.flag] + s.ip +
    (if Has(s.flag, FLAG_NONSTANDARD_PORT) then PortBytes(s.port) else []) +
    (if Has(s.flag, FLAG_PRIVATE_IP) then s.ip else []) +
    (if Has(s.flag, FLAG_NONSTANDARD_PRIVATE_PORT) then PortBytes(s.port) else []) +
    (if Has(s.flag, FLAG_ICMP_IP) then s.ip else [])
  }

  /** Each flag is one bit of the flag byte. */
  lemma FlagBits(flag: byte)
    ensures Has(flag, FLAG_PRIVATE_IP) <==> flag / 2 % 2 == 1
    ensures Has(flag, FLAG_ICMP_IP) <==> flag / 8 % 2 == 1
    ensures Has(flag, FLAG_NONSTANDARD_PORT) <==> flag / 16 % 2 == 1
    ensures Has(flag, FLAG_NONSTANDARD_PRIVATE_PORT) <==> flag / 32 % 2 == 1
  {
    AndOneBit(flag, 1);
    AndOneBit(flag, 3);
    AndOneBit(flag, 4);
    AndOneBit(flag, 5);
    PowersAndBits(flag);
    hide BitAnd, Pow2, Bit;
  }

  lemma PowersAndBits(n: nat)
    ensures Pow2(1) == 2 && Pow2(3) == 8 && Pow2(4) == 16 && Pow2(5) == 32
    ensures Bit(n, 1) == n / 2 % 2 && Bit(n, 3) == n / 8 % 2 && Bit(n, 4) == n / 16 % 2 && Bit(n, 5) == n / 32 % 2
  {
    assert n / 2 / 2 / 2 == n / 8;
    assert n / 8 / 2 == n / 16 && n / 16 / 2 == n / 32;
    assert Bit(n, 1) == Bit(n / 2, 0);
    assert Bit(n, 3) == Bit(n / 2, 2) == Bit(n / 2 / 2, 1) == Bit(n / 8, 0);
    assert Bit(n, 4) == Bit(n / 2, 3) == Bit(n / 2 / 2, 2) == Bit(n / 8, 1) == Bit(n / 16, 0);
    assert Bit(n, 5) == Bit(n / 2, 4) == Bit(n / 2 / 2, 3) == Bit(n / 8, 2) == Bit(n / 16, 1) == Bit(n / 32, 0);
  }

  /** The record of a server whose flag asks for everything, 0xbb, and of those that ask for one thing only. */
  lemma RecordLayouts(ip: Address, port: Port, verified: bool)
    ensures Record(GameServer(ip, port, 0xbb, verified)) ==
            [0xbb] + ip + [port / 256, port % 256] + ip + [port / 256, port % 256] + ip
    ensures Record(GameServer(ip, port, 0x12, verified)) == [0x12] + ip + [port / 256, port % 256] + ip
    ensures Record(GameServer(ip, port, 0x22, verified)) == [0x22] + ip + ip + [port / 256, port % 256]
    ensures Record(GameServer(ip, port, 0x28, verified)) == [0x28] + ip + [port / 256, port % 256] + ip
    ensures Record(GameServer(ip, port, 0x85, verified)) == [0x85] + ip
  {
    hide Has;
    FlagBits(0xbb);
    FlagBits(0x12);
    FlagBits(0x22);
    FlagBits(0x28);
    FlagBits(0x85);
  }

  method InsertGameServerFlagIpPort(response: seq<byte>, s: GameServer) returns (r: seq<byte>)
    ensures r == response + Record(s)
  {
    hide Has, PortBytes;
    r := response + [s.flag];
    r := r + s.ip;
    if Has(s.flag, FLAG_NONSTANDARD_PORT) {
      AppendPort(r, s.port);
      r := r + [s.port / 256];
      r := r + [s.port % 256];
    }
    if Has(s.flag, FLAG_PRIVATE_IP) {
      r := r + s.ip;
    }
    if Has(s.flag, FLAG_NONSTANDARD_PRIVATE_PORT) {
      AppendPort(r, s.port);
      r := r + [s.port / 256];
      r := r + [s.port % 256];
    }
    if Has(s.flag, FLAG_ICMP_IP) {
      r := r + s.ip;
    }
    AppendParts(response, s,
                if Has(s.flag, FLAG_NONSTANDARD_PORT) then PortBytes(s.port) else [],
                if Has(s.flag, FLAG_PRIVATE_IP) then s.ip else [],
                if Has(s.flag, FLAG_NONSTANDARD_PRIVATE_PORT) then PortBytes(s.port) else [],
                if Has(s.flag, FLAG_ICMP_IP) then s.ip else []);
  }

  lemma AppendPort(r: seq<byte>, port: Port)
    ensures r + [port / 256] + [port % 256] == r + PortBytes(port)
  {}

  lemma AppendParts(r: seq<byte>, s: GameServer, a: seq<byte>, b: seq<byte>, c: seq<byte>, d: seq<byte>)
    ensures r + [s.flag] + s.ip + a + b + c + d == r + ([s.flag] + s.ip + a + b + c + d)
  {}

  /** A record as a reader sees it, with the fields its flag announces. */
  datatype Fields = Fields(flag: byte, wanIp: Address, wanPort: Option<Port>, localIp: Option<Address>,
                           localPort: Option<Port>, icmpIp: Option<Address>)

  function FieldsOf(s: GameServer): Fields {
    Fields(s.flag, s.ip,
           if Has(s.flag, FLAG_NONSTANDARD_PORT) then Some(s.port) else None,
           if Has(s.flag, FLAG_PRIVATE_IP) then Some(s.ip) else None,
           if Has(s.flag, FLAG_NONSTANDARD_PRIVATE_PORT) then Some(s.port) else None,
           if Has(s.flag, FLAG_ICMP_IP) then Some(s.ip) else None)
  }

  /** A field read at the front of the text, and the text after it; None when the text is too short. */
  type Reading<T> = Option<(T, seq<byte>)>

  function ReadAddress(wanted: bool, text: seq<byte>): Reading<Option<Address>> {
    if !wanted then Some((None, text))
    else if |text| < 4 then None
    else Some((Some(text[..4]), text[4..]))
  }

  function ReadPort(wanted: bool, text: seq<byte>): Reading<Option<Port>> {
    if !wanted then Some((None, text))
    else if |text| < 2 then None
    else Some((Some(BigEndian(text[0], text[1])), text[2..]))
  }

  /** Reads one record, field by field in the order of the flags. */
  function ReadRecord(text: seq<byte>): (r: Reading<Fields>)
    ensures r.Some? ==> |r.value.1| < |text|
  {
    if |text| < 5 then None
    else
      var flag := text[0];
      match ReadPort(Has(flag, FLAG_NONSTANDARD_PORT), text[5..])
      case None => None
      case Some((wanPort, t1)) =>
        match ReadAddress(Has(flag, FLAG_PRIVATE_IP), t1)
        case None => None
        case Some((localIp, t2)) =>
          match ReadPort(Has(flag, FLAG_NONSTANDARD_PRIVATE_PORT), t2)
          case None => None
          case Some((localPort, t3)) =>
            match ReadAddress(Has(flag, FLAG_ICMP_IP), t3)
            case None => None
            case Some((icmpIp, t4)) => Some((Fields(flag, text[1..5], wanPort, localIp, localPort, icmpIp), t4))
  }

  /** Reads records up to the empty flag that ends the list. */
  function ReadRecords(text: seq<byte>): Reading<seq<Fields>>
    decreases |text|
  {
    if text == [] then None
    else if text[0] == 0 then Some(([], text[1..]))
    else
      match ReadRecord(text)
      case None => None
      case Some((head, rest)) =>
        match ReadRecords(rest)
        case None => None
        case Some((tail, end)) => Some(([head] + tail, end))
  }

  lemma ReadAddressBack(wanted: bool, ip: Address, rest: seq<byte>)
    ensures ReadAddress(wanted, (if wanted then ip else []) + rest) ==
            Some((if wanted then Some(ip) else None, rest))
  {
    assert ([] + rest) == rest;
    assert (ip + rest)[..4] == ip && (ip + rest)[4..] == rest;
  }

  lemma ReadPortBack(wanted: bool, port: Port, rest: seq<byte>)
    ensures ReadPort(wanted, (if wanted then PortBytes(port) else []) + rest) ==
            Some((if wanted then Some(port) else None, rest))
  {
    assert ([] + rest) == rest;
    assert (PortBytes(port) + rest)[2..] == rest;
  }

  lemma RecordParts(s: GameServer, rest: seq<byte>, a: seq<byte>, b: seq<byte>, c: seq<byte>, d: seq<byte>)
    ensures [s.flag] + s.ip + a + b + c + d + rest == [s.flag] + s.ip + (a + (b + (c + (d + rest))))
  {}

  /** One record delimits itself: it is read back exactly, and what follows it is left alone. */
  lemma RecordReadBack(s: GameServer, rest: seq<byte>)
    ensures ReadRecord(Record(s) + rest) == Some((FieldsOf(s), rest))
  {
    hide Has, PortBytes;
    var wanPort := if Has(s.flag, FLAG_NONSTANDARD_PORT) then PortBytes(s.port) else [];
    var localIp := if Has(s.flag, FLAG_PRIVATE_IP) then s.ip else [];
    var localPort := if Has(s.flag, FLAG_NONSTANDARD_PRIVATE_PORT) then PortBytes(s.port) else [];
    var icmpIp := if Has(s.flag, FLAG_ICMP_IP) then s.ip else [];
    var t4 := rest;
    var t3 := icmpIp + t4;
    var t2 := localPort + t3;
    var t1 := localIp + t2;
    var t0 := wanPort + t1;
    var text := Record(s) + rest;
    RecordParts(s, rest, wanPort, localIp, localPort, icmpIp);
    assert text == [s.flag] + s.ip + t0;
    assert text[1..5] == s.ip && text[5..] == t0;
    ReadPortBack(Has(s.flag, FLAG_NONSTANDARD_PORT), s.port, t1);
    ReadAddressBack(Has(s.flag, FLAG_PRIVATE_IP), s.ip, t2);
    ReadPortBack(Has(s.flag, FLAG_NONSTANDARD_PRIVATE_PORT), s.port, t3);
    ReadAddressBack(Has(s.flag, FLAG_ICMP_IP), s.ip, t4);
  }

  function Records(servers: seq<GameServer>): seq<byte> {
    if servers == [] then [] else Record(servers[0]) + Records(servers[1..])
  }

  function AllFieldsOf(servers: seq<GameServer>): (r: seq<Fields>)
    ensures |r| == |servers|
  {
    if servers == [] then [] else [FieldsOf(servers[0])] + AllFieldsOf(servers[1..])
  }

  predicate FlagsNonZero(servers: seq<GameServer>) {
    forall s :: s in servers ==> s.flag != 0
  }

  /** How many servers stand before the first one with an empty flag. */
  function Listed(servers: seq<GameServer>): (n: nat)
    ensures n <= |servers|
    ensures forall i :: 0 <= i < n ==> servers[i].flag != 0
    ensures n < |servers| ==> servers[n].flag == 0
  {
    if servers == [] || servers[0].flag == 0 then 0 else 1 + Listed(servers[1..])
  }

  /** What is left over when reading stops: the rest of the record that has the empty flag, and all after it. */
  function LeftOver(servers: seq<GameServer>, rest: seq<byte>): seq<byte> {
    var n := Listed(servers);
    if n == |servers| then rest else Record(servers[n])[1..] + (Records(servers[n + 1..]) + [0] + rest)
  }

  lemma ListedCons(s: GameServer, servers: seq<GameServer>)
    requires s.flag != 0
    ensures Listed([s] + servers) == 1 + Listed(servers)
  {
    assert ([s] + servers)[1..] == servers;
  }

  lemma DropCons<T>(s: T, t: seq<T>, n: nat)
    requires n < |t|
    ensures ([s] + t)[n + 1] == t[n] && ([s] + t)[n + 1 + 1..] == t[n + 1..]
  {}

  lemma LeftOverCons(s: GameServer, servers: seq<GameServer>, rest: seq<byte>)
    requires s.flag != 0
    ensures LeftOver([s] + servers, rest) == LeftOver(servers, rest)
  {
    hide Record, Records, Listed;
    ListedCons(s, servers);
    var all, m, n := [s] + servers, Listed([s] + servers), Listed(servers);
    if n < |servers| {
      DropCons(s, servers, n);
      assert all[m] == servers[n];
      assert all[m + 1..] == servers[n + 1..];
      RecordHead(servers[n]);
      assert LeftOver(all, rest) == Record(all[m])[1..] + (Records(all[m + 1..]) + [0] + rest);
    }
  }

  lemma AllFieldsOfCons(s: GameServer, servers: seq<GameServer>, n: nat)
    requires n <= |servers|
    ensures AllFieldsOf(([s] + servers)[..n + 1]) == [FieldsOf(s)] + AllFieldsOf(servers[..n])
  {
    hide FieldsOf;
    assert ([s] + servers)[..n + 1][1..] == servers[..n];
  }

  lemma ReadRecordsCons(s: GameServer, more: seq<byte>)
    requires s.flag != 0
    ensures ReadRecords(Record(s) + more) ==
            match ReadRecords(more)
            case None => None
            case Some((tail, end)) => Some(([FieldsOf(s)] + tail, end))
  {
    RecordHead(s);
    RecordReadBack(s, more);
    hide Record, ReadRecord, FieldsOf;
  }

  /** What any list is read as: exactly the servers before the first empty flag, and what that flag leaves over. */
  lemma {:induction false} ReadUpToEmptyFlag(servers: seq<GameServer>, rest: seq<byte>)
    ensures ReadRecords(Records(servers) + [0] + rest) ==
            Some((AllFieldsOf(servers[..Listed(servers)]), LeftOver(servers, rest)))
  {
    hide Record, ReadRecord, FieldsOf;
    var text := Records(servers) + [0] + rest;
    if servers == [] {
      assert text == [0] + rest;
      assert text[1..] == rest;
    } else {
      var head, tail := servers[0], servers[1..];
      var more := Records(tail) + [0] + rest;
      assert servers == [head] + tail;
      assert text == Record(head) + more;
      if head.flag == 0 {
        RecordHead(head);
        assert text[1..] == Record(head)[1..] + more;
      } else {
        ReadUpToEmptyFlag(tail, rest);
        ReadRecordsCons(head, more);
        ListedCons(head, tail);
        LeftOverCons(head, tail, rest);
        AllFieldsOfCons(head, tail, Listed(tail));
      }
    }
  }

  /**
   A list ended by an empty flag is read back as exactly its servers, with exactly what follows it left over,
   if and only if no server has an empty flag.
   */
  lemma RecordsReadBack(servers: seq<GameServer>, rest: seq<byte>)
    ensures ReadRecords(Records(servers) + [0] + rest) == Some((AllFieldsOf(servers), rest)) <==>
            FlagsNonZero(servers)
  {
    hide Record, Records, ReadRecords;
    ReadUpToEmptyFlag(servers, rest);
    AllListed(servers);
    if FlagsNonZero(servers) {
      assert servers[..|servers|] == servers;
    } else {
      assert |AllFieldsOf(servers[..Listed(servers)])| < |AllFieldsOf(servers)|;
    }
  }

  lemma AllListed(servers: seq<GameServer>)
    ensures FlagsNonZero(servers) <==> Listed(servers) == |servers|
  {
    if Listed(servers) < |servers| {
      assert servers[Listed(servers)] in servers;
    }
  }

  /** The empty flag only misleads a reader that stops at it: read to the end, the records give every list. */
  function ReadAll(text: seq<byte>): Option<seq<Fields>>
    decreases |text|
  {
    if text == [] then Some([])
    else
      match ReadRecord(text)
      case None => None
      case Some((head, rest)) =>
        match ReadAll(rest)
        case None => None
        case Some(tail) => Some([head] + tail)
  }

  lemma {:induction false} RecordsReadToEnd(servers: seq<GameServer>)
    ensures ReadAll(Records(servers)) == Some(AllFieldsOf(servers))
  {
    hide Record, ReadRecord, FieldsOf;
    if servers != [] {
      RecordHead(servers[0]);
      RecordReadBack(servers[0], Records(servers[1..]));
      RecordsReadToEnd(servers[1..]);
    }
  }

  lemma RecordHead(s: GameServer)
    ensures |Record(s)| > 0 && Record(s)[0] == s.flag
  {}

  // ---------------------------------------------------------------- the server list

  const CLIENT_PORT: Port := 6500

  /** The bytes that tell the game its decryption went right. */
  const CLOSING: seq<byte> := [0xff, 0xff, 0xff, 0xff]

  function Verified(servers: seq<GameServer>): seq<GameServer> {
    if servers == [] then []
    else (if servers[0].verified then [servers[0]] else []) + Verified(servers[1..])
  }

  /** Only verified servers are listed, each as often as before. */
  lemma {:induction false} VerifiedCount(servers: seq<GameServer>, s: GameServer)
    ensures multiset(Verified(servers))[s] == if s.verified then multiset(servers)[s] else 0
  {
    if servers != [] {
      VerifiedCount(servers[1..], s);
      assert servers == [servers[0]] + servers[1..];
    }
  }

  /** And their order stays. */
  lemma {:induction false} VerifiedConcat(a: seq<GameServer>, b: seq<GameServer>)
    ensures Verified(a + b) == Verified(a) + Verified(b)
  {
    if a == [] {
      assert a + b == b;
      AppendNothing(Verified(b));
    } else {
      var first := if a[0].verified then [a[0]] else [];
      assert (a + b)[1..] == a[1..] + b;
      VerifiedConcat(a[1..], b);
      Associate(first, Verified(a[1..]), Verified(b));
    }
  }

  /** The fixed bytes of a list: the port 6500 in front, the empty flag and four bytes 0xff behind. */
  lemma PayloadBytes(clientIp: Address, headerItems: seq<byte>, servers: seq<GameServer>)
    ensures ListPayload(clientIp, headerItems, servers) ==
            clientIp + [0x19, 0x64] + headerItems + Records(Verified(servers)) + [0x00, 0xff, 0xff, 0xff, 0xff]
  {
    hide Records, Verified;
  }

  /** What the server list says before it is sealed. */
  function ListPayload(clientIp: Address, headerItems: seq<byte>, servers: seq<GameServer>): seq<byte> {
    clientIp + PortBytes(CLIENT_PORT) + headerItems + Records(Verified(servers)) + [0] + CLOSING
  }

  /** The reader's side of a list whose header items it knows. */
  function ReadList(headerItems: seq<byte>, payload: seq<byte>): Option<seq<Fields>> {
    if |payload| < 6 + |headerItems| then None
    else
      match ReadRecords(payload[6 + |headerItems|..])
      case None => None
      case Some((servers, end)) => if end == CLOSING then Some(servers) else None
  }

  lemma RecordsSnoc(servers: seq<GameServer>, s: GameServer)
    ensures Records(servers + [s]) == Records(servers) + Record(s)
  {
    if servers == [] {
      assert servers + [s] == [s];
      assert Records([s]) == Record(s) + Records([]);
    } else {
      assert (servers + [s])[1..] == servers[1..] + [s];
      RecordsSnoc(servers[1..], s);
      assert Record(servers[0]) + (Records(servers[1..]) + Record(s)) ==
             (Record(servers[0]) + Records(servers[1..])) + Record(s);
    }
  }

  lemma VerifiedSnoc(servers: seq<GameServer>, s: GameServer)
    ensures Verified(servers + [s]) == Verified(servers) + if s.verified then [s] else []
  {
    var last := if s.verified then [s] else [];
    if servers == [] {
      assert servers + [s] == [s];
      assert Verified([s]) == last + Verified([]);
    } else {
      var first := if servers[0].verified then [servers[0]] else [];
      assert (servers + [s])[1..] == servers[1..] + [s];
      VerifiedSnoc(servers[1..], s);
      Associate(first, Verified(servers[1..]), last);
    }
  }

  /** Assembles and seals the answer to a server-list request. */
  method SendServerList(clientIp: Address, headerItems: seq<byte>, servers: seq<GameServer>,
                        clientChallenge: seq<byte>, secret: Secret) returns (message: array<byte>)
    requires |clientChallenge| >= CLIENT_LEN
    ensures message[..] == Sealed(clientChallenge, seq(SERVER_LEN, _ => 0), secret,
                                  ListPayload(clientIp, headerItems, servers))
  {
    hide Sealed, Record, Records, Verified;
    var response: seq<byte> := seq(HEADER_LEN, _ => 0);
    response := response + clientIp + [CLIENT_PORT / 256] + [CLIENT_PORT % 256];
    response := response + headerItems;
    ghost var start := response;
    EmptyList();
    for n := 0 to |servers|
      invariant response == start + Records(Verified(servers[..n]))
    {
      assert servers[..n + 1] == servers[..n] + [servers[n]];
      VerifiedSnoc(servers[..n], servers[n]);
      assert Verified(servers[..n]) + [] == Verified(servers[..n]);
      if servers[n].verified {
        response := InsertGameServerFlagIpPort(response, servers[n]);
        RecordsSnoc(Verified(servers[..n]), servers[n]);
      }
    }
    response := response + [0x00];
    response := response + [0xff] + [0xff] + [0xff] + [0xff];
    assert servers[..|servers|] == servers;
    assert response[HEADER_LEN..] == ListPayload(clientIp, headerItems, servers);
    message := new byte[|response|](i requires 0 <= i < |response| => response[i]);
    assert message[..] == response;
    Encrypt(message, clientChallenge, secret);
  }

  lemma EmptyList()
    ensures Records(Verified([])) == []
  {}

  /**
   From the database to the game: the receiver of a sealed list reads exactly the verified servers, in order, if
   none of them has an empty flag, and otherwise finds the list not closed as it should be.
   */
  lemma ServerListDelivered(clientIp: Address, headerItems: seq<byte>, servers: seq<GameServer>,
                            client: seq<byte>, server: seq<byte>, secret: Secret)
    requires |client| >= CLIENT_LEN && |server| == SERVER_LEN
    ensures var message := Sealed(client, server, secret, ListPayload(clientIp, headerItems, servers));
            |message| >= HEADER_LEN &&
            ReadList(headerItems, Opened(client, secret, message)) ==
            if FlagsNonZero(Verified(servers)) then Some(AllFieldsOf(Verified(servers))) else None
  {
    hide Sealed, Opened, Records, ReadRecords, AllFieldsOf, Verified, FlagsNonZero, LeftOver;
    var payload := ListPayload(clientIp, headerItems, servers);
    OpenedSealed(client, server, secret, payload);
    var listed := Verified(servers);
    assert payload[6 + |headerItems|..] == Records(listed) + [0] + CLOSING;
    ReadUpToEmptyFlag(listed, CLOSING);
    AllListed(listed);
    LeftOverLength(listed, CLOSING);
    assert Listed(listed) == |listed| ==> listed[..Listed(listed)] == listed;
  }

  /** A list cut short leaves more over than what follows it. */
  lemma LeftOverLength(servers: seq<GameServer>, rest: seq<byte>)
    ensures if Listed(servers) == |servers| then LeftOver(servers, rest) == rest
            else |LeftOver(servers, rest)| > |rest|
  {}
}
