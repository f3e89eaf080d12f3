/**
 The sealed responses of the server-browsing protocol: a header that carries the server challenge in the clear,
 and a body enciphered under a key that both sides derive from the two challenges and a shared secret.
 */
module BrowsingChallenge {
  import opened Bytes
  import opened GoaCipher
  import opened GoaKeySetup

  const CRYPT_LEN := 10
  const SERVER_LEN := 25
  const CLIENT_LEN := 8
  const HEADER_LEN := 1 + CRYPT_LEN + 1 + SERVER_LEN

  /** Not a constant here: the server and the game-side decoder carry different ones. */
  type Secret = s: seq<byte> | 0 < |s| witness [0]

  // ---------------------------------------------------------------- specification

  /** The key after the first `n` of the 25 derivation steps. */
  function DeriveKey(client: seq<byte>, server: seq<byte>, secret: Secret, n: nat): (key: seq<byte>)
    requires |client| == CLIENT_LEN && |server| == SERVER_LEN && n <= SERVER_LEN
    ensures |key| == CLIENT_LEN
  {
    if n == 0 then client
    else
      var i := n - 1;
      var key := DeriveKey(client, server, secret, i);
      var at := DerivationIndex(secret, i);
      key[at := Xor(key[at], Xor(key[i % CLIENT_LEN], server[i]))]
  }

  function DerivationIndex(secret: Secret, i: nat): (at: nat)
    ensures at < CLIENT_LEN
  {
    i * secret[i % |secret|] % CLIENT_LEN
  }

  // ---------------------------------------------------------------- the key of the server's own secret

  /** The secret that the server uses. */
  function ServerSecret(): Secret {
    Ascii("Hpch92")
  }

  /** The place that each derivation step changes under that secret. */
  const PLACES: seq<nat> := [0, 0, 6, 0, 4, 2, 0, 0, 0, 0, 2, 6, 0, 0, 2, 0, 0, 2, 0, 0, 4, 0, 6, 6, 0]

  lemma SecretRemainders(i: nat)
    ensures ServerSecret()[i % 6] % 8 == [0, 0, 3, 0, 1, 2][i % 6]
  {
    assert ServerSecret() == [72, 112, 99, 104, 57, 50];
  }

  lemma ProductRemainder(i: nat, n: nat)
    ensures i * n % 8 == i * (n % 8) % 8
  {
    var q, r := n / 8, n % 8;
    assert i * n == i * r + 8 * (i * q);
    SameRemainder(i * r, i * q);
  }

  lemma SameRemainder(r: nat, q: nat)
    ensures (r + 8 * q) % 8 == r % 8
  {}

  lemma PlaceOf(i: nat)
    requires i < SERVER_LEN
    ensures DerivationIndex(ServerSecret(), i) == PLACES[i]
  {
    SecretRemainders(i);
    ProductRemainder(i, ServerSecret()[i % 6]);
    var r := ServerSecret()[i % 6] % 8;
    hide ServerSecret;
    assert i * r == if r == 0 then 0 else if r == 1 then i else if r == 2 then 2 * i else 3 * i;
  }

  type Eight = b: seq<byte> | |b| == 8 witness [0, 0, 0, 0, 0, 0, 0, 0]

  /** The bytes of the key after `n` steps, except the first, which the last step overwrites. */
  predicate Tail(c: seq<byte>, s: seq<byte>, n: nat, bytes: Eight)
    requires |c| == CLIENT_LEN && |s| == SERVER_LEN && n <= SERVER_LEN
  {
    forall k :: 1 <= k < CLIENT_LEN ==> DeriveKey(c, s, ServerSecret(), n)[k] == bytes[k]
  }

  /** Steps at place 0 leave these bytes alone. */
  lemma {:induction false} Leave(c: seq<byte>, s: seq<byte>, n: nat, m: nat, bytes: Eight)
    requires |c| == CLIENT_LEN && |s| == SERVER_LEN && n <= m <= SERVER_LEN && Tail(c, s, n, bytes)
    requires forall i :: n <= i < m ==> PLACES[i] == 0
    ensures Tail(c, s, m, bytes)
    decreases m - n
  {
    hide Xor, ServerSecret;
    if n < m {
      PlaceOf(n);
      Leave(c, s, n + 1, m, bytes);
    }
  }

  /** A step at another place mixes two of them with a byte of the server. */
  lemma Mix(c: seq<byte>, s: seq<byte>, n: nat, bytes: Eight, place: nat, from: nat)
    requires |c| == CLIENT_LEN && |s| == SERVER_LEN && n < SERVER_LEN && Tail(c, s, n, bytes)
    requires place == PLACES[n] && from == n % 8 && 1 <= place < 8 && 1 <= from < 8
    ensures Tail(c, s, n + 1, bytes[place := Xor(bytes[place], Xor(bytes[from], s[n]))])
  {
    hide Xor, ServerSecret;
    PlaceOf(n);
  }

  /** A place mixed with itself is left with the server's byte. */
  lemma Replace(c: seq<byte>, s: seq<byte>, n: nat, bytes: Eight, place: nat)
    requires |c| == CLIENT_LEN && |s| == SERVER_LEN && n < SERVER_LEN && Tail(c, s, n, bytes)
    requires place == PLACES[n] == n % 8 && 1 <= place < 8
    ensures Tail(c, s, n + 1, bytes[place := s[n]])
  {
    hide Tail, Xor;
    Mix(c, s, n, bytes, place, place);
    XorTwice(bytes[place], s[n]);
  }

  lemma TailAtStart(c: seq<byte>, s: seq<byte>)
    requires |c| == CLIENT_LEN && |s| == SERVER_LEN
    ensures Tail(c, s, 0, c)
  {}

  lemma LastStep(c: seq<byte>, s: seq<byte>)
    requires |c| == CLIENT_LEN && |s| == SERVER_LEN
    ensures DeriveKey(c, s, ServerSecret(), SERVER_LEN)[0] == s[24]
  {
    hide Xor, ServerSecret;
    PlaceOf(24);
    XorTwice(DeriveKey(c, s, ServerSecret(), 24)[0], s[24]);
  }

  lemma FirstHalf(c: seq<byte>, s: seq<byte>) returns (bytes: Eight)
    requires |c| == CLIENT_LEN && |s| == SERVER_LEN
    ensures Tail(c, s, 12, bytes)
    ensures bytes[1] == c[1] && bytes[2] == s[10] && bytes[3] == c[3] && bytes[4] == s[4] && bytes[5] == c[5]
    ensures bytes[6] == Xor(Xor(c[6], Xor(c[2], s[2])), Xor(c[3], s[11])) && bytes[7] == c[7]
  {
    hide Tail, Xor, ServerSecret;
    TailAtStart(c, s);
    Leave(c, s, 0, 2, c);
    Mix(c, s, 2, c, 6, 2);
    var b2: Eight := c[6 := Xor(c[6], Xor(c[2], s[2]))];
    Leave(c, s, 3, 4, b2);
    Replace(c, s, 4, b2, 4);
    var b4: Eight := b2[4 := s[4]];
    Mix(c, s, 5, b4, 2, 5);
    var b5: Eight := b4[2 := Xor(b4[2], Xor(b4[5], s[5]))];
    Leave(c, s, 6, 10, b5);
    Replace(c, s, 10, b5, 2);
    var b10: Eight := b5[2 := s[10]];
    Mix(c, s, 11, b10, 6, 3);
    bytes := b10[6 := Xor(b10[6], Xor(b10[3], s[11]))];
  }

  /** The whole key that server and game derive, byte by byte. */
  lemma ServerKey(c: seq<byte>, s: seq<byte>)
    requires |c| == CLIENT_LEN && |s| == SERVER_LEN
    ensures DeriveKey(c, s, ServerSecret(), SERVER_LEN) ==
            [s[24], c[1],
             Xor(Xor(s[10], Xor(Xor(Xor(c[6], Xor(c[2], s[2])), Xor(c[3], s[11])), s[14])), Xor(c[1], s[17])),
             c[3], s[20], c[5], Xor(s[22], Xor(c[7], s[23])), c[7]]
  {
    hide DeriveKey, Tail, Xor, ServerSecret;
    var b11 := FirstHalf(c, s);
    Leave(c, s, 12, 14, b11);
    Mix(c, s, 14, b11, 2, 6);
    var b14: Eight := b11[2 := Xor(b11[2], Xor(b11[6], s[14]))];
    Leave(c, s, 15, 17, b14);
    Mix(c, s, 17, b14, 2, 1);
    var b17: Eight := b14[2 := Xor(b14[2], Xor(b14[1], s[17]))];
    Leave(c, s, 18, 20, b17);
    Replace(c, s, 20, b17, 4);
    var b20: Eight := b17[4 := s[20]];
    Leave(c, s, 21, 22, b20);
    Replace(c, s, 22, b20, 6);
    var b22: Eight := b20[6 := s[22]];
    Mix(c, s, 23, b22, 6, 7);
    var b23: Eight := b22[6 := Xor(b22[6], Xor(b22[7], s[23]))];
    Leave(c, s, 24, 25, b23);
    LastStep(c, s);
    TailBytes(c, s, b23);
  }

  lemma TailBytes(c: seq<byte>, s: seq<byte>, b: Eight)
    requires |c| == CLIENT_LEN && |s| == SERVER_LEN && Tail(c, s, SERVER_LEN, b)
    ensures var key := DeriveKey(c, s, ServerSecret(), SERVER_LEN);
            key == [key[0], b[1], b[2], b[3], b[4], b[5], b[6], b[7]]
  {
    hide DeriveKey, ServerSecret;
  }

  lemma XorNothing(b: byte)
    ensures Xor(b, 0) == b && Xor(0, b) == b
  {
    XorTwice(b, 0);
    XorTwice(0, b);
    BitXorCommutes(0, b);
    XorWithZero(b);
  }

  lemma XorWithZero(n: nat)
    ensures BitXor(n, 0) == n
  {}

  /**
   Against the challenge of zeros that the server sends, the first and the fifth byte of the client's challenge never
   count, and two bytes of the key are always 0.
   */
  lemma ServerKeyOfZeros(c: seq<byte>)
    requires |c| == CLIENT_LEN
    ensures DeriveKey(c, seq(SERVER_LEN, _ => 0), ServerSecret(), SERVER_LEN) ==
            [0, c[1], Xor(Xor(Xor(c[6], c[2]), c[3]), c[1]), c[3], 0, c[5], c[7], c[7]]
  {
    hide DeriveKey, Xor, ServerSecret;
    ServerKey(c, seq(SERVER_LEN, _ => 0));
    XorNothing(c[1]);
    XorNothing(c[2]);
    XorNothing(c[3]);
    XorNothing(c[7]);
    XorNothing(Xor(Xor(c[6], c[2]), c[3]));
  }

  // ---------------------------------------------------------------- sealing and opening

  function Header(server: seq<byte>): (h: seq<byte>)
    requires |server| == SERVER_LEN
    ensures |h| == HEADER_LEN
  {
    [0xe6] + seq(CRYPT_LEN, _ => 0xff) + [0xf3] + server
  }

  /** What is sent: the header, then the payload enciphered under the derived key. */
  function Sealed(client: seq<byte>, server: seq<byte>, secret: Secret, payload: seq<byte>): seq<byte>
    requires |client| >= CLIENT_LEN && |server| == SERVER_LEN
  {
    var key := DeriveKey(client[..CLIENT_LEN], server, secret, SERVER_LEN);
    Header(server) + Run(Encipher, KeyedState(key), payload).1
  }

  /** What a receiver reads: the server challenge is taken from the message itself. */
  function Opened(client: seq<byte>, secret: Secret, message: seq<byte>): seq<byte>
    requires |client| >= CLIENT_LEN && |message| >= HEADER_LEN
  {
    var server := message[CRYPT_LEN + 2..HEADER_LEN];
    var key := DeriveKey(client[..CLIENT_LEN], server, secret, SERVER_LEN);
    Run(Decipher, KeyedState(key), message[HEADER_LEN..]).1
  }

  /** What the server in fact sends: 37 bytes in the clear, and the payload enciphered under a key made of six bytes. */
  lemma ServerSends(client: seq<byte>, payload: seq<byte>)
    requires |client| >= CLIENT_LEN
    ensures var c := client;
            var key := [0, c[1], Xor(Xor(Xor(c[6], c[2]), c[3]), c[1]), c[3], 0, c[5], c[7], c[7]];
            var message := Sealed(client, seq(SERVER_LEN, _ => 0), ServerSecret(), payload);
            message[..37] == Header(seq(SERVER_LEN, _ => 0)) &&
            message[37..] == Run(Encipher, KeyedState(key), payload).1
  {
    ServerKeyOfZeros(client[..CLIENT_LEN]);
    hide DeriveKey, Header, ServerSecret, Run, KeyedState, Xor;
  }

  /** A receiver that knows the client challenge and the secret recovers exactly the payload. */
  lemma OpenedSealed(client: seq<byte>, server: seq<byte>, secret: Secret, payload: seq<byte>)
    requires |client| >= CLIENT_LEN && |server| == SERVER_LEN
    ensures |Sealed(client, server, secret, payload)| == HEADER_LEN + |payload|
    ensures Opened(client, secret, Sealed(client, server, secret, payload)) == payload
  {
    hide Run, KeyedState, DeriveKey;
    var key := DeriveKey(client[..CLIENT_LEN], server, secret, SERVER_LEN);
    var body := Run(Encipher, KeyedState(key), payload).1;
    var message := Header(server) + body;
    assert message[CRYPT_LEN + 2..HEADER_LEN] == server;
    assert message[HEADER_LEN..] == body;
    RunInverse(Encipher, KeyedState(key), payload);
  }

  lemma DeriveFirst(client: seq<byte>, server: seq<byte>, secret: Secret)
    requires |client| == CLIENT_LEN && |server| == SERVER_LEN
    ensures DeriveKey(client, server, secret, 1) == client[0 := server[0]]
  {
    assert DeriveKey(client, server, secret, 0) == client;
    assert DerivationIndex(secret, 0) == 0;
    XorTwice(client[0], server[0]);
  }

  /**
   The first derivation step overwrites the first byte of the key; so challenges that differ in that byte alone give
   the same key.
   */
  lemma {:induction false} FirstByteIgnored(a: seq<byte>, b: seq<byte>, server: seq<byte>, secret: Secret, n: nat)
    requires |a| == |b| == CLIENT_LEN && |server| == SERVER_LEN && 1 <= n <= SERVER_LEN
    requires a[1..] == b[1..]
    ensures DeriveKey(a, server, secret, n) == DeriveKey(b, server, secret, n)
  {
    if n == 1 {
      DeriveFirst(a, server, secret);
      DeriveFirst(b, server, secret);
      assert a == [a[0]] + a[1..] && b == [b[0]] + b[1..];
    } else {
      hide Xor;
      FirstByteIgnored(a, b, server, secret, n - 1);
    }
  }

  /** Hence nothing sent or read depends on that byte. */
  lemma OpenedWithoutFirstByte(a: seq<byte>, b: seq<byte>, secret: Secret, message: seq<byte>)
    requires |a| >= CLIENT_LEN && |b| >= CLIENT_LEN && |message| >= HEADER_LEN
    requires a[1..CLIENT_LEN] == b[1..CLIENT_LEN]
    ensures Opened(a, secret, message) == Opened(b, secret, message)
  {
    hide DeriveKey, Run, KeyedState;
    assert a[..CLIENT_LEN][1..] == a[1..CLIENT_LEN] && b[..CLIENT_LEN][1..] == b[1..CLIENT_LEN];
    FirstByteIgnored(a[..CLIENT_LEN], b[..CLIENT_LEN], message[CRYPT_LEN + 2..HEADER_LEN], secret, SERVER_LEN);
  }

  /** The two length bytes of the header give the lengths of what follows them. */
  lemma HeaderLengths(server: seq<byte>)
    requires |server| == SERVER_LEN
    ensures Xor(Header(server)[0], 0xec) == CRYPT_LEN
    ensures Xor(Header(server)[CRYPT_LEN + 1], 0xea) == SERVER_LEN
    ensures Header(server)[1..11] == [0xff, 0xff, 0xff, 0xff, 0xff, 0xff, 0xff, 0xff, 0xff, 0xff]
    ensures Header(server)[12..37] == server
  {
    hide Xor;
    DigitsXor(0xe, 0x6, 0xe, 0xc, 0x0, 0xa);
    DigitsXor(0xf, 0x3, 0xe, 0xa, 0x1, 0x9);
  }

  /** Distinct payloads are sent as distinct messages. */
  lemma SealedInjective(client: seq<byte>, server: seq<byte>, secret: Secret, a: seq<byte>, b: seq<byte>)
    requires |client| >= CLIENT_LEN && |server| == SERVER_LEN
    requires Sealed(client, server, secret, a) == Sealed(client, server, secret, b)
    ensures a == b
  {
    OpenedSealed(client, server, secret, a);
    OpenedSealed(client, server, secret, b);
  }

  // ---------------------------------------------------------------- both sides in place

  /** The derivation loop, in place on an eight-byte buffer, as both sides run it. */
  method Derive(key: array<byte>, server: seq<byte>, secret: Secret)
    requires key.Length == CLIENT_LEN && |server| == SERVER_LEN
    modifies key
    ensures key[..] == DeriveKey(old(key[..]), server, secret, SERVER_LEN)
  {
    for i := 0 to SERVER_LEN
      invariant key[..] == DeriveKey(old(key[..]), server, secret, i)
    {
      var index := i * secret[i % |secret|] % CLIENT_LEN;
      var value := Xor(key[i % CLIENT_LEN], server[i]);
      key[index] := Xor(key[index], value);
    }
  }

  lemma HeaderWritten(h: seq<byte>, server: seq<byte>)
    requires |h| == HEADER_LEN && |server| == SERVER_LEN
    requires h[0] == 0xe6 && h[CRYPT_LEN + 1] == 0xf3
    requires forall k :: 1 <= k < 1 + CRYPT_LEN ==> h[k] == 0xff
    requires forall k :: 0 <= k < SERVER_LEN ==> h[CRYPT_LEN + 2 + k] == server[k]
    ensures h == Header(server)
  {}

  /** The clear part of a response, over whatever was there. */
  method WriteHeader(response: array<byte>) returns (serverChallenge: seq<byte>)
    requires response.Length >= HEADER_LEN
    modifies response
    ensures serverChallenge == seq(SERVER_LEN, _ => 0)
    ensures response[..] == Header(serverChallenge) + old(response[HEADER_LEN..])
  {
    hide Header;
    ghost var payload := response[HEADER_LEN..];
    response[0] := 0xe6;
    for i := 0 to CRYPT_LEN
      invariant response[0] == 0xe6
      invariant forall k :: 1 <= k < 1 + i ==> response[k] == 0xff
      invariant response[HEADER_LEN..] == payload
    {
      response[1 + i] := 0xff;
    }
    response[CRYPT_LEN + 1] := 0xf3;
    serverChallenge := seq(SERVER_LEN, _ => 0);
    for i := 0 to SERVER_LEN
      invariant response[0] == 0xe6 && response[CRYPT_LEN + 1] == 0xf3
      invariant forall k :: 1 <= k < 1 + CRYPT_LEN ==> response[k] == 0xff
      invariant forall k :: CRYPT_LEN + 2 <= k < CRYPT_LEN + 2 + i ==> response[k] == 0
      invariant response[HEADER_LEN..] == payload
    {
      response[CRYPT_LEN + 2 + i] := serverChallenge[i];
    }
    HeaderWritten(response[..HEADER_LEN], serverChallenge);
    assert response[..] == response[..HEADER_LEN] + response[HEADER_LEN..];
  }

  /** The server's side: fills the header in and enciphers the rest of the response. */
  method Encrypt(response: array<byte>, clientChallenge: seq<byte>, secret: Secret)
    requires response.Length >= HEADER_LEN && |clientChallenge| >= CLIENT_LEN
    modifies response
    ensures response[..] ==
      Sealed(clientChallenge, seq(SERVER_LEN, _ => 0), secret, old(response[HEADER_LEN..]))
  {
    hide Run, KeyedState, DeriveKey, Overwrite, Header;
    ghost var payload := response[HEADER_LEN..];
    var serverChallenge := WriteHeader(response);
    ghost var before := response[..];
    assert before[..HEADER_LEN] == Header(serverChallenge);
    assert before[HEADER_LEN..response.Length] == payload;
    var key := new byte[CLIENT_LEN](i requires 0 <= i < CLIENT_LEN => clientChallenge[i]);
    assert key[..] == clientChallenge[..CLIENT_LEN];
    Derive(key, serverChallenge, secret);
    var state := new GoaState();
    CryptInit(state, key[..]);
    state.Encrypt(response, HEADER_LEN, response.Length - HEADER_LEN);
    OverwriteRest(before, HEADER_LEN, Run(Encipher, KeyedState(key[..]), payload).1);
  }

  /** The game's side: takes the server challenge from the header and deciphers the rest in place. */
  method Decrypt(response: array<byte>, clientChallenge: seq<byte>, secret: Secret)
    requires response.Length >= HEADER_LEN && |clientChallenge| >= CLIENT_LEN
    modifies response
    ensures response[..HEADER_LEN] == old(response[..HEADER_LEN])
    ensures response[HEADER_LEN..] == Opened(clientChallenge, secret, old(response[..]))
  {
    hide Run, KeyedState, DeriveKey, Overwrite;
    ghost var before := response[..];
    var key := new byte[CLIENT_LEN](i requires 0 <= i < CLIENT_LEN => clientChallenge[i]);
    assert key[..] == clientChallenge[..CLIENT_LEN];
    var server := response[CRYPT_LEN + 2..HEADER_LEN];
    assert server == before[CRYPT_LEN + 2..HEADER_LEN];
    Derive(key, server, secret);
    var state := new GoaState();
    CryptInit(state, key[..]);
    assert before[HEADER_LEN..response.Length] == before[HEADER_LEN..];
    state.Decrypt(response, HEADER_LEN, response.Length - HEADER_LEN);
    OverwriteRest(before, HEADER_LEN, Run(Decipher, KeyedState(key[..]), before[HEADER_LEN..]).1);
  }
}
