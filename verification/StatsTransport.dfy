/**
 The transport of the game-statistics server: the body of a message is combined byte by byte with a repeating
 key, and the trailer "\final\" travels in the clear.
 */
module StatsTransport {
  import opened Bytes
  import opened GameSpyText

  /** "GameSpy3D" */
  const KEY: seq<byte> := [0x47, 0x61, 0x6d, 0x65, 0x53, 0x70, 0x79, 0x33, 0x44]

  /** "\final\" */
  const TRAILER: Text := [BACKSLASH] + FINAL + [BACKSLASH]

  predicate Printable(b: byte) {
    0x20 < b < 0x7f
  }

  function Clean(b: byte): byte {
    if Printable(b) then b else BACKSLASH
  }

  function Cleaned(t: Text): (r: Text)
    ensures |r| == |t| && forall i :: 0 <= i < |t| ==> r[i] == Clean(t[i])
  {
    seq(|t|, i requires 0 <= i < |t| => Clean(t[i]))
  }

  function Keyed(t: seq<byte>): (r: seq<byte>)
    ensures |r| == |t| && forall i :: 0 <= i < |t| ==> r[i] == Xor(KEY[i % 9], t[i])
  {
    seq(|t|, i requires 0 <= i < |t| => Xor(KEY[i % 9], t[i]))
  }

  /** The text without its last seven characters, whatever they are. */
  function BodyOf(t: seq<byte>): seq<byte> {
    if |t| < 7 then [] else t[..|t| - 7]
  }

  function Encrypted(response: Text): seq<byte>
    requires |response| >= 7
  {
    Keyed(BodyOf(response)) + TRAILER
  }

  function Decrypted(request: seq<byte>): Text {
    Cleaned(Keyed(BodyOf(request))) + TRAILER
  }

  method Encrypt(response: Text) returns (encResponse: seq<byte>)
    requires |response| >= 7
    ensures encResponse == Encrypted(response)
  {
    hide Xor;
    encResponse := [];
    for i := 0 to |response| - 7
      invariant encResponse == Keyed(BodyOf(response))[..i]
    {
      encResponse := encResponse + [Xor(KEY[i % 9], response[i])];
    }
    encResponse := encResponse + [0x5c] + [0x66] + [0x69] + [0x6e] + [0x61] + [0x6c] + [0x5c];
    assert [0x5c] + [0x66] + [0x69] + [0x6e] + [0x61] + [0x6c] + [0x5c] == TRAILER;
  }

  method Decrypt(request: seq<byte>) returns (msg: Text)
    ensures msg == Decrypted(request)
  {
    hide Xor;
    ghost var body := Cleaned(Keyed(BodyOf(request)));
    msg := [];
    var i := 0;
    while i < |request| - 7
      invariant 0 <= i <= |body|
      invariant msg == body[..i]
    {
      assert body[i] == Clean(Xor(KEY[i % 9], request[i]));
      var v := Xor(KEY[i % 9], request[i]);
      if v > 0x20 && v < 0x7f {
        msg := msg + [v];
      } else {
        msg := msg + [BACKSLASH];
      }
      i := i + 1;
    }
    msg := msg + TRAILER;
  }

  lemma KeyedTwice(t: seq<byte>)
    ensures Keyed(Keyed(t)) == t
  {
    forall i | 0 <= i < |t| ensures Keyed(Keyed(t))[i] == t[i] {
      var k := KEY[i % 9];
      XorTwice(k, t[i]);
    }
  }

  /**
   Sending and receiving replaces the unprintable characters of the body by backslashes and the end by the
   trailer; so it returns the text exactly when the body is printable and the text ends in the trailer.
   */
  lemma DecryptEncrypt(response: Text)
    requires |response| >= 7
    ensures Decrypted(Encrypted(response)) == Cleaned(BodyOf(response)) + TRAILER
    ensures Decrypted(Encrypted(response)) == response <==>
            response[|response| - 7..] == TRAILER && forall b :: b in BodyOf(response) ==> Printable(b)
  {
    var body := BodyOf(response);
    var sent := Encrypted(response);
    assert BodyOf(sent) == Keyed(body);
    KeyedTwice(body);
    var r := Cleaned(body) + TRAILER;
    assert response == body + response[|response| - 7..];
    if r == response {
      assert r[|body|..] == TRAILER;
      forall b | b in body ensures Printable(b) {
        var i :| 0 <= i < |body| && body[i] == b;
        assert r[i] == Clean(body[i]) && response[i] == body[i];
      }
    }
    if forall b :: b in body ==> Printable(b) {
      assert Cleaned(body) == body;
    }
  }

  function Repeated(t: Text, n: nat): (r: Text)
    ensures |r| == n * |t|
  {
    if n == 0 then [] else Repeated(t, n - 1) + t
  }

  lemma {:induction false} RepeatedAt(n: nat, i: nat)
    requires i < 9 * n
    ensures Repeated(Ascii("GameSpy3D"), n)[i] == Ascii("GameSpy3D")[i % 9]
  {
    if i < 9 * (n - 1) {
      RepeatedAt(n - 1, i);
    } else {
      assert i % 9 == i - 9 * (n - 1);
    }
  }

  /** A body that repeats the name of the SDK travels as nothing but zeros, whatever its length. */
  lemma KeyIsName(n: nat)
    ensures Encrypted(Repeated(Ascii("GameSpy3D"), n) + Ascii("\\final\\")) ==
            seq(9 * n, _ => 0) + Ascii("\\final\\")
  {
    var name, end := Ascii("GameSpy3D"), Ascii("\\final\\");
    assert end == TRAILER;
    assert name == KEY;
    var t := Repeated(name, n);
    assert BodyOf(t + end) == t;
    forall i | 0 <= i < 9 * n ensures Keyed(t)[i] == 0 {
      RepeatedAt(n, i);
      XorSelf(KEY[i % 9]);
    }
    assert Keyed(t) == seq(9 * n, _ => 0);
  }

  lemma XorSelf(b: byte)
    ensures Xor(b, b) == 0
  {
    XorTwice(b, 0);
    XorIsSame(b);
  }

  lemma {:induction false} XorIsSame(n: nat)
    ensures BitXor(n, n) == 0
  {
    if n > 0 {
      XorIsSame(n / 2);
    }
  }

  /** Printable are the characters from the exclamation mark to the tilde. */
  lemma PrintableRange(b: byte)
    ensures Printable(b) <==> '!' as int <= b <= '~' as int
  {}

  // ---------------------------------------------------------------- messages over the transport

  /** What the transport carries unharmed: printable values without backslashes, the last of them "final". */
  predicate Portable(values: seq<Text>) {
    && values != [] && values[|values| - 1] == FINAL
    && forall v, b :: v in values && b in v ==> Printable(b) && b != BACKSLASH
  }

  lemma FieldsLast(t: Text, v: Text)
    requires Plain(v)
    ensures Fields(t + [BACKSLASH] + v + [BACKSLASH]) != []
    ensures var r := Fields(t + [BACKSLASH] + v + [BACKSLASH]); r[|r| - 1] == v
    decreases |t|
  {
    hide Fields, NextBackslash;
    var n := NextBackslash(t);
    if n == |t| {
      var end := v + [BACKSLASH];
      AppendNothing(end);
      FieldsCons(v, []);
      FieldsNothing();
      assert t[..n] == t;
      Associate(t + [BACKSLASH], v, [BACKSLASH]);
      FieldsCons(t, end);
    } else {
      var rest := t[n + 1..];
      var more := rest + [BACKSLASH] + v + [BACKSLASH];
      FieldsLast(rest, v);
      FieldsCons(t[..n], more);
      LongAppend(t, t[..n] + [BACKSLASH], rest, [BACKSLASH], v, [BACKSLASH]);
    }
  }

  lemma LongAppend(t: Text, a: Text, b: Text, c: Text, d: Text, e: Text)
    requires t == a + b
    ensures t + c + d + e == a + (b + c + d + e)
  {}

  lemma {:induction false} FieldsFrom(t: Text)
    ensures forall v, b :: v in Fields(t) && b in v ==> b in t && b != BACKSLASH
    decreases |t|
  {
    if t != [] {
      var n := NextBackslash(t);
      FieldsStep(t);
      var rest := if n == |t| then [] else t[n + 1..];
      FieldsNothing();
      if n < |t| {
        FieldsFrom(rest);
      }
      forall v, b | v in Fields(t) && b in v ensures b in t && b != BACKSLASH {
        if v == t[..n] {
        } else {
          assert v in Fields(rest);
        }
      }
    }
  }

  /** Whatever arrives is parsed into portable values. */
  lemma ReceivedIsPortable(request: seq<byte>)
    ensures Portable(Parse(Decrypted(request)))
  {
    hide Fields, NextBackslash;
    var body := Cleaned(Keyed(BodyOf(request)));
    var msg := body + TRAILER;
    assert Plain(FINAL);
    if body == [] {
      assert msg[1..] == FINAL + [BACKSLASH] + [];
      FieldsCons(FINAL, []);
      FieldsNothing();
    } else {
      assert msg[1..] == body[1..] + [BACKSLASH] + FINAL + [BACKSLASH];
      FieldsLast(body[1..], FINAL);
    }
    FieldsFrom(msg[1..]);
    forall b | b in msg[1..] ensures Printable(b) {
      var i :| 1 <= i < |msg| && msg[i] == b;
    }
  }

  lemma {:induction false} BodyBytes(values: seq<Text>)
    requires forall v, b :: v in values && b in v ==> Printable(b)
    ensures forall b :: b in Body(values) ==> Printable(b)
  {
    if values != [] {
      BodyBytes(values[1..]);
      forall b | b in Body(values) ensures Printable(b) {
        assert b in values[0] || b == BACKSLASH || b in Body(values[1..]);
      }
    }
  }

  /** Print, encrypt, decrypt and parse: the values come back exactly when they are portable. */
  lemma TransportRoundTrip(values: seq<Text>)
    requires |Print(values)| >= 7
    ensures Parse(Decrypted(Encrypted(Print(values)))) == values <==> Portable(values)
  {
    hide Decrypted, Encrypted, Parse, Print;
    ReceivedIsPortable(Encrypted(Print(values)));
    if Portable(values) {
      PortablePrint(values);
      DecryptEncrypt(Print(values));
      assert AllPlain(values);
      ParsePrint(values);
    }
  }

  lemma PortablePrint(values: seq<Text>)
    requires Portable(values)
    ensures |Print(values)| >= 7 && Print(values)[|Print(values)| - 7..] == TRAILER
    ensures forall b :: b in Print(values) ==> Printable(b)
  {
    var init := values[..|values| - 1];
    assert values == init + [FINAL];
    BodySnoc(init, FINAL);
    assert Print(values) == Print(init) + FINAL + [BACKSLASH];
    PrintedEnd(init);
    BodyBytes(values);
  }

  lemma PrintedEnd(values: seq<Text>)
    ensures Print(values)[|Print(values)| - 1] == BACKSLASH
  {
    if values != [] {
      var init := values[..|values| - 1];
      assert values == init + [values[|values| - 1]];
      BodySnoc(init, values[|values| - 1]);
    }
  }
}
