/**
 The GameSpy text protocol: a message is a list of values, printed with a backslash before, between and after
 them, and a stream is cut into messages after each "final\".
 */
module GameSpyText {
  import opened Bytes

  const BACKSLASH: byte := 0x5c

  /** "final" */
  const FINAL: Text := [0x66, 0x69, 0x6e, 0x61, 0x6c]

  /** "final\" */
  const NEEDLE: Text := FINAL + [BACKSLASH]

  // ---------------------------------------------------------------- cutting a stream into requests

  predicate OccursAt(t: Text, k: int) {
    0 <= k && k + 6 <= |t| && t[k..k + 6] == NEEDLE
  }

  /** The place of the first "final\", or -1. */
  function Find(t: Text): (r: int)
    ensures r == -1 || OccursAt(t, r)
    ensures r == -1 ==> forall k :: !OccursAt(t, k)
    ensures r >= 0 ==> forall k :: k < r ==> !OccursAt(t, k)
  {
    FindFrom(t, 0)
  }

  function FindFrom(t: Text, i: nat): (r: int)
    requires forall k :: k < i ==> !OccursAt(t, k)
    ensures r == -1 || OccursAt(t, r)
    ensures r == -1 ==> forall k :: !OccursAt(t, k)
    ensures r >= 0 ==> forall k :: k < r ==> !OccursAt(t, k)
    decreases |t| - i
  {
    if i + 6 > |t| then -1 else if OccursAt(t, i) then i else FindFrom(t, i + 1)
  }

  function Requests(t: Text): seq<Text>
    decreases |t|
  {
    if Find(t) < 0 then [] else [t[..Find(t) + 6]] + Requests(t[Find(t) + 6..])
  }

  function Unfinished(t: Text): Text
    decreases |t|
  {
    if Find(t) < 0 then t else Unfinished(t[Find(t) + 6..])
  }

  method RequestToRequests(request: Text) returns (requests: seq<Text>)
    ensures requests == Requests(request)
  {
    var t := request;
    requests := [];
    var found := Find(t);
    while found != -1
      invariant found == Find(t)
      invariant requests + Requests(t) == Requests(request)
      decreases |t|
    {
      Associate(requests, [t[..found + 6]], Requests(t[found + 6..]));
      requests := requests + [t[..found + 6]];
      t := t[found + 6..];
      found := Find(t);
    }
    AppendNothing(requests);
  }

  /** A piece with one "final\", at its end. */
  predicate IsRequest(p: Text) {
    |p| >= 6 && Find(p) == |p| - 6
  }

  lemma RequestsStep(t: Text)
    ensures Find(t) >= 0 ==>
      Find(t) + 6 <= |t|
      && Requests(t) == [t[..Find(t) + 6]] + Requests(t[Find(t) + 6..])
      && Unfinished(t) == Unfinished(t[Find(t) + 6..])
    ensures Find(t) < 0 ==> Find(t) == -1 && Requests(t) == [] && Unfinished(t) == t
  {}

  /** On any input: the requests are cut from the front, each ends at its first "final\", and none is left over. */
  lemma {:induction false} RequestsArePrefix(t: Text)
    ensures Concat(Requests(t)) + Unfinished(t) == t
    ensures Find(Unfinished(t)) == -1
    ensures forall p :: p in Requests(t) ==> IsRequest(p)
    decreases |t|
  {
    RequestsStep(t);
    hide IsRequest, OccursAt, Find, Requests, Unfinished, Concat;
    if Find(t) >= 0 {
      var n := Find(t) + 6;
      FirstIsRequest(t);
      RequestsArePrefix(t[n..]);
      ConcatCons(t[..n], Requests(t[n..]));
      Associate(t[..n], Concat(Requests(t[n..])), Unfinished(t[n..]));
      CutAndJoin(t, n);
    } else {
      ConcatNothing();
      AppendNothing(t);
    }
  }

  lemma CutAndJoin(t: Text, n: nat)
    requires n <= |t|
    ensures t[..n] + t[n..] == t
  {}

  lemma ConcatNothing()
    ensures Concat([]) == []
  {}

  lemma FirstIsRequest(t: Text)
    requires Find(t) >= 0
    ensures IsRequest(t[..Find(t) + 6])
  {
    var f := Find(t);
    var p := t[..f + 6];
    forall k | OccursAt(p, k) ensures k == f {
      assert t[k..k + 6] == p[k..k + 6];
      assert OccursAt(t, k);
    }
    assert p[f..f + 6] == t[f..f + 6];
    assert OccursAt(p, f);
  }

  lemma FindInFirst(p: Text, more: Text)
    requires IsRequest(p)
    ensures |p| >= 6 && Find(p + more) == |p| - 6
  {
    var t, f := p + more, |p| - 6;
    assert t[f..f + 6] == p[f..f + 6];
    assert OccursAt(t, f);
    forall k | k < f ensures !OccursAt(t, k) {
      if OccursAt(t, k) {
        assert p[k..k + 6] == t[k..k + 6];
        assert OccursAt(p, k);
      }
    }
  }

  /** And there is no other way to cut: such pieces and such a rest are what the splitter returns. */
  lemma {:induction false} RequestsUnique(pieces: seq<Text>, rest: Text)
    requires forall p :: p in pieces ==> IsRequest(p)
    requires Find(rest) == -1
    ensures Requests(Concat(pieces) + rest) == pieces
    ensures Unfinished(Concat(pieces) + rest) == rest
  {
    hide Find, OccursAt, IsRequest, Requests, Unfinished, Concat;
    if pieces == [] {
      ConcatNothing();
      AppendNothing(rest);
      RequestsStep(rest);
    } else {
      var p, tail := pieces[0], pieces[1..];
      var more := Concat(tail) + rest;
      assert pieces == [p] + tail;
      ConcatCons(p, tail);
      Associate(p, Concat(tail), rest);
      FindInFirst(p, more);
      RequestsStep(p + more);
      SumParts(p, more);
      RequestsUnique(tail, rest);
      assert Concat(pieces) + rest == p + more;
    }
  }

  lemma SumParts(a: Text, b: Text)
    ensures (a + b)[..|a|] == a && (a + b)[|a|..] == b
  {}

  // ---------------------------------------------------------------- parsing and printing one message

  predicate Plain(v: Text) {
    BACKSLASH !in v
  }

  predicate AllPlain(values: seq<Text>) {
    forall v :: v in values ==> Plain(v)
  }

  /** The place of the first backslash, or the length. */
  function NextBackslash(t: Text): (n: nat)
    ensures n <= |t| && Plain(t[..n])
    ensures n < |t| ==> t[n] == BACKSLASH
  {
    if t == [] || t[0] == BACKSLASH then 0
    else
      var n := 1 + NextBackslash(t[1..]);
      assert t[..n] == [t[0]] + t[1..][..n - 1];
      n
  }

  /** What reading up to each backslash in turn yields: a trailing value needs no backslash, but must not be empty. */
  function Fields(t: Text): seq<Text>
    decreases |t|
  {
    if t == [] then []
    else
      var n := NextBackslash(t);
      if n == |t| then [t] else [t[..n]] + Fields(t[n + 1..])
  }

  /** The first character is skipped, whatever it is. */
  function Parse(request: Text): seq<Text> {
    Fields(if request == [] then [] else request[1..])
  }

  function Body(values: seq<Text>): Text {
    if values == [] then [] else values[0] + [BACKSLASH] + Body(values[1..])
  }

  function Print(values: seq<Text>): Text {
    [BACKSLASH] + Body(values)
  }

  method Request2Parameter(request: Text) returns (parameter: seq<Text>)
    ensures parameter == Parse(request)
  {
    parameter := [];
    var input := request;
    if input != [] {
      input := input[1..];
    }
    hide Fields, NextBackslash;
    while input != []
      invariant parameter + Fields(input) == Parse(request)
      decreases |input|
    {
      FieldsProgress(parameter, input);
      var n := NextBackslash(input);
      parameter := parameter + [input[..n]];
      input := if n == |input| then [] else input[n + 1..];
    }
    FieldsNothing();
    AppendNothing(parameter);
  }

  lemma FieldsStep(t: Text)
    requires t != []
    ensures var n := NextBackslash(t);
            Fields(t) == [t[..n]] + Fields(if n == |t| then [] else t[n + 1..])
  {
    if NextBackslash(t) == |t| {
      assert t[..|t|] == t;
      FieldsNothing();
      AppendNothing([t]);
    }
  }

  lemma FieldsNothing()
    ensures Fields([]) == []
  {}

  lemma FieldsProgress(done: seq<Text>, rest: Text)
    requires rest != []
    ensures var n := NextBackslash(rest);
            done + Fields(rest) == (done + [rest[..n]]) + Fields(if n == |rest| then [] else rest[n + 1..])
  {
    hide Fields, NextBackslash;
    var n := NextBackslash(rest);
    FieldsStep(rest);
    Associate(done, [rest[..n]], Fields(if n == |rest| then [] else rest[n + 1..]));
  }

  lemma BodySnoc(values: seq<Text>, v: Text)
    ensures Body(values + [v]) == Body(values) + v + [BACKSLASH]
  {
    if values == [] {
      assert values + [v] == [v];
      assert Body([v]) == v + [BACKSLASH] + Body([]);
    } else {
      assert (values + [v])[1..] == values[1..] + [v];
      BodySnoc(values[1..], v);
      assert values[0] + [BACKSLASH] + (Body(values[1..]) + v + [BACKSLASH]) ==
             (values[0] + [BACKSLASH] + Body(values[1..])) + v + [BACKSLASH];
    }
  }

  method Parameter2Response(parameter: seq<Text>) returns (response: Text)
    ensures response == Print(parameter)
  {
    response := [];
    response := response + [BACKSLASH];
    for i := 0 to |parameter|
      invariant response == Print(parameter[..i])
    {
      assert parameter[..i + 1] == parameter[..i] + [parameter[i]];
      BodySnoc(parameter[..i], parameter[i]);
      response := response + (parameter[i] + [BACKSLASH]);
    }
    assert parameter[..|parameter|] == parameter;
  }

  lemma {:induction false} NextBackslashAfter(v: Text, rest: Text)
    requires Plain(v)
    ensures NextBackslash(v + [BACKSLASH] + rest) == |v|
  {
    var t := v + [BACKSLASH] + rest;
    if v != [] {
      assert t[1..] == v[1..] + [BACKSLASH] + rest;
      assert v[0] in v;
      NextBackslashAfter(v[1..], rest);
    }
  }

  lemma FieldsCons(v: Text, rest: Text)
    requires Plain(v)
    ensures Fields(v + [BACKSLASH] + rest) == [v] + Fields(rest)
  {
    var t := v + [BACKSLASH] + rest;
    NextBackslashAfter(v, rest);
    assert t[..|v|] == v && t[|v| + 1..] == rest;
  }

  lemma {:induction false} FieldsArePlain(t: Text)
    ensures AllPlain(Fields(t))
    decreases |t|
  {
    if t != [] {
      var n := NextBackslash(t);
      if n < |t| {
        FieldsArePlain(t[n + 1..]);
      } else {
        assert t[..n] == t;
      }
    }
  }

  lemma BodyCons(m: seq<Text>, more: Text)
    requires m != []
    ensures Body(m) + more == m[0] + [BACKSLASH] + (Body(m[1..]) + more)
    ensures |Body(m)| == |m[0]| + 1 + |Body(m[1..])|
  {
    assert Body(m) == m[0] + [BACKSLASH] + Body(m[1..]);
    hide Body;
    Associate(m[0] + [BACKSLASH], Body(m[1..]), more);
  }

  lemma {:induction false} FieldsBody(values: seq<Text>, more: Text)
    requires AllPlain(values)
    ensures Fields(Body(values) + more) == values + Fields(more)
  {
    hide Fields, Body, NextBackslash;
    if values == [] {
      BodyNothing();
      AppendNothing(more);
      AppendNothing(Fields(more));
    } else {
      var v, tail := values[0], values[1..];
      assert Plain(v) && AllPlain(tail);
      calc {
        Fields(Body(values) + more);
        { BodyCons(values, more); }
        Fields(v + [BACKSLASH] + (Body(tail) + more));
        { FieldsCons(v, Body(tail) + more); }
        [v] + Fields(Body(tail) + more);
        { FieldsBody(tail, more); }
        [v] + (tail + Fields(more));
        { Associate([v], tail, Fields(more)); }
        ([v] + tail) + Fields(more);
        { assert [v] + tail == values; }
        values + Fields(more);
      }
    }
  }

  lemma BodyNothing()
    ensures Body([]) == []
  {}

  /** Printing and parsing return the values exactly when none of them contains a backslash. */
  lemma ParsePrint(values: seq<Text>)
    ensures Parse(Print(values)) == values <==> AllPlain(values)
  {
    assert Print(values)[1..] == Body(values);
    FieldsArePlain(Body(values));
    if AllPlain(values) {
      FieldsBody(values, []);
      assert Body(values) + [] == Body(values);
    }
  }

  /** And parsing and printing returns the text exactly when it starts and ends with a backslash. */
  lemma PrintParse(request: Text)
    ensures Print(Parse(request)) == request <==>
            request != [] && request[0] == BACKSLASH && request[|request| - 1] == BACKSLASH
  {
    if request != [] {
      BodyFields(request[1..]);
      assert request == [request[0]] + request[1..];
      assert Print(Parse(request))[1..] == Body(Fields(request[1..]));
    }
  }

  /** Nothing is lost in the fields of a text, and at most the last backslash is added. */
  lemma {:induction false} BodyFields(t: Text)
    ensures Body(Fields(t)) == if t == [] || t[|t| - 1] == BACKSLASH then t else t + [BACKSLASH]
    decreases |t|
  {
    hide NextBackslash, Fields, Body;
    if t == [] {
      FieldsNothing();
      BodyNothing();
    } else {
      var n := NextBackslash(t);
      var rest := if n == |t| then [] else t[n + 1..];
      FieldsStep(t);
      BodyOfCons(t[..n], Fields(rest));
      BodyFields(rest);
      if n == |t| {
        AllBeforeEnd(t);
        AppendNothing(t + [BACKSLASH]);
      } else {
        SplitAt(t, n);
        Associate(t[..n] + [BACKSLASH], rest, [BACKSLASH]);
        AppendNothing(t[..n] + [BACKSLASH]);
      }
    }
  }

  lemma AllBeforeEnd(t: Text)
    requires t != [] && Plain(t[..|t|])
    ensures t[..|t|] == t && t[|t| - 1] != BACKSLASH
  {
    assert t[..|t|] == t && t[|t| - 1] in t;
  }

  lemma SplitAt(t: Text, n: nat)
    requires n < |t| && t[n] == BACKSLASH
    ensures t == t[..n] + [BACKSLASH] + t[n + 1..]
    ensures t[|t| - 1] == if n + 1 == |t| then BACKSLASH else t[n + 1..][|t| - n - 2]
  {}

  lemma BodyOfCons(v: Text, values: seq<Text>)
    ensures Body([v] + values) == v + [BACKSLASH] + Body(values)
  {
    assert ([v] + values)[1..] == values;
  }

  lemma BodyOfOne(v: Text)
    ensures Body([v]) == v + [BACKSLASH]
  {
    BodyOfCons(v, []);
    assert [v] + [] == [v];
    AppendNothing(v + [BACKSLASH]);
  }

  /** The message that keeps a connection of the game-statistics server alive, and the end of every message. */
  lemma KeepAlive()
    ensures Print([Ascii("ka"), Ascii(""), Ascii("final")]) == Ascii("\\ka\\\\final\\")
    ensures NEEDLE == Ascii("final\\")
  {
    BodyOfOne(Ascii("final"));
    BodyOfCons([], [Ascii("final")]);
    BodyOfCons(Ascii("ka"), [[], Ascii("final")]);
    assert [Ascii("ka")] + [[], Ascii("final")] == [Ascii("ka"), Ascii(""), Ascii("final")];
    assert [[]] + [Ascii("final")] == [[], Ascii("final")];
    assert Ascii("") == [];
  }

  // ---------------------------------------------------------------- a stream of messages

  predicate EndsFinal(v: Text) {
    |v| >= 5 && v[|v| - 5..] == FINAL
  }

  /** No value holds a backslash, and the last value, but no earlier one, ends in "final". */
  predicate WellFormed(m: seq<Text>) {
    && AllPlain(m)
    && m != [] && EndsFinal(m[|m| - 1])
    && forall i :: 0 <= i < |m| - 1 ==> !EndsFinal(m[i])
  }

  function PrintAll(ms: seq<seq<Text>>): Text {
    if ms == [] then [] else Print(ms[0]) + PrintAll(ms[1..])
  }

  function ParseAll(requests: seq<Text>): (r: seq<seq<Text>>)
    ensures |r| == |requests|
  {
    if requests == [] then [] else [Parse(requests[0])] + ParseAll(requests[1..])
  }

  /** Where "final\" can stand around a value: at the end of the value, or somewhere after it. */
  lemma OccursAfterValue(v: Text, rest: Text, k: int)
    requires Plain(v)
    ensures OccursAt(v + [BACKSLASH] + rest, k) <==>
            (k == |v| - 5 && EndsFinal(v)) || OccursAt(rest, k - |v| - 1)
  {
    var t := v + [BACKSLASH] + rest;
    assert forall i :: 0 <= i < 5 ==> NEEDLE[i] != BACKSLASH;
    if k == |v| - 5 && k >= 0 {
      assert t[k..k + 6] == v[k..] + [BACKSLASH];
      if t[k..k + 6] == NEEDLE {
        assert t[k..k + 6][..5] == v[k..] && NEEDLE[..5] == FINAL;
      }
    } else if 0 <= k <= |v| && k + 6 <= |t| {
      if k + 5 < |v| {
        assert t[k..k + 6][5] == v[k + 5] && v[k + 5] in v;
      } else {
        assert t[k..k + 6][|v| - k] == BACKSLASH;
      }
    } else if k > |v| && k + 6 <= |t| {
      assert t[k..k + 6] == rest[k - |v| - 1..k - |v| + 5];
    }
  }

  lemma FindAfterValue(v: Text, rest: Text)
    requires Plain(v)
    ensures Find(v + [BACKSLASH] + rest) ==
            if EndsFinal(v) then |v| - 5 else if Find(rest) < 0 then -1 else |v| + 1 + Find(rest)
  {
    var t := v + [BACKSLASH] + rest;
    forall k ensures OccursAt(t, k) <==> (k == |v| - 5 && EndsFinal(v)) || OccursAt(rest, k - |v| - 1) {
      OccursAfterValue(v, rest, k);
    }
    if EndsFinal(v) {
      assert OccursAt(t, |v| - 5);
    } else if Find(rest) >= 0 {
      assert OccursAt(t, |v| + 1 + Find(rest));
    }
  }

  lemma FindInPrinted(m: seq<Text>, more: Text)
    ensures Find(Print(m) + more) == if Find(Body(m) + more) < 0 then -1 else 1 + Find(Body(m) + more)
  {
    assert Print(m) + more == [] + [BACKSLASH] + (Body(m) + more);
    FindAfterValue([], Body(m) + more);
  }

  lemma {:induction false} BodyConcat(a: seq<Text>, b: seq<Text>)
    ensures Body(a + b) == Body(a) + Body(b)
  {
    if a == [] {
      assert a + b == b;
    } else {
      assert (a + b)[1..] == a[1..] + b;
      BodyConcat(a[1..], b);
      BodyCons(a, Body(b));
    }
  }

  lemma {:induction false} FindWellFormed(m: seq<Text>, more: Text)
    requires WellFormed(m)
    ensures |Body(m)| >= 6 && Find(Body(m) + more) == |Body(m)| - 6
  {
    hide Find, Body;
    BodyCons(m, more);
    FindAfterValue(m[0], Body(m[1..]) + more);
    if |m| > 1 {
      assert m[1..][|m| - 2] == m[|m| - 1];
      assert forall i :: 0 <= i < |m| - 2 ==> m[1..][i] == m[i + 1];
      FindWellFormed(m[1..], more);
    } else {
      BodyNothing();
    }
  }

  lemma {:induction false} FindNoFinal(m: seq<Text>, more: Text)
    requires AllPlain(m)
    requires forall i :: 0 <= i < |m| ==> !EndsFinal(m[i])
    ensures Find(Body(m) + more) == if Find(more) < 0 then -1 else |Body(m)| + Find(more)
  {
    hide Find, Body;
    if m == [] {
      BodyNothing();
      assert [] + more == more;
    } else {
      BodyCons(m, more);
      FindAfterValue(m[0], Body(m[1..]) + more);
      assert forall i :: 0 <= i < |m| - 1 ==> m[1..][i] == m[i + 1];
      FindNoFinal(m[1..], more);
    }
  }

  lemma FirstFinal(m: seq<Text>) returns (n: nat)
    ensures n <= |m|
    ensures forall i :: 0 <= i < n ==> !EndsFinal(m[i])
    ensures n < |m| ==> EndsFinal(m[n])
  {
    n := 0;
    while n < |m| && !EndsFinal(m[n])
      invariant n <= |m|
      invariant forall i :: 0 <= i < n ==> !EndsFinal(m[i])
    {
      n := n + 1;
    }
  }

  /** A well-formed message is cut off by itself. */
  lemma FirstRequest(m: seq<Text>, more: Text)
    requires WellFormed(m)
    ensures Requests(Print(m) + more) == [Print(m)] + Requests(more)
  {
    var t := Print(m) + more;
    BodyCons(m, more);
    FindWellFormed(m, more);
    FindInPrinted(m, more);
    assert t[..|Print(m)|] == Print(m) && t[|Print(m)|..] == more;
  }

  /** A message with a value that ends in "final" too early is cut too early. */
  lemma CutTooEarly(m: seq<Text>, n: nat, more: Text)
    requires AllPlain(m) && n < |m| - 1 && EndsFinal(m[n])
    requires forall i :: 0 <= i < n ==> !EndsFinal(m[i])
    ensures Find(Print(m) + more) >= 0
    ensures Parse((Print(m) + more)[..Find(Print(m) + more) + 6]) == m[..n + 1] != m
  {
    hide Find, Body;
    var t := Print(m) + more;
    var part, rest := m[..n + 1], m[n + 1..];
    assert m == part + rest;
    BodyConcat(part, rest);
    assert Body(m) + more == Body(part) + (Body(rest) + more);
    FindWellFormed(part, Body(rest) + more);
    FindInPrinted(m, more);
    assert t == Print(part) + (Body(rest) + more);
    assert t[..|Print(part)|] == Print(part);
    ParsePrint(part);
  }

  lemma ParsePrintedAndMore(m: seq<Text>, more: Text)
    requires AllPlain(m)
    ensures Parse(Print(m) + more) == m + Fields(more)
  {
    hide Fields, Body;
    assert (Print(m) + more)[1..] == Body(m) + more;
    FieldsBody(m, more);
  }

  lemma SomeFields(t: Text)
    requires t != []
    ensures Fields(t) != []
  {
    hide NextBackslash;
  }

  lemma LongerDiffers<T>(a: seq<T>, b: seq<T>)
    requires b != []
    ensures a + b != a
  {
    assert |a + b| > |a|;
  }

  lemma FrontOfSum(a: Text, b: Text, n: nat)
    requires n <= |b|
    ensures (a + b)[..|a| + n] == a + b[..n]
  {}

  lemma PrintedLength(m: seq<Text>)
    ensures |Print(m)| == 1 + |Body(m)|
  {}

  /** A message with no value that ends in "final" is cut together with what follows it. */
  lemma CutTooLate(m: seq<Text>, more: Text)
    requires AllPlain(m) && Find(Print(m) + more) >= 0
    requires forall i :: 0 <= i < |m| ==> !EndsFinal(m[i])
    ensures Parse((Print(m) + more)[..Find(Print(m) + more) + 6]) != m
  {
    FindInPrinted(m, more);
    FindNoFinal(m, more);
    RequestsStep(more);
    PrintedLength(m);
    hide Find, OccursAt, Body, Print, Parse, Fields, EndsFinal, Requests, Unfinished;
    var n := Find(more) + 6;
    var next := more[..n];
    FrontOfSum(Print(m), more, n);
    assert Find(Print(m) + more) + 6 == |Print(m)| + n;
    assert (Print(m) + more)[..Find(Print(m) + more) + 6] == Print(m) + next;
    ParsePrintedAndMore(m, next);
    SomeFields(next);
    LongerDiffers(m, Fields(next));
  }

  lemma FirstRequestWrong(m: seq<Text>, more: Text)
    requires AllPlain(m) && !WellFormed(m) && Find(Print(m) + more) >= 0
    ensures Parse((Print(m) + more)[..Find(Print(m) + more) + 6]) != m
  {
    var n := FirstFinal(m);
    if n < |m| {
      CutTooEarly(m, n, more);
    } else {
      CutTooLate(m, more);
    }
  }

  lemma ParseAllCons(r: Text, rest: seq<Text>)
    ensures ParseAll([r] + rest) == [Parse(r)] + ParseAll(rest)
  {
    assert ([r] + rest)[1..] == rest;
  }

  lemma ConsEqual<T>(a: T, s: seq<T>, b: T, t: seq<T>)
    ensures [a] + s == [b] + t <==> a == b && s == t
  {
    if [a] + s == [b] + t {
      assert ([a] + s)[0] == a && ([b] + t)[0] == b;
      assert ([a] + s)[1..] == s && ([b] + t)[1..] == t;
    }
  }

  /** What is read from a stream starts with its first message exactly when that message is well formed. */
  lemma FirstParsed(m: seq<Text>, more: Text)
    ensures var read := ParseAll(Requests(Print(m) + more));
            if WellFormed(m) then read == [m] + ParseAll(Requests(more)) else read == [] || read[0] != m
  {
    var t := Print(m) + more;
    RequestsStep(t);
    if WellFormed(m) {
      hide Find, OccursAt, Print, Parse, Requests, Unfinished, ParseAll;
      FirstRequest(m, more);
      ParseAllCons(Print(m), Requests(more));
      ParsePrint(m);
    } else if Find(t) >= 0 {
      var first, rest := t[..Find(t) + 6], Requests(t[Find(t) + 6..]);
      ParseAllCons(first, rest);
      FieldsArePlain(if first == [] then [] else first[1..]);
      hide Find, OccursAt, Print, Requests, Unfinished, ParseAll, WellFormed, Fields;
      if AllPlain(m) {
        FirstRequestWrong(m, more);
      }
      assert ([Parse(first)] + ParseAll(rest))[0] == Parse(first);
    }
  }

  /**
   Printing messages, joining them, cutting the stream and parsing the pieces returns the messages if and only if
   every one of them is well formed.
   */
  lemma {:induction false} StreamRoundTrip(ms: seq<seq<Text>>)
    ensures ParseAll(Requests(PrintAll(ms))) == ms <==> forall m :: m in ms ==> WellFormed(m)
  {
    if ms != [] {
      hide WellFormed, Requests, ParseAll, Print;
      var m, tail := ms[0], ms[1..];
      assert ms == [m] + tail;
      assert PrintAll(ms) == Print(m) + PrintAll(tail);
      FirstParsed(m, PrintAll(tail));
      StreamRoundTrip(tail);
      ConsEqual(m, ParseAll(Requests(PrintAll(tail))), m, tail);
    }
  }
}
