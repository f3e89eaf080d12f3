/**
 Percent-encoding as in sections 2.1 and 2.3 of RFC 3986.  A string holds bytes; `char` is signed, so a byte
 from 0x80 up reaches the formatting as a negative number.
 */
module UrlCodec {
  import opened Wrappers

  type Octet = c: char | c < 256 as char witness 'a'

  type Octets = seq<Octet>

  // ---------------------------------------------------------------- hexadecimal digits

  function HexDigit(n: nat): Octet
    requires n < 16
  {
    if n < 10 then '0' + n as char else 'A' + (n - 10) as char
  }

  predicate IsHex(c: char) {
    '0' <= c <= '9' || 'A' <= c <= 'F' || 'a' <= c <= 'f'
  }

  predicate Capital(c: char) {
    '0' <= c <= '9' || 'A' <= c <= 'F'
  }

  function HexValue(c: char): (n: nat)
    requires IsHex(c)
    ensures n < 16
  {
    if c <= '9' then c as int - '0' as int
    else if c <= 'F' then c as int - 'A' as int + 10
    else c as int - 'a' as int + 10
  }

  lemma ValueDigit(c: Octet)
    requires IsHex(c)
    ensures Capital(c) <==> HexDigit(HexValue(c)) == c
  {}

  /** A number in capital hexadecimal digits, without leading zeros. */
  function Hex(n: nat): Octets {
    if n < 16 then [HexDigit(n)] else Hex(n / 16) + [HexDigit(n % 16)]
  }

  /** A byte in two capital digits, and back from any two digits. */
  function Pair(n: nat): (p: Octets)
    requires n < 256
    ensures |p| == 2
  {
    [HexDigit(n / 16), HexDigit(n % 16)]
  }

  function Value(h: char, l: char): (n: nat)
    requires IsHex(h) && IsHex(l)
    ensures n < 256
  {
    16 * HexValue(h) + HexValue(l)
  }

  lemma PairValue(n: nat)
    requires n < 256
    ensures var p := Pair(n); Capital(p[0]) && Capital(p[1]) && IsHex(p[0]) && IsHex(p[1]) && Value(p[0], p[1]) == n
    ensures Pair(n)[0] != '%' && Pair(n)[1] != '%'
  {}

  lemma ValuePair(h: Octet, l: Octet)
    requires IsHex(h) && IsHex(l)
    ensures Capital(h) && Capital(l) <==> Pair(Value(h, l)) == [h, l]
  {
    hide HexDigit, HexValue, IsHex, Capital;
    ValueDigit(h);
    ValueDigit(l);
    assert Value(h, l) / 16 == HexValue(h) && Value(h, l) % 16 == HexValue(l);
  }

  lemma PrintedHex(n: nat)
    requires n < 256
    ensures Pair(n) == if n < 16 then "0" + Hex(n) else Hex(n)
  {}

  /** The 32 bits of a negative byte. */
  lemma HighHex(n: nat)
    requires 128 <= n < 256
    ensures Hex(0x1_0000_0000 - 256 + n) == "FFFFFF" + Pair(n)
  {
    var m := 0x1_0000_0000 - 256 + n;
    OneMoreDigit(0xF, 0xF, "F");
    OneMoreDigit(0xFF, 0xF, "FF");
    OneMoreDigit(0xFFF, 0xF, "FFF");
    OneMoreDigit(0xFFFF, 0xF, "FFFF");
    OneMoreDigit(0xF_FFFF, 0xF, "FFFFF");
    OneMoreDigit(0xFF_FFFF, n / 16, "FFFFFF");
    OneMoreDigit(0xFFF_FFF0 + n / 16, n % 16, "FFFFFF" + [HexDigit(n / 16)]);
  }

  lemma OneMoreDigit(n: nat, digit: nat, printed: Octets)
    requires 0 < n && digit < 16 && Hex(n) == printed
    ensures Hex(16 * n + digit) == printed + [HexDigit(digit)]
  {}

  // ---------------------------------------------------------------- what the coders compute

  predicate Unreserved(c: char) {
    'a' <= c <= 'z' || 'A' <= c <= 'Z' || '0' <= c <= '9' || c == '-' || c == '_' || c == '.' || c == '~'
  }

  /** What becomes of a byte: a negative one is printed as 32 bits and still gets the zero meant for one-digit codes. */
  function Escape(c: Octet): Octets {
    if Unreserved(c) then [c]
    else if c as int < 128 then "%" + Pair(c as int)
    else "%0" + Hex(0x1_0000_0000 - 256 + c as int)
  }

  /** The code of a string, as far as its first NUL. */
  function Encoded(s: Octets): Octets {
    if s == [] || s[0] as int == 0 then [] else Escape(s[0]) + Encoded(s[1..])
  }

  /** Every percent sign is followed by two hexadecimal digits. */
  predicate WellEscaped(t: Octets) {
    t != [] ==>
      if t[0] == '%' then |t| >= 3 && IsHex(t[1]) && IsHex(t[2]) && WellEscaped(t[3..]) else WellEscaped(t[1..])
  }

  predicate IsSpaceChar(c: char) {
    c == ' ' || 9 <= c as int <= 13
  }

  /**
   What `sscanf` with "%x" reads from at most two characters, of which only the low eight bits are used: digits, perhaps
   after a space or a sign.  None where nothing matches, as in "0x", which announces digits that do not come.
   */
  function Scan(item: Octets): Option<Octet>
    requires |item| <= 2
  {
    if item == [] then None
    else if |item| == 2 && IsHex(item[0]) && IsHex(item[1]) then Some(Value(item[0], item[1]) as char)
    else if |item| == 2 && item[0] == '0' && (item[1] == 'x' || item[1] == 'X') then None
    else if IsHex(item[0]) then Some(HexValue(item[0]) as char)
    else if |item| == 2 && IsHex(item[1]) && (IsSpaceChar(item[0]) || item[0] == '+') then
      Some(HexValue(item[1]) as char)
    else if |item| == 2 && IsHex(item[1]) && item[0] == '-' then Some(((256 - HexValue(item[1])) % 256) as char)
    else None
  }

  function From(t: Octets, i: nat): Octets {
    if i <= |t| then t[i..] else []
  }

  /** The characters that are read after a percent sign: two, or what is left. */
  function Item(t: Octets, i: nat): (item: Octets)
    requires i < |t|
    ensures |item| <= 2
  {
    if i + 3 <= |t| then t[i + 1..i + 3] else t[i + 1..]
  }

  /** The variable after an attempt to read it: an attempt that fails leaves it as it was. */
  function Assigned(ii: Option<Octet>, read: Option<Octet>): Option<Octet> {
    if read.Some? then read else ii
  }

  function PrependDecoded(before: Octets, rest: Option<Octets>): Option<Octets> {
    match rest
    case None => None
    case Some(t) => Some(before + t)
  }

  /** The decoding of a text when the variable holds `ii`; None where the source uses it before it was ever set. */
  function Decoded(t: Octets, ii: Option<Octet>): Option<Octets>
    decreases |t|
  {
    if t == [] then Some([])
    else if t[0] != '%' then PrependDecoded([if t[0] == '+' then ' ' else t[0]], Decoded(t[1..], ii))
    else
      match Assigned(ii, Scan(Item(t, 0)))
      case None => None
      case Some(c) => PrependDecoded([c], Decoded(From(t, 3), Some(c)))
  }

  // ---------------------------------------------------------------- the coders

  method Encode(str: Octets) returns (newStr: Octets)
    ensures newStr == Encoded(str)
  {
    hide Hex, Unreserved, Pair, Escape, Encoded;
    newStr := "";
    var i := 0;
    assert str[0..] == str;
    while i < |str| && str[i] as int != 0
      invariant 0 <= i <= |str|
      invariant newStr + Encoded(str[i..]) == Encoded(str)
    {
      var c := str[i];
      var was := newStr;
      // The value of the signed char, and what %X prints for it.
      var ic := if c as int < 128 then c as int else c as int - 256;
      var bufHex := Hex(if ic < 0 then 0x1_0000_0000 + ic else ic);
      EscapePrinted(c, bufHex);
      if Unreserved(c) {
        newStr := newStr + [c];
      } else {
        if ic < 16 {
          newStr := newStr + "%0";
        } else {
          newStr := newStr + "%";
        }
        newStr := newStr + bufHex;
      }
      assert newStr == was + Escape(c);
      EncodedStep(str, i);
      Regroup(was, Escape(c), Encoded(str[i + 1..]));
      i := i + 1;
    }
    EncodedStop(str, i);
  }

  lemma EncodedStep(s: Octets, i: nat)
    requires i < |s| && s[i] as int != 0
    ensures Encoded(s[i..]) == Escape(s[i]) + Encoded(s[i + 1..])
  {}

  lemma EncodedStop(s: Octets, i: nat)
    requires i == |s| || (i < |s| && s[i] as int == 0)
    ensures Encoded(s[i..]) == []
  {}

  lemma Regroup(a: Octets, b: Octets, c: Octets)
    ensures (a + b) + c == a + (b + c)
  {}

  lemma EscapePrinted(c: Octet, bufHex: Octets)
    requires bufHex == Hex(if c as int < 128 then c as int else 0x1_0000_0000 - 256 + c as int)
    ensures Escape(c) ==
      if Unreserved(c) then [c] else (if c as int < 16 || c as int >= 128 then "%0" else "%") + bufHex
  {
    hide Hex, Unreserved, Pair;
    if c as int < 128 {
      PrintedHex(c as int);
    }
  }

  /** None stands for a use of the variable before it was set. */
  method Decode(str: Octets) returns (r: Option<Octets>)
    ensures r == Decoded(str, None)
  {
    hide Scan, Decoded;
    var ret: Octets, ii: Option<Octet> := [], None;
    var i := 0;
    assert From(str, 0) == str;
    PrependNothing(Decoded(str, None));
    while i < |str|
      invariant Decoded(str, None) == PrependDecoded(ret, Decoded(From(str, i), ii))
    {
      DecodedStep(str, i, ret, ii);
      if str[i] != '%' {
        if str[i] == '+' {
          ret := ret + [' '];
        } else {
          ret := ret + [str[i]];
        }
      } else {
        ii := Assigned(ii, Scan(Item(str, i)));
        if ii == None {
          return None;
        }
        ret := ret + [ii.value];
        i := i + 2;
      }
      i := i + 1;
    }
    NothingDecoded(ii);
    assert From(str, i) == [] && ret + [] == ret;
    return Some(ret);
  }

  lemma PrependNothing(r: Option<Octets>)
    ensures PrependDecoded([], r) == r
  {
    if r.Some? {
      assert [] + r.value == r.value;
    }
  }

  lemma PrependTwice(a: Octets, b: Octets, r: Option<Octets>)
    ensures PrependDecoded(a, PrependDecoded(b, r)) == PrependDecoded(a + b, r)
  {
    if r.Some? {
      Regroup(a, b, r.value);
    }
  }

  lemma DecodedStep(t: Octets, i: nat, done: Octets, ii: Option<Octet>)
    requires i < |t|
    ensures PrependDecoded(done, Decoded(From(t, i), ii)) ==
            if t[i] != '%' then PrependDecoded(done + [if t[i] == '+' then ' ' else t[i]], Decoded(From(t, i + 1), ii))
            else match Assigned(ii, Scan(Item(t, i)))
                 case None => None
                 case Some(c) => PrependDecoded(done + [c], Decoded(From(t, i + 3), Some(c)))
  {
    hide Scan;
    var left := From(t, i);
    if t[i] != '%' {
      assert left[1..] == From(t, i + 1);
      PrependTwice(done, [if t[i] == '+' then ' ' else t[i]], Decoded(From(t, i + 1), ii));
    } else {
      assert Item(left, 0) == Item(t, i) && From(left, 3) == From(t, i + 3);
      var read := Assigned(ii, Scan(Item(t, i)));
      if read.Some? {
        PrependTwice(done, [read.value], Decoded(From(t, i + 3), read));
      }
    }
  }

  lemma NothingDecoded(ii: Option<Octet>)
    ensures Decoded([], ii) == Some([])
  {}

  /** Once the variable has been set, everything can be decoded. */
  lemma {:induction false} DecodedOnceSet(t: Octets, c: Octet)
    ensures Decoded(t, Some(c)).Some?
    decreases |t|
  {
    hide Scan;
    if t != [] {
      if t[0] != '%' {
        DecodedOnceSet(t[1..], c);
      } else {
        DecodedOnceSet(From(t, 3), Assigned(Some(c), Scan(Item(t, 0))).value);
      }
    }
  }

  /** Nothing can be read after the first percent sign. */
  predicate FirstReadFails(t: Octets) {
    t != [] && if t[0] == '%' then Scan(Item(t, 0)) == None else FirstReadFails(t[1..])
  }

  lemma {:induction false} FirstReadFailsAt(t: Octets)
    ensures FirstReadFails(t) <==>
            exists i :: 0 <= i < |t| && '%' !in t[..i] && t[i] == '%' && Scan(Item(t, i)) == None
  {
    hide Scan;
    if t == [] {
    } else if t[0] == '%' {
      assert forall i :: 0 < i < |t| ==> t[..i][0] == '%';
      assert '%' !in t[..0];
    } else {
      var u := t[1..];
      FirstReadFailsAt(u);
      if i :| 0 <= i < |u| && '%' !in u[..i] && u[i] == '%' && Scan(Item(u, i)) == None {
        ShiftOne(t, i);
      }
      if j :| 0 <= j < |t| && '%' !in t[..j] && t[j] == '%' && Scan(Item(t, j)) == None {
        ShiftOne(t, j - 1);
      }
    }
  }

  lemma ShiftOne(t: Octets, i: nat)
    requires i + 1 < |t| && t[0] != '%'
    ensures t[1..][i] == t[i + 1] && Item(t[1..], i) == Item(t, i + 1)
    ensures '%' in t[..i + 1] <==> '%' in t[1..][..i]
  {
    assert t[..i + 1] == [t[0]] + t[1..][..i];
  }

  /** So decoding is undefined exactly when nothing can be read after the first percent sign. */
  lemma DecodedUnlessUnset(t: Octets)
    ensures Decoded(t, None) == None <==>
            exists i :: 0 <= i < |t| && '%' !in t[..i] && t[i] == '%' && Scan(Item(t, i)) == None
  {
    DecodedUnlessFails(t);
    FirstReadFailsAt(t);
  }

  lemma {:induction false} DecodedUnlessFails(t: Octets)
    ensures Decoded(t, None) == None <==> FirstReadFails(t)
  {
    hide Scan;
    if t != [] {
      if t[0] != '%' {
        DecodedUnlessFails(t[1..]);
      } else if Scan(Item(t, 0)).Some? {
        DecodedOnceSet(From(t, 3), Scan(Item(t, 0)).value);
      }
    }
  }

  // ---------------------------------------------------------------- single characters

  /** The characters that section 2.3 of RFC 3986 leaves alone. */
  lemma UnreservedCharacters(c: char)
    ensures Unreserved(c) <==>
            c in "ABCDEFGHIJKLMNOPQRSTUVWXYZ" || c in "abcdefghijklmnopqrstuvwxyz" || c in "0123456789-._~"
  {
    CapitalLetters(c);
    SmallLetters(c);
    DigitsAndMarks(c);
  }

  lemma CapitalLetters(c: char)
    ensures c in "ABCDEFGHIJKLMNOPQRSTUVWXYZ" <==> 'A' <= c <= 'Z'
  {
    var s := "ABCDEFGHIJKLMNOPQRSTUVWXYZ";
    assert forall i :: 0 <= i < |s| ==> s[i] as int == 'A' as int + i;
    if 'A' <= c <= 'Z' {
      assert s[c as int - 'A' as int] == c;
    }
  }

  lemma SmallLetters(c: char)
    ensures c in "abcdefghijklmnopqrstuvwxyz" <==> 'a' <= c <= 'z'
  {
    var s := "abcdefghijklmnopqrstuvwxyz";
    assert forall i :: 0 <= i < |s| ==> s[i] as int == 'a' as int + i;
    if 'a' <= c <= 'z' {
      assert s[c as int - 'a' as int] == c;
    }
  }

  lemma DigitsAndMarks(c: char)
    ensures c in "0123456789-._~" <==> '0' <= c <= '9' || c == '-' || c == '.' || c == '_' || c == '~'
  {
    var s := "0123456789-._~";
    assert forall i :: 0 <= i < 10 ==> s[i] as int == '0' as int + i;
    assert s[10] == '-' && s[11] == '.' && s[12] == '_' && s[13] == '~';
    if '0' <= c <= '9' {
      assert s[c as int - '0' as int] == c;
    }
  }

  /** A hexadecimal digit is worth its place among the digits, in either case. */
  lemma DigitsInEitherCase(n: nat)
    requires n < 16
    ensures IsHex("0123456789abcdef"[n]) && HexValue("0123456789abcdef"[n]) == n
    ensures HexDigit(n) == "0123456789ABCDEF"[n]
  {}

  function LowerCase(c: Octet): Octet {
    if 'A' <= c <= 'F' then (c as int + 32) as char else c
  }

  /** The text with the digits of its escapes in lower case. */
  function LowerEscapes(t: Octets): Octets
    requires WellEscaped(t)
  {
    if t == [] then []
    else if t[0] == '%' then ['%', LowerCase(t[1]), LowerCase(t[2])] + LowerEscapes(t[3..])
    else [t[0]] + LowerEscapes(t[1..])
  }

  lemma LowerCaseValue(h: Octet, l: Octet)
    requires IsHex(h) && IsHex(l)
    ensures IsHex(LowerCase(h)) && IsHex(LowerCase(l)) && Value(LowerCase(h), LowerCase(l)) == Value(h, l)
  {}

  /** The case of the digits makes no difference. */
  lemma {:induction false} LowerEscapesDecode(t: Octets, ii: Option<Octet>)
    requires WellEscaped(t)
    ensures Decoded(LowerEscapes(t), ii) == Decoded(t, ii)
    decreases |t|
  {
    hide IsHex, Value, LowerCase;
    if t != [] {
      var u := LowerEscapes(t);
      if t[0] == '%' {
        var c := Some(Value(t[1], t[2]) as char);
        LowerCaseValue(t[1], t[2]);
        LowerEscapesDecode(t[3..], c);
        assert u[1] == LowerCase(t[1]) && u[2] == LowerCase(t[2]) && u[3..] == LowerEscapes(t[3..]);
        assert Item(t, 0) == [t[1], t[2]] && Item(u, 0) == [u[1], u[2]];
      } else {
        LowerEscapesDecode(t[1..], ii);
        assert u[1..] == LowerEscapes(t[1..]);
      }
    }
  }

  function PlusToSpace(t: Octets): (r: Octets)
    ensures |r| == |t| && forall i :: 0 <= i < |t| ==> r[i] == if t[i] == '+' then ' ' else t[i]
  {
    if t == [] then [] else [if t[0] == '+' then ' ' else t[0]] + PlusToSpace(t[1..])
  }

  /** A text without a percent sign only has its plus signs turned into spaces. */
  lemma {:induction false} DecodedPlain(t: Octets, ii: Option<Octet>)
    requires '%' !in t
    ensures Decoded(t, ii) == Some(PlusToSpace(t))
  {
    if t != [] {
      DecodedPlain(t[1..], ii);
    }
  }

  /** What is read after a percent sign when there are no two digits: one digit, perhaps after a space or a sign. */
  lemma ShortEscapes(d: Octet, c: Octet)
    requires IsHex(d) && !IsHex(c)
    ensures Scan([d]) == Some(HexValue(d) as char)
    ensures Scan([d, c]) == if d == '0' && (c == 'x' || c == 'X') then None else Some(HexValue(d) as char)
    ensures Scan([' ', d]) == Scan(['+', d]) == Some(HexValue(d) as char)
    ensures Scan(['-', d]) == Some((if d == '0' then 0 else 256 - HexValue(d)) as char)
    ensures Scan([]) == None && Scan([c]) == None && Scan([c, c]) == None
  {}

  // ---------------------------------------------------------------- round trips

  predicate Ascii(s: Octets) {
    forall i :: 0 <= i < |s| ==> 1 <= s[i] as int < 128
  }

  /** The code of one character from 1 to 127 that cannot stand for itself. */
  predicate CanonicalEscape(h: Octet, l: Octet) {
    Capital(h) && Capital(l) && 1 <= Value(h, l) < 128 && !Unreserved(Value(h, l) as char)
  }

  /** Unreserved characters and such codes only. */
  predicate Canonical(t: Octets) {
    t != [] ==>
      if t[0] == '%' then |t| >= 3 && CanonicalEscape(t[1], t[2]) && Canonical(t[3..])
      else Unreserved(t[0]) && Canonical(t[1..])
  }

  lemma {:induction false} PlainPrefix(plain: Octets, rest: Octets)
    requires '%' !in plain
    ensures WellEscaped(rest) ==> WellEscaped(plain + rest)
  {
    if plain == [] {
      assert plain + rest == rest;
    } else {
      assert (plain + rest)[1..] == plain[1..] + rest;
      PlainPrefix(plain[1..], rest);
    }
  }

  lemma DecodeItself(c: Octet, rest: Octets, ii: Option<Octet>)
    requires c != '%' && c != '+'
    ensures Decoded([c] + rest, ii) == PrependDecoded([c], Decoded(rest, ii))
    ensures WellEscaped(rest) ==> WellEscaped([c] + rest)
  {
    assert ([c] + rest)[1..] == rest;
  }

  lemma DecodePair(p: Octets, rest: Octets, ii: Option<Octet>)
    requires |p| == 2 && IsHex(p[0]) && IsHex(p[1])
    ensures var c := Value(p[0], p[1]) as char;
            Decoded("%" + p + rest, ii) == PrependDecoded([c], Decoded(rest, Some(c)))
    ensures WellEscaped(rest) ==> WellEscaped("%" + p + rest)
  {
    hide IsHex, Value;
    var t := "%" + p + rest;
    assert t[1] == p[0] && t[2] == p[1] && t[3..] == rest;
    assert Item(t, 0) == p;
  }

  /** Decoding undoes the escape of a byte below 0x80, and goes wrong at any other. */
  lemma DecodeEscape(c: Octet, rest: Octets, ii: Option<Octet>) returns (next: Option<Octet>)
    ensures WellEscaped(rest) ==> WellEscaped(Escape(c) + rest)
    ensures var r := Decoded(Escape(c) + rest, ii);
            if c as int < 128 then r == PrependDecoded([c], Decoded(rest, next))
            else r.Some? ==> r.value != [] && r.value[0] != c
  {
    hide Pair, Value, Hex, IsHex, WellEscaped, Decoded;
    next := ii;
    if Unreserved(c) {
      DecodeItself(c, rest, ii);
    } else if c as int < 128 {
      hide Unreserved;
      PairValue(c as int);
      DecodePair(Pair(c as int), rest, ii);
      next := Some(c);
    } else {
      hide Unreserved;
      EscapeHigh(c);
      PairValue(c as int);
      ZeroF();
      var plain := "FFFFF" + Pair(c as int);
      PlainPrefix(plain, rest);
      DecodePair("0F", plain + rest, ii);
      Regroup("%" + "0F", plain, rest);
    }
  }

  lemma EscapeHigh(c: Octet)
    requires c as int >= 128
    ensures !Unreserved(c) && Escape(c) == "%" + "0F" + ("FFFFF" + Pair(c as int))
  {
    HighHex(c as int);
    hide Hex, Pair;
  }

  lemma ZeroF()
    ensures IsHex('0') && IsHex('F') && Value('0', 'F') == 15
  {}

  lemma {:induction false} EncodedIsWellEscaped(s: Octets)
    ensures WellEscaped(Encoded(s))
  {
    hide Escape;
    if s != [] && s[0] as int != 0 {
      EncodedIsWellEscaped(s[1..]);
      var _ := DecodeEscape(s[0], Encoded(s[1..]), None);
    }
  }

  /** Decoding gives back exactly the strings of bytes 1 to 127, and never misses a digit in what was encoded. */
  lemma {:induction false} DecodeEncode(s: Octets, ii: Option<Octet>)
    ensures WellEscaped(Encoded(s))
    ensures Decoded(Encoded(s), ii) == Some(s) <==> Ascii(s)
  {
    hide Escape, WellEscaped, Decoded;
    EncodedIsWellEscaped(s);
    NothingDecoded(ii);
    if s != [] {
      assert s == [s[0]] + s[1..];
      if s[0] as int != 0 {
        var next := DecodeEscape(s[0], Encoded(s[1..]), ii);
        DecodeEncode(s[1..], next);
        assert Ascii(s) <==> s[0] as int < 128 && Ascii(s[1..]);
        PrependIs(s, Decoded(Encoded(s[1..]), next));
      }
    }
  }

  lemma PrependIs(s: Octets, rest: Option<Octets>)
    requires s != []
    ensures PrependDecoded([s[0]], rest) == Some(s) <==> rest == Some(s[1..])
  {
    assert s == [s[0]] + s[1..];
    if rest.Some? {
      assert ([s[0]] + rest.value)[1..] == rest.value;
    }
  }

  lemma {:induction false} WellEscapedDecodes(t: Octets, ii: Option<Octet>)
    requires WellEscaped(t)
    ensures Decoded(t, ii).Some?
    decreases |t|
  {
    hide IsHex, Value;
    if t != [] {
      if t[0] == '%' {
        assert Item(t, 0) == [t[1], t[2]];
        WellEscapedDecodes(t[3..], Some(Value(t[1], t[2]) as char));
      } else {
        WellEscapedDecodes(t[1..], ii);
      }
    }
  }

  /** The code of such a string is canonical. */
  lemma {:induction false} EncodedIsCanonical(s: Octets)
    requires Ascii(s)
    ensures Canonical(Encoded(s))
  {
    hide Pair, Value, Capital;
    if s != [] {
      EncodedIsCanonical(s[1..]);
      var t := Encoded(s);
      if Unreserved(s[0]) {
        assert t[1..] == Encoded(s[1..]);
      } else {
        hide Unreserved;
        PairValue(s[0] as int);
        assert t[1] == Pair(s[0] as int)[0] && t[2] == Pair(s[0] as int)[1];
        assert t[3..] == Encoded(s[1..]);
      }
    }
  }

  /** The canonical texts are exactly those that come back from decoding and encoding. */
  lemma {:induction false} EncodeDecode(t: Octets, ii: Option<Octet>)
    ensures Decoded(t, ii).Some? && Encoded(Decoded(t, ii).value) == t <==> Canonical(t)
    decreases |t|
  {
    if t != [] {
      if t[0] == '%' {
        hide Escape, CanonicalEscape, Unreserved, Scan;
        var read := Assigned(ii, Scan(Item(t, 0)));
        EscapeIsCanonical(t, read);
        if read.Some? {
          var c, rest := read.value, Decoded(From(t, 3), read);
          EncodeDecode(From(t, 3), read);
          if rest.Some? {
            EncodedCons(c, rest.value);
            EscapeFits(t, c, Encoded(rest.value));
          }
        }
      } else {
        hide Canonical;
        var c := if t[0] == '+' then ' ' else t[0];
        var rest := Decoded(t[1..], ii);
        EncodeDecode(t[1..], ii);
        CanonicalPlain(t);
        if rest.Some? {
          EncodedCons(c, rest.value);
          EscapePlain(t, Encoded(rest.value));
        }
      }
    }
  }

  lemma EncodedCons(c: Octet, s: Octets)
    ensures Encoded([c] + s) == if c as int == 0 then [] else Escape(c) + Encoded(s)
  {
    assert ([c] + s)[1..] == s;
  }

  lemma CanonicalPlain(t: Octets)
    requires t != [] && t[0] != '%'
    ensures Canonical(t) <==> Unreserved(t[0]) && Canonical(t[1..])
  {}

  lemma EscapePlain(t: Octets, more: Octets)
    requires t != [] && t[0] != '%'
    ensures var c := if t[0] == '+' then ' ' else t[0];
            (if c as int == 0 then [] else Escape(c) + more) == t <==> Unreserved(t[0]) && more == t[1..]
  {
    hide Pair, Hex;
    var c := if t[0] == '+' then ' ' else t[0];
    var all := Escape(c) + more;
    assert t == [t[0]] + t[1..];
    if Unreserved(c) {
      assert all[1..] == more;
    } else {
      assert all[0] == '%';
    }
  }

  /** A canonical escape is read as the character that it is the escape of. */
  lemma EscapeIsCanonical(t: Octets, read: Option<Octet>)
    requires t != [] && (Scan(Item(t, 0)).Some? ==> read == Scan(Item(t, 0)))
    ensures |t| >= 3 && CanonicalEscape(t[1], t[2]) ==>
      read.Some? && read.value as int != 0 && Escape(read.value) == "%" + [t[1], t[2]]
  {
    hide Value, Unreserved, Pair, Hex, IsSpaceChar;
    if |t| >= 3 && CanonicalEscape(t[1], t[2]) {
      assert IsHex(t[1]) && IsHex(t[2]);
      assert Item(t, 0) == [t[1], t[2]];
      ValuePair(t[1], t[2]);
    }
  }

  /** And no other text starts with the escape of what is read from it. */
  lemma EscapeFits(t: Octets, c: Octet, more: Octets)
    requires t != [] && t[0] == '%' && (Scan(Item(t, 0)).Some? ==> c == Scan(Item(t, 0)).value)
    ensures (if c as int == 0 then [] else Escape(c) + more) == t <==>
            |t| >= 3 && CanonicalEscape(t[1], t[2]) && more == t[3..]
  {
    hide Value, IsHex, Capital, Pair, Hex, IsSpaceChar, Unreserved;
    EscapeIsCanonical(t, Some(c));
    var all := Escape(c) + more;
    if |t| >= 3 && CanonicalEscape(t[1], t[2]) && more == t[3..] {
      assert t == "%" + [t[1], t[2]] + t[3..];
    }
    if Unreserved(c) {
      assert all[0] == c;
      PercentIsReserved();
    } else if c as int < 128 {
      PairValue(c as int);
      assert all[1] == Pair(c as int)[0] && all[2] == Pair(c as int)[1] && all[3..] == more;
      assert Item(all, 0) == [all[1], all[2]];
    } else {
      HighEscapeMisread(c, more);
    }
  }

  lemma HighEscapeMisread(c: Octet, more: Octets)
    requires c as int >= 128
    ensures Escape(c) + more != [] && Scan(Item(Escape(c) + more, 0)) == Some(15 as char)
  {
    hide Value, Pair, Hex, IsSpaceChar, IsHex;
    EscapeHigh(c);
    ZeroF();
    assert Item(Escape(c) + more, 0) == ['0', 'F'];
  }

  lemma PercentIsReserved()
    ensures !Unreserved('%')
  {}
}
