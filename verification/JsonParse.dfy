/** The parser of cJSON.c with its loops and its output buffer, against the grammar of JsonText. A
    pointer into the text is the rest of the text from there; moving it forward drops a byte. */
module JsonParse {
  import opened JsonText
  import RoundTrip = JsonRoundTrip

  /** The byte a pointer points at. */
  function Deref(p: string): char { if p == [] then '\0' else p[0] }

  method SkipBlanks(text: string) returns (at: string)
    ensures at == Skip(text)
  {
    at := text;
    while at != [] && at[0] <= ' '
      invariant Skip(at) == Skip(text)
      decreases |at|
    {
      at := at[1..];
    }
  }

  // ----- numbers

  /** A run of digits, read onto n. */
  method ReadDigitsAt(n0: int, text: string) returns (n: int, at: string)
    ensures (n, at) == ReadDigits(n0, text)
  {
    n, at := n0, text;
    while IsDigit(Deref(at))
      invariant ReadDigits(n, at) == ReadDigits(n0, text)
      decreases |at|
    {
      n, at := n * 10 + (at[0] as int - '0' as int), at[1..];
    }
  }

  /** The digits behind a point, and how far the point is to be moved back. */
  method ReadFractionAt(n0: int, text: string) returns (n: int, scale: int, at: string)
    ensures (n, scale, at) == ReadFraction(n0, text)
  {
    n, scale, at := n0, 0, text;
    if Deref(at) == '.' && IsDigit(Deref(at[1..])) {
      at := at[1..];
      while IsDigit(Deref(at))
        invariant ReadDigits(n, at) == ReadDigits(n0, text[1..]) && scale == |at| + 1 - |text|
        decreases |at|
      {
        n, at, scale := n * 10 + (at[0] as int - '0' as int), at[1..], scale - 1;
      }
    }
  }

  /** The exponent, with its sign. */
  method ReadExponentAt(text: string) returns (e: int, at: string)
    ensures (e, at) == ReadExponent(text)
  {
    var subscale, signsubscale := 0, 1;
    at := text;
    if Deref(at) == 'e' || Deref(at) == 'E' {
      at := at[1..];
      if Deref(at) == '+' {
        at := at[1..];
      } else if Deref(at) == '-' {
        signsubscale, at := -1, at[1..];
      }
      subscale, at := ReadDigitsAt(0, at);
    }
    e := subscale * signsubscale;
  }

  /** parse_number */
  method ParseNumberAt(num: string) returns (d: real, rest: string)
    requires At(num, '-') || (num != [] && IsDigit(num[0]))
    ensures (d, rest) == ParseNumber(num)
  {
    hide ReadDigits, ReadFraction, ReadExponent, Scaled;
    var at, n, sign := num, 0, 1;
    if Deref(at) == '-' {
      sign, at := -1, at[1..];
    }
    if Deref(at) == '0' {
      at := at[1..];
    }
    if '1' <= Deref(at) <= '9' {
      n, at := ReadDigitsAt(0, at);
    }
    var scale, e;
    n, scale, at := ReadFractionAt(n, at);
    e, at := ReadExponentAt(at);
    assert sign * n == if At(num, '-') then -n else n;
    return Scaled(sign * n, scale + e), at;
  }

  // ----- strings

  /** The bytes of a body, an escape and the byte after it counted as one. */
  function Units(b: string): nat
    decreases |b|
  {
    if b == [] then 0 else if b[0] == '\\' && |b| >= 2 then 1 + Units(b[2..]) else 1 + Units(b[1..])
  }

  /** The scan for the closing quote, with its count of units. */
  method FindEnd(text: string) returns (ok: bool, end: string, len: nat)
    ensures ok == (BodyLength(text) >= 0) == !EndsInEscape(text)
    ensures ok ==> end == text[BodyLength(text)..] && len == Units(text[..BodyLength(text)])
  {
    BodyLengthIs(text);
    end, len := text, 0;
    ghost var k := 0;
    while Deref(end) != '\"' && end != []
      invariant 0 <= k <= |text| && end == text[k..]
      invariant BodyLength(text) == if BodyLength(end) < 0 then -1 else k + BodyLength(end)
      invariant BodyLength(end) >= 0 ==> Units(text[..BodyLength(text)]) == len + Units(end[..BodyLength(end)])
      decreases |end|
    {
      ghost var here := end;
      len := len + 1;
      if end[0] == '\\' {
        end, k := end[1..], k + 1;
        if end == [] {
          return false, end, len;
        }
      }
      end, k := end[1..], k + 1;
      UnitAdvances(here, end);
    }
    assert text[..k] == text[..BodyLength(text)];
    ok := true;
  }

  lemma UnitAdvances(here: string, there: string)
    requires here != [] && here[0] != '\"'
    requires if here[0] == '\\' then |here| >= 2 && there == here[2..] else there == here[1..]
    ensures BodyLength(here) == if BodyLength(there) < 0 then -1 else BodyLength(there) + |here| - |there|
    ensures BodyLength(there) >= 0 ==>
      Units(here[..BodyLength(here)]) == 1 + Units(there[..BodyLength(there)])
  {
    hide Deref, BodyLength, Units;
    LengthAdvances(here, there);
    if BodyLength(there) >= 0 {
      var b := here[..BodyLength(here)];
      var k := |here| - |there|;
      assert b[0] == here[0] && b[k..] == there[..BodyLength(there)];
      OneUnit(b, k);
    }
  }

  lemma LengthAdvances(here: string, there: string)
    requires here != [] && here[0] != '\"'
    requires if here[0] == '\\' then |here| >= 2 && there == here[2..] else there == here[1..]
    ensures BodyLength(here) == if BodyLength(there) < 0 then -1 else BodyLength(there) + |here| - |there|
  {
  }

  lemma OneUnit(b: string, k: nat)
    requires b != [] && k <= |b| && k == if b[0] == '\\' then 2 else 1
    ensures Units(b) == 1 + Units(b[k..])
  {
  }

  /** Stores a byte in the output buffer. */
  method Put(out: array<char>, at: nat, c: char)
    requires at < out.Length
    modifies out
    ensures out[..at + 1] == old(out[..at]) + [c]
  {
    out[at] := c;
  }

  function Utf8Length(uc: int): int { if uc < 0x80 then 1 else if uc < 0x800 then 2 else if uc < 0x10000 then 3 else 4 }

  /** The mark that goes into the first of len bytes. */
  function FirstByteMark(len: int): int { if len == 2 then 0xC0 else if len == 3 then 0xE0 else if len == 4 then 0xF0 else 0 }

  /** code >> 6 * n */
  function Shifted(code: int, n: int): int
    requires 0 <= n <= 3
  {
    if n == 0 then code else if n == 1 then code / 64 else if n == 2 then code / 4096 else code / 262144
  }

  lemma ShiftOnce(code: int, n: int)
    requires 0 < code < 0x110000 && 0 <= n < Utf8Length(code) - 1
    ensures Shifted(code, n) / 64 == Shifted(code, n + 1)
  {
  }

  lemma Utf8Byte(code: int, k: int)
    requires 0 < code < 0x110000 && 0 <= k < Utf8Length(code)
    ensures |Utf8(code)| == Utf8Length(code) && Shifted(code, 0) == code
    ensures var uc := Shifted(code, Utf8Length(code) - 1 - k);
            if k > 0 then Utf8(code)[k] == ByteOf(0x80 + uc % 64)
            else 0 <= uc + FirstByteMark(Utf8Length(code)) < 256
                 && Utf8(code)[0] == ByteOf(uc + FirstByteMark(Utf8Length(code)))
  {
  }

  /** The fall-through switch that writes a code point from its last byte to its first. */
  method WriteUtf8(out: array<char>, at: nat, code: int) returns (next: nat)
    requires 0 < code < 0x110000 && at + Utf8Length(code) <= out.Length
    modifies out
    ensures next == at + |Utf8(code)| && out[..next] == old(out[..at]) + Utf8(code)
  {
    hide Utf8, Shifted;
    var len, uc := Utf8Length(code), code;
    Utf8Byte(code, 0);
    next := at + len;
    var k := len - 1;
    while k > 0
      invariant 0 <= k < len && uc == Shifted(code, len - 1 - k)
      invariant out[..at] == old(out[..at]) && out[at + k + 1..next] == Utf8(code)[k + 1..]
    {
      Utf8Byte(code, k);
      out[at + k] := ByteOf(0x80 + uc % 64);
      ShiftOnce(code, len - 1 - k);
      uc, k := uc / 64, k - 1;
    }
    out[at] := ByteOf(uc + FirstByteMark(len));
    assert out[at..next] == Utf8(code);
  }

  /** ptr stands inside a string body that ends at end, not within an escape. */
  predicate Inside(ptr: string, end: string) {
    BodyLength(ptr) >= 0 && end == ptr[BodyLength(ptr)..]
  }

  /** What is left of the body. */
  function Left(ptr: string, end: string): (b: string)
    requires |end| <= |ptr|
    ensures |b| == |ptr| - |end|
  {
    ptr[..|ptr| - |end|]
  }

  /** One byte that is not a backslash, or a backslash and the byte after it, is one unit. */
  lemma Advance(ptr: string, end: string)
    requires Inside(ptr, end) && |ptr| > |end|
    ensures ptr[0] != '\"' && (ptr[0] == '\\' ==> |ptr| >= |end| + 2)
    ensures var n := if ptr[0] == '\\' then 2 else 1;
            && Inside(ptr[n..], end) && Left(ptr[n..], end) == Left(ptr, end)[n..]
            && Units(Left(ptr, end)) == 1 + Units(Left(ptr[n..], end))
  {
    UnitAdvances(ptr, ptr[if ptr[0] == '\\' then 2 else 1..]);
  }

  /** Four hexadecimal digits are four units. */
  lemma AdvanceHex(ptr: string, end: string)
    requires Inside(ptr, end) && Hex4(ptr) != 0 && |ptr| - |end| >= 4
    ensures Inside(ptr[4..], end) && Left(ptr[4..], end) == Left(ptr, end)[4..]
    ensures Units(Left(ptr, end)) == 4 + Units(Left(ptr[4..], end))
    ensures Hex4(Left(ptr, end)) == Hex4(ptr)
  {
    hide BodyLength, Units;
    assert forall i :: 0 <= i < 4 ==> HexOf(ptr[i]) >= 0;
    Advance(ptr, end);
    Advance(ptr[1..], end);
    assert ptr[1..][1..] == ptr[2..];
    Advance(ptr[2..], end);
    assert ptr[2..][1..] == ptr[3..];
    Advance(ptr[3..], end);
    assert ptr[3..][1..] == ptr[4..];
  }

  lemma {:induction false} BodyEnds(ptr: string)
    requires BodyLength(ptr) >= 0
    ensures var end := ptr[BodyLength(ptr)..]; end == [] || end[0] == '\"'
    decreases |ptr|
  {
    if ptr != [] && ptr[0] != '\"' {
      var n := if ptr[0] == '\\' then 2 else 1;
      BodyEnds(ptr[n..]);
      assert ptr[n..][BodyLength(ptr[n..])..] == ptr[BodyLength(ptr)..];
    }
  }

  lemma HexOfPrefix(t: string, n: nat)
    requires 4 <= n <= |t|
    ensures Hex4(t[..n]) == Hex4(t)
  {
  }

  /** Decode's own rule for a \\u escape. */
  lemma DecodeUnicode(b: string)
    requires |b| >= 2 && b[0] == '\\' && b[1] == 'u'
    ensures var uc := Hex4(b[2..]);
            if |b| < 6 || 0xDC00 <= uc <= 0xDFFF || uc == 0 then Decode(b) == Undecodable
            else if uc < 0xD800 || uc > 0xDBFF then 0 < uc < 0x10000 && Decode(b) == Onto(Utf8(uc), Decode(b[6..]))
            else if |b| < 12 || b[6] != '\\' || b[7] != 'u' then Decode(b) == Undecodable
            else
              var uc2 := Hex4(b[8..]);
              if uc2 < 0xDC00 || uc2 > 0xDFFF then Decode(b) == Undecodable
              else Decode(b) == Onto(Utf8(0x10000 + (uc - 0xD800) * 1024 + (uc2 - 0xDC00)), Decode(b[12..]))
  {
    hide Utf8, Onto, Hex4;
  }

  /** Behind the backslash and the letter u, four hexadecimal digits of a body. */
  lemma UnicodeAdvances(ptr: string, end: string)
    requires Inside(ptr, end) && |ptr| >= |end| + 6 && ptr[0] == '\\' && ptr[1] == 'u'
    ensures Hex4(Left(ptr, end)[2..]) == Hex4(ptr[2..])
    ensures Hex4(ptr[2..]) != 0 ==> && Inside(ptr[6..], end) && Left(ptr[6..], end) == Left(ptr, end)[6..]
                                    && Units(Left(ptr, end)) == 5 + Units(Left(ptr[6..], end))
  {
    hide BodyLength, Units, Hex4;
    Advance(ptr, end);
    HexOfPrefix(ptr[2..], |ptr[2..]| - |end|);
    if Hex4(ptr[2..]) != 0 {
      AdvanceHex(ptr[2..], end);
      assert ptr[2..][4..] == ptr[6..] && Left(ptr, end)[2..][4..] == Left(ptr, end)[6..];
    }
  }

  /** The code unit pair: a second escape must stand right behind the first. */
  lemma PairEnds(ptr: string, end: string)
    requires Inside(ptr, end) && |ptr| == |end| + 5
    ensures Hex4(ptr[2..]) == 0
  {
    BodyEnds(ptr);
    assert end == ptr[5..];
  }

  /** The \\u case of the switch: one code point from one escape or from a surrogate pair. */
  method UnescapeUnicode(ptr: string, end: string, out: array<char>, at: nat)
    returns (ok: bool, next: string, to: nat, ghost w: string)
    requires Inside(ptr, end) && |ptr| >= |end| + 2 && ptr[0] == '\\' && ptr[1] == 'u'
    requires at + Units(Left(ptr, end)) < out.Length
    modifies out
    ensures !ok ==> Decode(Left(ptr, end)) == Undecodable
    ensures ok ==> |end| <= |next| < |ptr| && Inside(next, end) && to + Units(Left(next, end)) < out.Length
    ensures ok ==> out[..to] == old(out[..at]) + w && Decode(Left(ptr, end)) == Onto(w, Decode(Left(next, end)))
    ensures ok ==> exists uc | Scalar(uc) :: w == Utf8(uc)
  {
    hide BodyLength, Decode, Hex4, Utf8;
    DecodeUnicode(Left(ptr, end));
    ok, next, to, w := false, ptr, at, [];
    var p := ptr[1..];
    if |p| - 4 <= |end| {
      return;
    }
    var uc := Hex4(p[1..]);
    UnicodeAdvances(ptr, end);
    assert p[1..] == ptr[2..];
    p := p[4..];
    if 0xDC00 <= uc <= 0xDFFF || uc == 0 {
      return;
    }
    if 0xD800 <= uc <= 0xDBFF {
      if |p| - 6 < |end| || p[1] != '\\' || p[2] != 'u' {
        return;
      }
      assert p[1..] == ptr[6..] && p[3..] == ptr[6..][2..] == ptr[8..];
      var uc2 := Hex4(p[3..]);
      if |p| - 6 == |end| { PairEnds(ptr[6..], end); }
      else {
        UnicodeAdvances(ptr[6..], end);
        assert Left(ptr, end)[6..][2..] == Left(ptr, end)[8..];
        assert ptr[6..][6..] == ptr[12..] && Left(ptr, end)[6..][6..] == Left(ptr, end)[12..];
      }
      p := p[6..];
      if uc2 < 0xDC00 || uc2 > 0xDFFF {
        return;
      }
      uc := 0x10000 + (uc - 0xD800) * 1024 + (uc2 - 0xDC00);
    }
    next := p[1..];
    Utf8Byte(uc, 0);
    to := WriteUtf8(out, at, uc);
    ok, w := true, Utf8(uc);
  }

  /** The byte a one-letter escape stands for. */
  function Letter(c: char): char {
    if c == 'b' then 8 as char
    else if c == 'f' then 12 as char
    else if c == 'n' then 10 as char
    else if c == 'r' then 13 as char
    else if c == 't' then 9 as char
    else c
  }

  lemma DecodeLetter(b: string)
    requires |b| >= 2 && b[0] == '\\' && b[1] != 'u'
    ensures Decode(b) == Onto([Letter(b[1])], Decode(b[2..]))
  {
    hide Onto;
  }

  lemma DecodePlain(b: string)
    requires b != [] && b[0] != '\\'
    ensures Decode(b) == Onto([b[0]], Decode(b[1..]))
  {
    hide Onto;
  }

  /** One turn of the decoding loop. */
  method Unescape(ptr: string, end: string, out: array<char>, at: nat)
    returns (ok: bool, next: string, to: nat, ghost w: string)
    requires Inside(ptr, end) && |ptr| > |end| && at + Units(Left(ptr, end)) < out.Length
    modifies out
    ensures !ok ==> Decode(Left(ptr, end)) == Undecodable
    ensures ok ==> |end| <= |next| < |ptr| && Inside(next, end) && to + Units(Left(next, end)) < out.Length
    ensures ok ==> out[..to] == old(out[..at]) + w && Decode(Left(ptr, end)) == Onto(w, Decode(Left(next, end)))
  {
    hide BodyLength, Decode, Onto;
    Advance(ptr, end);
    if ptr[0] != '\\' {
      DecodePlain(Left(ptr, end));
      Put(out, at, ptr[0]);
      ok, next, to, w := true, ptr[1..], at + 1, [ptr[0]];
    } else if ptr[1] == 'u' {
      ok, next, to, w := UnescapeUnicode(ptr, end, out, at);
    } else {
      DecodeLetter(Left(ptr, end));
      Put(out, at, Letter(ptr[1]));
      ok, next, to, w := true, ptr[2..], at + 1, [Letter(ptr[1])];
    }
  }

  lemma OntoTwice(a: string, b: string, d: Decoded)
    ensures Onto(a, Onto(b, d)) == Onto(a + b, d)
  {
    if d.Text? { Assoc(a, b, d.s); }
  }

  /** parse_string: the decoded bytes and the terminator fit the buffer that the scan measured. */
  method ParseString(str: string) returns (r: Parsed<string>)
    ensures r == ParseStr(str)
  {
    hide Units, Decode, Onto;
    if Deref(str) != '\"' {
      return Fail(false);
    }
    var ok, end, len := FindEnd(str[1..]);
    if !ok {
      return Fail(true);
    }
    var out := new char[len + 1];
    var ptr, ptr2: nat := str[1..], 0;
    ghost var body := Left(ptr, end);
    assert body == str[1..1 + |body|] && end == str[1 + |body|..];
    OntoNothing(Decode(body));
    assert out[..0] == [];
    while |ptr| > |end|
      invariant Inside(ptr, end) && |end| <= |ptr| && ptr2 + Units(Left(ptr, end)) < out.Length
      invariant Decode(body) == Onto(out[..ptr2], Decode(Left(ptr, end)))
      decreases |ptr|
    {
      ghost var before, b, w := out[..ptr2], Left(ptr, end), [];
      ok, ptr, ptr2, w := Unescape(ptr, end, out, ptr2);
      if !ok {
        OntoUndecodable(before);
        return Fail(false);
      }
      OntoTwice(before, w, Decode(Left(ptr, end)));
    }
    out[ptr2] := '\0';
    DecodeNothing(out[..ptr2]);
    assert Left(ptr, end) == [] && ptr == end;
    if Deref(ptr) == '\"' {
      ptr := ptr[1..];
    }
    return Got(out[..ptr2], ptr);
  }

  lemma OntoNothing(d: Decoded)
    ensures Onto([], d) == d
  {
  }

  lemma OntoUndecodable(a: string)
    ensures Onto(a, Undecodable) == Undecodable
  {
  }

  lemma DecodeNothing(a: string)
    ensures Onto(a, Decode([])) == Text(a)
  {
  }

  // ----- arrays and objects: the child list grows at its end

  /** Where the elements read so far and the text behind the last of them lead. */
  function ElemsFrom(read: Elems, t: string): Parsed<Elems> {
    if At(t, ',') then
      match ParseElems(Skip(t[1..]))
      case Got(es, rest) => Got(JoinElems(read, es), rest)
      case other => other
    else if At(t, ']') then Got(read, t[1..])
    else Fail(false)
  }

  function MembersFrom(read: Members, t: string): Parsed<Members> {
    if At(t, ',') then
      match ParseMembers(Skip(t[1..]))
      case Got(ms, rest) => Got(JoinMembers(read, ms), rest)
      case other => other
    else if At(t, '}') then Got(read, t[1..])
    else Fail(false)
  }

  lemma OneMoreElem(read: Elems, t: string, v: Json, after: string)
    requires At(t, ',') && ParseValue(Skip(t[1..])) == Got(v, after)
    ensures ElemsFrom(read, t) == ElemsFrom(JoinElems(read, Elem(v, NoElem)), Skip(after))
  {
    hide ParseValue, Skip;
    ElemsEnd(read);
    var u := Skip(after);
    if At(u, ',') && ParseElems(Skip(u[1..])).Got? {
      ElemsAssoc(read, Elem(v, NoElem), ParseElems(Skip(u[1..])).value);
    }
  }

  lemma OneMoreMember(read: Members, t: string, name: string, v: Json, after: string)
    requires At(t, ',') && ParsePair(Skip(t[1..])) == Got((name, v), after)
    ensures MembersFrom(read, t) == MembersFrom(JoinMembers(read, Member(name, v, NoMember)), Skip(after))
  {
    hide ParsePair, Skip;
    FirstMember(Skip(t[1..]));
    MembersEnd(read);
    var u := Skip(after);
    if At(u, ',') && ParseMembers(Skip(u[1..])).Got? {
      MembersAssoc(read, Member(name, v, NoMember), ParseMembers(Skip(u[1..])).value);
    }
  }

  lemma ArrayFrom(value: string, t: string)
    requires At(value, '[') && t == Skip(value[1..])
    ensures ParseValue(value) ==
      if At(t, ']') then Got(Array(NoElem), t[1..])
      else match ParseElems(t) case Got(es, rest) => Got(Array(es), rest) case Fail(past) => Fail(past)
  {
    hide ParseStr, ParseNumber, StartsWith, Skip;
    RoundTrip.NoWord(value);
  }

  lemma ObjectFrom(value: string, t: string)
    requires At(value, '{') && t == Skip(value[1..])
    ensures ParseValue(value) ==
      if At(t, '}') then Got(Object(NoMember), t[1..])
      else match ParseMembers(t) case Got(ms, rest) => Got(Object(ms), rest) case Fail(past) => Fail(past)
  {
    hide ParseStr, ParseNumber, StartsWith, Skip;
    RoundTrip.NoWord(value);
  }

  lemma FirstElem(t: string)
    ensures ParseElems(t) ==
      match ParseValue(t)
      case Got(v, after) => ElemsFrom(Elem(v, NoElem), Skip(after))
      case Fail(past) => Fail(past)
  {
    hide Skip, ParseStr, ParseNumber;
    if ParseValue(t).Got? {
      var v, u := ParseValue(t).value, Skip(ParseValue(t).rest);
      if At(u, ',') && ParseElems(Skip(u[1..])).Got? { JoinOneElem(v, ParseElems(Skip(u[1..])).value); }
    }
  }

  lemma FirstMember(t: string)
    ensures ParseMembers(t) ==
      match ParsePair(t)
      case Got((name, v), after) => MembersFrom(Member(name, v, NoMember), Skip(after))
      case Fail(past) => Fail(past)
  {
    hide Skip, ParseStr, ParseNumber;
    if ParsePair(t).Got? {
      var p, u := ParsePair(t).value, Skip(ParsePair(t).rest);
      if At(u, ',') && ParseMembers(Skip(u[1..])).Got? { JoinOneMember(p.0, p.1, ParseMembers(Skip(u[1..])).value); }
    }
  }

  /** A name, a colon and a value. */
  function ParsePair(t: string): (r: Parsed<(string, Json)>)
    ensures r.Got? ==> |r.rest| < |t|
  {
    match ParseStr(t)
    case Fail(past) => Fail(past)
    case Got(name, afterName) =>
      if !At(Skip(afterName), ':') then Fail(false)
      else
        match ParseValue(Skip(Skip(afterName)[1..]))
        case Fail(past) => Fail(past)
        case Got(v, after) => Got((name, v), after)
  }

  method ParsePairAt(text: string) returns (r: Parsed<(string, Json)>)
    ensures r == ParsePair(text)
    decreases |text|, 1
  {
    hide ParseValue, ParseStr, Skip;
    var n := ParseString(text);
    match n {
      case Fail(past) => return Fail(past);
      case Got(name, afterName) =>
        var value := SkipBlanks(afterName);
        if Deref(value) != ':' {
          return Fail(false);
        }
        value := SkipBlanks(value[1..]);
        var v := ParseItem(value);
        match v {
          case Fail(past) => return Fail(past);
          case Got(item, after) => return Got((name, item), after);
        }
    }
  }

  method ParseArray(text: string) returns (r: Parsed<Json>)
    requires At(text, '[')
    ensures r == ParseValue(text)
    decreases |text|, 0
  {
    hide ParseValue, ParseElems, Skip;
    var value := SkipBlanks(text[1..]);
    ArrayFrom(text, value);
    if Deref(value) == ']' {
      return Got(Array(NoElem), value[1..]);
    }
    FirstElem(value);
    var v := ParseItem(value);
    if v.Fail? {
      return Fail(v.past);
    }
    var child := Elem(v.value, NoElem);
    value := SkipBlanks(v.rest);
    while Deref(value) == ','
      invariant ParseElems(Skip(text[1..])) == ElemsFrom(child, value) && |value| < |text|
      decreases |value|
    {
      ghost var t, read := value, child;
      value := SkipBlanks(value[1..]);
      FirstElem(value);
      v := ParseItem(value);
      if v.Fail? {
        return Fail(v.past);
      }
      OneMoreElem(read, t, v.value, v.rest);
      child := JoinElems(child, Elem(v.value, NoElem));
      value := SkipBlanks(v.rest);
    }
    if Deref(value) == ']' {
      return Got(Array(child), value[1..]);
    }
    return Fail(false);
  }

  method ParseObject(text: string) returns (r: Parsed<Json>)
    requires At(text, '{')
    ensures r == ParseValue(text)
    decreases |text|, 0
  {
    hide ParseValue, ParseMembers, ParsePair, Skip;
    var value := SkipBlanks(text[1..]);
    ObjectFrom(text, value);
    if Deref(value) == '}' {
      return Got(Object(NoMember), value[1..]);
    }
    FirstMember(value);
    var v := ParsePairAt(value);
    if v.Fail? {
      return Fail(v.past);
    }
    var child := Member(v.value.0, v.value.1, NoMember);
    value := SkipBlanks(v.rest);
    while Deref(value) == ','
      invariant ParseMembers(Skip(text[1..])) == MembersFrom(child, value) && |value| < |text|
      decreases |value|
    {
      ghost var t, read := value, child;
      value := SkipBlanks(value[1..]);
      FirstMember(value);
      v := ParsePairAt(value);
      if v.Fail? {
        return Fail(v.past);
      }
      OneMoreMember(read, t, v.value.0, v.value.1, v.rest);
      child := JoinMembers(child, Member(v.value.0, v.value.1, NoMember));
      value := SkipBlanks(v.rest);
    }
    if Deref(value) == '}' {
      return Got(Object(child), value[1..]);
    }
    return Fail(false);
  }

  method ParseItem(text: string) returns (r: Parsed<Json>)
    ensures r == ParseValue(text)
    decreases |text|, 1
  {
    if StartsWith(text, "null") {
      return Got(Null, text[4..]);
    }
    if StartsWith(text, "false") {
      return Got(False, text[5..]);
    }
    if StartsWith(text, "true") {
      return Got(True, text[4..]);
    }
    if At(text, '\"') {
      var s := ParseString(text);
      match s {
        case Fail(past) => return Fail(past);
        case Got(t, rest) => return Got(Str(t), rest);
      }
    }
    if At(text, '-') || (text != [] && IsDigit(text[0])) {
      var d, rest := ParseNumberAt(text);
      return Got(Number(d), rest);
    }
    if At(text, '[') {
      r := ParseArray(text);
      return;
    }
    if At(text, '{') {
      r := ParseObject(text);
      return;
    }
    return Fail(false);
  }

  /** cJSON_ParseWithOpts; what Print has written comes back by TextRoundTrip. */
  method ParseWithOpts(text: string, requireEnd: bool) returns (r: Parsed<Json>)
    ensures r == Parse(text, requireEnd)
  {
    hide ParseValue, Skip;
    var start := SkipBlanks(text);
    r := ParseItem(start);
    if r.Got? && requireEnd {
      var end := SkipBlanks(r.rest);
      r := if end != [] then Fail(false) else Got(r.value, end);
    }
  }

  // ----- texts on which no scan goes beyond the terminator

  /** The text does not end in a backslash. */
  predicate Closed(s: string) { s == [] || s[|s| - 1] != '\\' }

  lemma ClosedBehind(s: string, k: nat)
    requires Closed(s) && k <= |s|
    ensures Closed(s[k..])
  {
  }

  lemma {:induction false} SkipClosed(s: string)
    requires Closed(s)
    ensures Closed(Skip(s))
    decreases |s|
  {
    if s != [] { SkipClosed(s[1..]); }
  }

  lemma {:induction false} DigitsClosed(n: int, s: string)
    requires Closed(s)
    ensures Closed(ReadDigits(n, s).1)
    decreases |s|
  {
    if s != [] && IsDigit(s[0]) { DigitsClosed(n * 10 + (s[0] as int - '0' as int), s[1..]); }
  }

  lemma ExponentClosed(x: string)
    requires Closed(x)
    ensures Closed(ReadExponent(x).1)
  {
    if At(x, 'e') || At(x, 'E') {
      var y := x[1..];
      DigitsClosed(0, if At(y, '+') || At(y, '-') then y[1..] else y);
    }
  }

  lemma NumberClosed(s: string)
    requires Closed(s) && (At(s, '-') || (s != [] && IsDigit(s[0])))
    ensures Closed(ParseNumber(s).1)
  {
    hide ReadDigits, ReadExponent, Scaled, Closed;
    if s != [] { ClosedBehind(s, 1); }
    var t := if At(s, '-') then s[1..] else s;
    if t != [] { ClosedBehind(t, 1); }
    var u := if At(t, '0') then t[1..] else t;
    DigitsClosed(0, u);
    var (n, w) := if u != [] && '1' <= u[0] <= '9' then ReadDigits(0, u) else (0, u);
    if |w| >= 2 {
      ClosedBehind(w, 1);
      DigitsClosed(n, w[1..]);
    }
    ExponentClosed(ReadFraction(n, w).2);
  }

  lemma StrClosed(s: string)
    requires Closed(s)
    ensures var r := ParseStr(s); if r.Got? then Closed(r.rest) else !r.past
  {
    hide Decode, Onto, BodyLength, EndsInEscape, Closed;
    if At(s, '\"') {
      BodyStaysInside(s[1..]);
      ClosedBehind(s, 1);
      var n := BodyLength(s[1..]);
      if n >= 0 {
        ClosedBehind(s, 1 + n);
        var rest := s[1 + n..];
        if At(rest, '\"') { ClosedBehind(rest, 1); }
      }
    }
  }

  lemma BodyStaysInside(s: string)
    ensures Closed(s) ==> BodyLength(s) >= 0
  {
    BodyLengthIs(s);
  }

  lemma {:induction false} ValueClosed(s: string)
    requires Closed(s)
    ensures var r := ParseValue(s); if r.Got? then Closed(r.rest) else !r.past
    decreases |s|, 1
  {
    hide ParseStr, ParseNumber, Skip, ParseElems, ParseMembers;
    if StartsWith(s, "null") || StartsWith(s, "false") || StartsWith(s, "true") {
    } else if At(s, '\"') {
      StrClosed(s);
    } else if At(s, '-') || (s != [] && IsDigit(s[0])) {
      NumberClosed(s);
    } else if At(s, '[') || At(s, '{') {
      SkipClosed(s[1..]);
      if At(s, '[') { ElemsClosed(Skip(s[1..])); } else { MembersClosed(Skip(s[1..])); }
    }
  }

  lemma {:induction false} ElemsClosed(s: string)
    requires Closed(s)
    ensures var r := ParseElems(s); if r.Got? then Closed(r.rest) else !r.past
    decreases |s|, 2
  {
    hide ParseValue, Skip;
    ValueClosed(s);
    if ParseValue(s).Got? {
      var t := Skip(ParseValue(s).rest);
      SkipClosed(ParseValue(s).rest);
      if At(t, ',') {
        SkipClosed(t[1..]);
        ElemsClosed(Skip(t[1..]));
      }
    }
  }

  lemma {:induction false} MembersClosed(s: string)
    requires Closed(s)
    ensures var r := ParseMembers(s); if r.Got? then Closed(r.rest) else !r.past
    decreases |s|, 2
  {
    hide ParseValue, ParseStr, Skip;
    StrClosed(s);
    if ParseStr(s).Got? {
      var t := Skip(ParseStr(s).rest);
      SkipClosed(ParseStr(s).rest);
      if At(t, ':') {
        SkipClosed(t[1..]);
        var x := Skip(t[1..]);
        ValueClosed(x);
        if ParseValue(x).Got? {
          var u := Skip(ParseValue(x).rest);
          SkipClosed(ParseValue(x).rest);
          if At(u, ',') {
            SkipClosed(u[1..]);
            MembersClosed(Skip(u[1..]));
          }
        }
      }
    }
  }

  /** A text that does not end in a backslash is parsed within its bounds. */
  lemma ParseStaysInside(text: string, requireEnd: bool)
    requires Closed(text)
    ensures var r := Parse(text, requireEnd); r.Fail? ==> !r.past
  {
    SkipClosed(text);
    ValueClosed(Skip(text));
  }

  /** Texts whose strings the parser and the minifier follow beyond the terminator. */
  lemma ScansThatGoBeyond()
    ensures Parse("\"a\\", false) == Fail(true) && BodyLength("a\\") == -1 && EndsInEscape("a\\")
  {
    var s := "a\\";
    assert Slashes(s, 1) == 0 && Slashes(s, 2) == 1;
    assert !Bare(s, 0) && !Bare(s, 1) && NextBare(s, 2) == 2 && NextBare(s, 1) == 2;
    BodyLengthIs(s);
    var t := "\"a\\";
    assert t[1..] == s;
    assert Skip(t) == t && ParseStr(t) == Fail(true);
  }
}
