/** cJSON values and the text that cJSON.c prints for them and accepts. A C string is the string of
    its bytes before the terminator; a pointer into a text is the rest of the text from there. */
module JsonText {

  /** Elems and Members are the child lists of arrays and objects. */
  datatype Json =
    | Null
    | False
    | True
    | Number(d: real)
    | Str(s: string)
    | Array(elems: Elems)
    | Object(members: Members)

  datatype Elems = NoElem | Elem(value: Json, next: Elems)

  datatype Members = NoMember | Member(name: string, value: Json, next: Members)

  lemma Assoc(a: string, b: string, c: string)
    ensures (a + b) + c == a + (b + c)
  {
  }

  // ----- child lists, appended

  function JoinElems(a: Elems, b: Elems): Elems {
    if a.NoElem? then b else Elem(a.value, JoinElems(a.next, b))
  }

  function JoinMembers(a: Members, b: Members): Members {
    if a.NoMember? then b else Member(a.name, a.value, JoinMembers(a.next, b))
  }

  lemma {:induction false} ElemsAssoc(a: Elems, b: Elems, c: Elems)
    ensures JoinElems(JoinElems(a, b), c) == JoinElems(a, JoinElems(b, c))
  {
    if a.Elem? { ElemsAssoc(a.next, b, c); }
  }

  lemma {:induction false} MembersAssoc(a: Members, b: Members, c: Members)
    ensures JoinMembers(JoinMembers(a, b), c) == JoinMembers(a, JoinMembers(b, c))
  {
    if a.Member? { MembersAssoc(a.next, b, c); }
  }

  lemma {:induction false} ElemsEnd(a: Elems)
    ensures JoinElems(a, NoElem) == a
  {
    if a.Elem? { ElemsEnd(a.next); }
  }

  lemma {:induction false} MembersEnd(a: Members)
    ensures JoinMembers(a, NoMember) == a
  {
    if a.Member? { MembersEnd(a.next); }
  }

  lemma JoinOneElem(v: Json, es: Elems)
    ensures JoinElems(Elem(v, NoElem), es) == Elem(v, es)
  {
    assert JoinElems(NoElem, es) == es;
  }

  lemma JoinOneMember(name: string, v: Json, ms: Members)
    ensures JoinMembers(Member(name, v, NoMember), ms) == Member(name, v, ms)
  {
    assert JoinMembers(NoMember, ms) == ms;
  }

  // ----- what a C string can hold

  predicate CString(s: string) { forall i :: 0 <= i < |s| ==> 0 < s[i] as int < 256 }

  predicate Whole(d: real) { d == d.Floor as real }

  /** C strings, and numbers that are printed without a point or an exponent. */
  predicate Storable(v: Json) {
    match v
    case Number(d) => Whole(d)
    case Str(s) => CString(s)
    case Array(es) => StorableElems(es)
    case Object(ms) => StorableMembers(ms)
    case _ => true
  }

  predicate StorableElems(es: Elems) { es.Elem? ==> Storable(es.value) && StorableElems(es.next) }

  predicate StorableMembers(ms: Members) {
    ms.Member? ==> CString(ms.name) && Storable(ms.value) && StorableMembers(ms.next)
  }

  // ----- printing

  function HexDigit(d: int): char
    requires 0 <= d < 16
  {
    if d < 10 then (d + '0' as int) as char else (d - 10 + 'a' as int) as char
  }

  /** One byte of a string as print_string_ptr writes it. */
  function Escape(c: char): string {
    if c > 31 as char && c != '\"' && c != '\\' then [c]
    else if c == '\\' then ['\\', '\\']
    else if c == '\"' then ['\\', '\"']
    else if c == 8 as char then ['\\', 'b']
    else if c == 12 as char then ['\\', 'f']
    else if c == 10 as char then ['\\', 'n']
    else if c == 13 as char then ['\\', 'r']
    else if c == 9 as char then ['\\', 't']
    else ['\\', 'u', '0', '0', HexDigit(c as int / 16), HexDigit(c as int % 16)]
  }

  function Escaped(s: string): string {
    if s == [] then [] else Escape(s[0]) + Escaped(s[1..])
  }

  function PrintStr(s: string): string { ['\"'] + Escaped(s) + ['\"'] }

  function Digit(d: int): char
    requires 0 <= d < 10
  {
    (d + '0' as int) as char
  }

  function Decimal(n: nat): string {
    if n < 10 then [Digit(n)] else Decimal(n / 10) + [Digit(n % 10)]
  }

  function PrintNumber(n: int): string { if n < 0 then ['-'] + Decimal(-n) else Decimal(n) }

  function Tabs(n: nat): string { seq(n, _ => '\t') }

  /** The text of a value whose numbers are whole. */
  function PrintValue(v: Json, depth: nat, fmt: bool): string
    decreases v
  {
    match v
    case Null => "null"
    case False => "false"
    case True => "true"
    case Number(d) => PrintNumber(d.Floor)
    case Str(s) => PrintStr(s)
    case Array(es) =>
      if es.NoElem? then "[]" else "[" + (PrintElems(es, depth + 1, fmt) + "]")
    case Object(ms) =>
      "{" + (OpenGap(fmt) + (if ms.NoMember? then Indent(depth, fmt) else PrintMembers(ms, depth + 1, fmt) + Indent(depth, fmt)) + "}")
  }

  function OpenGap(fmt: bool): string { if fmt then "\n" else "" }

  function ElemGap(fmt: bool): string { if fmt then ", " else "," }

  function PrintElems(es: Elems, depth: nat, fmt: bool): string
    requires es.Elem?
    decreases es
  {
    PrintValue(es.value, depth, fmt)
    + if es.next.Elem? then ElemGap(fmt) + PrintElems(es.next, depth, fmt) else ""
  }

  function Indent(depth: nat, fmt: bool): string { if fmt then Tabs(depth) else "" }

  function NameGap(fmt: bool): string { if fmt then ":\t" else ":" }

  function MemberGap(more: bool, fmt: bool): string {
    (if more then "," else "") + if fmt then "\n" else ""
  }

  function PrintMembers(ms: Members, depth: nat, fmt: bool): string
    requires ms.Member?
    decreases ms, 1
  {
    Indent(depth, fmt) + MembersText(ms, depth, fmt)
  }

  /** The members after the first one's indentation. */
  function MembersText(ms: Members, depth: nat, fmt: bool): string
    requires ms.Member?
    decreases ms, 0
  {
    PrintStr(ms.name) + (NameGap(fmt) + (PrintValue(ms.value, depth, fmt)
    + (MemberGap(ms.next.Member?, fmt) + if ms.next.Member? then PrintMembers(ms.next, depth, fmt) else "")))
  }

  // ----- parsing

  /** past: looking for the end of a string, the scan has gone beyond the terminator of the text. */
  datatype Parsed<T> = Fail(past: bool) | Got(value: T, rest: string)

  predicate At(s: string, c: char) { s != [] && s[0] == c }

  predicate IsDigit(c: char) { '0' <= c <= '9' }

  function Skip(s: string): (r: string)
    ensures |r| <= |s|
  {
    if s != [] && s[0] <= ' ' then Skip(s[1..]) else s
  }

  /** The value of a hexadecimal digit, or -1. */
  function HexOf(c: char): int {
    if '0' <= c <= '9' then c as int - '0' as int
    else if 'A' <= c <= 'F' then c as int - 'A' as int + 10
    else if 'a' <= c <= 'f' then c as int - 'a' as int + 10
    else -1
  }

  /** parse_hex4: 0 for anything that is not four digits. */
  function Hex4(s: string): (r: int)
    ensures 0 <= r < 0x10000
  {
    if |s| >= 4 && HexOf(s[0]) >= 0 && HexOf(s[1]) >= 0 && HexOf(s[2]) >= 0 && HexOf(s[3]) >= 0 then
      ((HexOf(s[0]) * 16 + HexOf(s[1])) * 16 + HexOf(s[2])) * 16 + HexOf(s[3])
    else 0
  }

  function ByteOf(b: int): char
    requires 0 <= b < 256
  {
    b as char
  }

  /** A code point as UTF-8 bytes. */
  function Utf8(uc: int): string
    requires 0 < uc < 0x110000
  {
    if uc < 0x80 then [ByteOf(uc)]
    else if uc < 0x800 then [ByteOf(0xC0 + uc / 64), ByteOf(0x80 + uc % 64)]
    else if uc < 0x10000 then [ByteOf(0xE0 + uc / 4096), ByteOf(0x80 + uc / 64 % 64), ByteOf(0x80 + uc % 64)]
    else [ByteOf(0xF0 + uc / 262144), ByteOf(0x80 + uc / 4096 % 64), ByteOf(0x80 + uc / 64 % 64), ByteOf(0x80 + uc % 64)]
  }

  /** A code point that is not half of a surrogate pair. */
  predicate Scalar(uc: int) { 0 < uc < 0x110000 && !(0xD800 <= uc <= 0xDFFF) }

  /** The low six bits of a byte that continues a sequence. */
  function LowBits(c: char): int { c as int - 0x80 }

  /** The code point that a UTF-8 text begins with, by section 3 of RFC 3629, and its length. */
  function FromUtf8(s: string): (int, nat) {
    if s == [] then (-1, 0)
    else if s[0] as int < 0x80 then (s[0] as int, 1)
    else if s[0] as int < 0xE0 && |s| >= 2 then ((s[0] as int - 0xC0) * 64 + LowBits(s[1]), 2)
    else if s[0] as int < 0xF0 && |s| >= 3 then (((s[0] as int - 0xE0) * 64 + LowBits(s[1])) * 64 + LowBits(s[2]), 3)
    else if |s| >= 4 then ((((s[0] as int - 0xF0) * 64 + LowBits(s[1])) * 64 + LowBits(s[2])) * 64 + LowBits(s[3]), 4)
    else (-1, 0)
  }

  /** What an escape is turned into reads back as its code point, whatever follows. */
  lemma Utf8IsRead(uc: int, rest: string)
    requires 0 < uc < 0x110000
    ensures FromUtf8(Utf8(uc) + rest) == (uc, |Utf8(uc)|)
  {
    var u := Utf8(uc);
    var s := u + rest;
    InSixes(uc);
    assert s[0] == u[0];
    if uc >= 0x80 { assert s[1] == u[1]; }
    if uc >= 0x800 { assert s[2] == u[2]; }
    if uc >= 0x10000 { assert s[3] == u[3]; }
  }

  /** Cutting off six bits three times over. */
  lemma InSixes(uc: int)
    requires 0 <= uc
    ensures uc == uc / 64 * 64 + uc % 64
    ensures uc / 64 == uc / 4096 * 64 + uc / 64 % 64
    ensures uc / 4096 == uc / 262144 * 64 + uc / 4096 % 64
  {
  }

  /** How far the closing quote of a string body is, or its end; -1 when a backslash is the last
      byte of the text. */
  function BodyLength(s: string): int
    ensures -1 <= BodyLength(s) <= |s|
  {
    if s == [] || s[0] == '\"' then 0
    else if s[0] == '\\' then
      if |s| == 1 then -1 else (var n := BodyLength(s[2..]); if n < 0 then -1 else n + 2)
    else (var n := BodyLength(s[1..]); if n < 0 then -1 else n + 1)
  }

  // ----- quotes that end a string, told from the bytes before them

  /** How many backslashes stand right before position p. */
  function Slashes(s: string, p: nat): (n: nat)
    requires p <= |s|
    ensures n <= p
  {
    if p == 0 || s[p - 1] != '\\' then 0 else 1 + Slashes(s, p - 1)
  }

  /** A quote behind an even number of backslashes. */
  predicate Bare(s: string, p: nat) { p < |s| && s[p] == '\"' && Slashes(s, p) % 2 == 0 }

  /** The first such quote from p on, or the end. */
  function NextBare(s: string, p: nat): (r: nat)
    requires p <= |s|
    ensures p <= r <= |s| && (r < |s| ==> Bare(s, r)) && forall q :: p <= q < r ==> !Bare(s, q)
    decreases |s| - p
  {
    if p == |s| || Bare(s, p) then p else NextBare(s, p + 1)
  }

  /** No such quote, and an odd number of backslashes at the end. */
  predicate EndsInEscape(s: string) { NextBare(s, 0) == |s| && Slashes(s, |s|) % 2 == 1 }

  lemma {:induction false} SlashesBehind(s: string, k: nat, p: nat)
    requires k <= |s| && p <= |s| - k
    requires if k == 1 then s[0] != '\\' else k == 2 && s[0] == '\\'
    ensures Slashes(s, p + k) % 2 == Slashes(s[k..], p) % 2
    decreases p
  {
    if p > 0 && s[p + k - 1] == '\\' {
      assert s[k..][p - 1] == s[p + k - 1];
      SlashesBehind(s, k, p - 1);
    }
  }

  lemma {:induction false} BareBehind(s: string, k: nat, p: nat)
    requires k <= |s| && p <= |s| - k
    requires if k == 1 then s[0] != '\\' else k == 2 && s[0] == '\\'
    ensures NextBare(s, p + k) == NextBare(s[k..], p) + k
    decreases |s| - p
  {
    SlashesBehind(s, k, p);
    if p + k < |s| && !Bare(s, p + k) { BareBehind(s, k, p + 1); }
  }

  /** The scan of a string stops at the first quote that no backslash covers, or at the end of the text;
      it goes beyond exactly when there is no such quote and the text ends in an odd run of backslashes. */
  lemma {:induction false} BodyLengthIs(s: string)
    ensures BodyLength(s) == if EndsInEscape(s) then -1 else NextBare(s, 0)
    decreases |s|
  {
    if s != [] && s[0] != '\"' {
      var k := if s[0] == '\\' then 2 else 1;
      assert !Bare(s, 0);
      if k <= |s| {
        if k == 2 { assert Slashes(s, 1) == 1; }
        assert NextBare(s, 0) == NextBare(s, k);
        BodyLengthIs(s[k..]);
        BareBehind(s, k, 0);
        SlashesBehind(s, k, |s| - k);
      }
    }
  }

  datatype Decoded = Undecodable | Text(s: string)

  function Onto(p: string, d: Decoded): Decoded { if d.Text? then Text(p + d.s) else d }

  /** The bytes that a string body stands for. */
  function Decode(b: string): Decoded
    decreases |b|
  {
    if b == [] then Text([])
    else if b[0] != '\\' then Onto([b[0]], Decode(b[1..]))
    else if |b| == 1 then Undecodable
    else if b[1] == 'b' then Onto([8 as char], Decode(b[2..]))
    else if b[1] == 'f' then Onto([12 as char], Decode(b[2..]))
    else if b[1] == 'n' then Onto([10 as char], Decode(b[2..]))
    else if b[1] == 'r' then Onto([13 as char], Decode(b[2..]))
    else if b[1] == 't' then Onto([9 as char], Decode(b[2..]))
    else if b[1] != 'u' then Onto([b[1]], Decode(b[2..]))
    else
      var uc := Hex4(b[2..]);
      if |b| < 6 || 0xDC00 <= uc <= 0xDFFF || uc == 0 then Undecodable
      else if uc < 0xD800 || uc > 0xDBFF then Onto(Utf8(uc), Decode(b[6..]))
      else if |b| < 12 || b[6] != '\\' || b[7] != 'u' then Undecodable
      else
        var uc2 := Hex4(b[8..]);
        if uc2 < 0xDC00 || uc2 > 0xDFFF then Undecodable
        else Onto(Utf8(0x10000 + (uc - 0xD800) * 1024 + (uc2 - 0xDC00)), Decode(b[12..]))
  }

  function ParseStr(s: string): (r: Parsed<string>)
    ensures r.Got? ==> |r.rest| < |s|
  {
    if !At(s, '\"') then Fail(false)
    else
      var n := BodyLength(s[1..]);
      if n < 0 then Fail(true)
      else
        var d := Decode(s[1..1 + n]);
        var rest := s[1 + n..];
        if d.Text? then Got(d.s, if At(rest, '\"') then rest[1..] else rest) else Fail(false)
  }

  /** The digits at the front, read onto n. */
  function ReadDigits(n: int, s: string): (r: (int, string))
    ensures |r.1| <= |s| && (s != [] && IsDigit(s[0]) ==> |r.1| < |s|)
    decreases |s|
  {
    if s != [] && IsDigit(s[0]) then ReadDigits(n * 10 + (s[0] as int - '0' as int), s[1..]) else (n, s)
  }

  /** 10 to the power of e */
  function Pow10(e: int): real
    decreases if e < 0 then -e else e
  {
    if e == 0 then 1.0 else if e > 0 then 10.0 * Pow10(e - 1) else Pow10(e + 1) / 10.0
  }

  function Scaled(n: int, e: int): real { n as real * Pow10(e) }

  /** The digits behind a point, read onto n, and minus their count. */
  function ReadFraction(n: int, w: string): (r: (int, int, string))
    ensures |r.2| <= |w|
  {
    if |w| >= 2 && w[0] == '.' && IsDigit(w[1]) then
      var (m, x) := ReadDigits(n, w[1..]);
      (m, |x| + 1 - |w|, x)
    else (n, 0, w)
  }

  function ReadExponent(x: string): (r: (int, string))
    ensures |r.1| <= |x|
  {
    if At(x, 'e') || At(x, 'E') then
      var y := x[1..];
      var (k, z) := ReadDigits(0, if At(y, '+') || At(y, '-') then y[1..] else y);
      (if At(y, '-') then -k else k, z)
    else (0, x)
  }

  /** One leading zero is skipped, whatever follows. */
  function ParseNumber(s: string): (r: (real, string))
    requires At(s, '-') || (s != [] && IsDigit(s[0]))
    ensures |r.1| < |s|
  {
    var t := if At(s, '-') then s[1..] else s;
    var u := if At(t, '0') then t[1..] else t;
    var (n, w) := if u != [] && '1' <= u[0] <= '9' then ReadDigits(0, u) else (0, u);
    var (m, scale, x) := ReadFraction(n, w);
    var (e, rest) := ReadExponent(x);
    (Scaled(if At(s, '-') then -m else m, scale + e), rest)
  }

  function StartsWith(s: string, p: string): bool { |s| >= |p| && s[..|p|] == p }

  function ParseValue(s: string): (r: Parsed<Json>)
    ensures r.Got? ==> |r.rest| < |s|
    decreases |s|, 1
  {
    if StartsWith(s, "null") then Got(Null, s[4..])
    else if StartsWith(s, "false") then Got(False, s[5..])
    else if StartsWith(s, "true") then Got(True, s[4..])
    else if At(s, '\"') then
      match ParseStr(s)
      case Fail(past) => Fail(past)
      case Got(t, rest) => Got(Str(t), rest)
    else if At(s, '-') || (s != [] && IsDigit(s[0])) then
      Got(Number(ParseNumber(s).0), ParseNumber(s).1)
    else if At(s, '[') then
      var t := Skip(s[1..]);
      if At(t, ']') then Got(Array(NoElem), t[1..])
      else
        match ParseElems(t)
        case Fail(past) => Fail(past)
        case Got(es, rest) => Got(Array(es), rest)
    else if At(s, '{') then
      var t := Skip(s[1..]);
      if At(t, '}') then Got(Object(NoMember), t[1..])
      else
        match ParseMembers(t)
        case Fail(past) => Fail(past)
        case Got(ms, rest) => Got(Object(ms), rest)
    else Fail(false)
  }

  /** One or more elements and the closing bracket. */
  function ParseElems(s: string): (r: Parsed<Elems>)
    ensures r.Got? ==> |r.rest| < |s|
    decreases |s|, 2
  {
    match ParseValue(s)
    case Fail(past) => Fail(past)
    case Got(v, after) =>
      var t := Skip(after);
      if At(t, ',') then
        match ParseElems(Skip(t[1..]))
        case Fail(past) => Fail(past)
        case Got(es, rest) => Got(Elem(v, es), rest)
      else if At(t, ']') then Got(Elem(v, NoElem), t[1..])
      else Fail(false)
  }

  /** One or more members and the closing brace. */
  function ParseMembers(s: string): (r: Parsed<Members>)
    ensures r.Got? ==> |r.rest| < |s|
    decreases |s|, 2
  {
    match ParseStr(s)
    case Fail(past) => Fail(past)
    case Got(name, afterName) =>
      var t := Skip(afterName);
      if !At(t, ':') then Fail(false)
      else
        match ParseValue(Skip(t[1..]))
        case Fail(past) => Fail(past)
        case Got(v, after) =>
          var u := Skip(after);
          if At(u, ',') then
            match ParseMembers(Skip(u[1..]))
            case Fail(past) => Fail(past)
            case Got(ms, rest) => Got(Member(name, v, ms), rest)
          else if At(u, '}') then Got(Member(name, v, NoMember), u[1..])
          else Fail(false)
  }

  /** cJSON_ParseWithOpts */
  function Parse(text: string, requireEnd: bool): Parsed<Json> {
    match ParseValue(Skip(text))
    case Got(v, rest) =>
      var end := if requireEnd then Skip(rest) else rest;
      if requireEnd && end != [] then Fail(false) else Got(v, end)
    case other => other
  }
}
