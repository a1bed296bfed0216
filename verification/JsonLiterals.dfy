/** String literals and numerals, written down over literal characters, and what they mean. They are those of RFC 8259
    with the library's liberties: a backslash covers any byte, a string may be open at the end of the text, and a
    number may lack digits or carry a leading zero. */
module JsonLiterals {
  import opened JsonText
  import opened JsonRoundTrip

  const DECIMALS := "0123456789"
  const LOWER_DIGITS := "0123456789abcdef"
  const UPPER_DIGITS := "0123456789ABCDEF"

  // ----- hexadecimal digits

  /** t writes u in four digits of either case, most significant first. */
  predicate Quad(t: string, u: int) {
    && 0 <= u < 0x10000 && |t| == 4
    && t[0] in {LOWER_DIGITS[u / 0x1000], UPPER_DIGITS[u / 0x1000]}
    && t[1] in {LOWER_DIGITS[u / 0x100 % 16], UPPER_DIGITS[u / 0x100 % 16]}
    && t[2] in {LOWER_DIGITS[u / 0x10 % 16], UPPER_DIGITS[u / 0x10 % 16]}
    && t[3] in {LOWER_DIGITS[u % 16], UPPER_DIGITS[u % 16]}
  }

  lemma HexOfIs(c: char, d: int)
    requires 0 <= d < 16
    ensures HexOf(c) == d <==> c in {LOWER_DIGITS[d], UPPER_DIGITS[d]}
    ensures -1 <= HexOf(c) < 16
  {
    if d < 4 { assert d in {0, 1, 2, 3}; }
    else if d < 8 { assert d in {4, 5, 6, 7}; }
    else if d < 12 { assert d in {8, 9, 10, 11}; }
    else { assert d in {12, 13, 14, 15}; }
  }

  lemma InDigits(a: int, b: int, c: int, d: int)
    requires 0 <= a < 16 && 0 <= b < 16 && 0 <= c < 16 && 0 <= d < 16
    ensures var u := ((a * 16 + b) * 16 + c) * 16 + d;
            0 <= u < 0x10000 && u / 0x1000 == a && u / 0x100 % 16 == b && u / 0x10 % 16 == c && u % 16 == d
  {
  }

  lemma OfDigits(u: int)
    requires 0 <= u < 0x10000
    ensures 0 <= u / 0x1000 < 16
    ensures u == ((u / 0x1000 * 16 + u / 0x100 % 16) * 16 + u / 0x10 % 16) * 16 + u % 16
  {
  }

  /** Four digits are read as the number they write. */
  lemma QuadIsRead(s: string, u: int)
    requires |s| >= 4 && Quad(s[..4], u)
    ensures Hex4(s) == u
  {
    hide HexOf;
    var t := s[..4];
    assert t[0] == s[0] && t[1] == s[1] && t[2] == s[2] && t[3] == s[3];
    OfDigits(u);
    HexOfIs(t[0], u / 0x1000);
    HexOfIs(t[1], u / 0x100 % 16);
    HexOfIs(t[2], u / 0x10 % 16);
    HexOfIs(t[3], u % 16);
  }

  /** A number that is not 0 is read from four digits only. */
  lemma QuadOf(s: string)
    requires |s| >= 4 && Hex4(s) != 0
    ensures Quad(s[..4], Hex4(s))
  {
    hide HexOf;
    var a, b, c, d := HexOf(s[0]), HexOf(s[1]), HexOf(s[2]), HexOf(s[3]);
    forall i | 0 <= i < 4 ensures HexOf(s[i]) < 16 { HexOfIs(s[i], 0); }
    HexOfIs(s[0], a);
    HexOfIs(s[1], b);
    HexOfIs(s[2], c);
    HexOfIs(s[3], d);
    InQuad(s[..4], a, b, c, d);
  }

  lemma InQuad(t: string, a: int, b: int, c: int, d: int)
    requires 0 <= a < 16 && 0 <= b < 16 && 0 <= c < 16 && 0 <= d < 16 && |t| == 4
    requires t[0] in {LOWER_DIGITS[a], UPPER_DIGITS[a]} && t[1] in {LOWER_DIGITS[b], UPPER_DIGITS[b]}
    requires t[2] in {LOWER_DIGITS[c], UPPER_DIGITS[c]} && t[3] in {LOWER_DIGITS[d], UPPER_DIGITS[d]}
    ensures Quad(t, ((a * 16 + b) * 16 + c) * 16 + d)
  {
    InDigits(a, b, c, d);
  }

  // ----- strings

  /** A byte for itself; a backslash and a byte; an escaped code point; one beyond 0xFFFF in two halves. */
  datatype Unit =
    | Plain(c: char)
    | Covered(k: char)
    | Point(t: string, u: int)
    | Halves(t: string, h: int, r: string, l: int)

  const NAMED: map<char, int> := map['b' := 8, 'f' := 12, 'n' := 10, 'r' := 13, 't' := 9]

  predicate FitsUnit(x: Unit) {
    match x
    case Plain(c) => c != '\"' && c != '\\'
    case Covered(k) => k != 'u'
    case Point(t, u) => Quad(t, u) && u != 0 && !(0xD800 <= u <= 0xDFFF)
    case Halves(t, h, r, l) => Quad(t, h) && 0xD800 <= h <= 0xDBFF && Quad(r, l) && 0xDC00 <= l <= 0xDFFF
  }

  function UnitText(x: Unit): string {
    match x
    case Plain(c) => [c]
    case Covered(k) => ['\\', k]
    case Point(t, u) => ['\\', 'u'] + t
    case Halves(t, h, r, l) => (['\\', 'u'] + t) + (['\\', 'u'] + r)
  }

  function UnitValue(x: Unit): string
    requires FitsUnit(x)
  {
    match x
    case Plain(c) => [c]
    case Covered(k) => [if k in NAMED then NAMED[k] as char else k]
    case Point(t, u) => Utf8(u)
    case Halves(t, h, r, l) => Utf8(0x10000 + (h - 0xD800) * 0x400 + (l - 0xDC00))
  }

  predicate FitsUnits(us: seq<Unit>) { forall i :: 0 <= i < |us| ==> FitsUnit(us[i]) }

  function UnitsText(us: seq<Unit>): string {
    if us == [] then [] else UnitText(us[0]) + UnitsText(us[1..])
  }

  function UnitsValue(us: seq<Unit>): string
    requires FitsUnits(us)
  {
    if us == [] then [] else UnitValue(us[0]) + UnitsValue(us[1..])
  }

  lemma CoveredDecodes(k: char, b: string)
    requires k != 'u'
    ensures Decode(['\\', k] + b) == Onto([if k in NAMED then NAMED[k] as char else k], Decode(b))
  {
    hide Utf8, Hex4;
    var t := ['\\', k] + b;
    assert t[0] == '\\' && t[1] == k && t[2..] == b;
  }

  lemma PointDecodes(t: string, u: int, b: string)
    requires Quad(t, u) && u != 0 && !(0xD800 <= u <= 0xDFFF)
    ensures Decode((['\\', 'u'] + t) + b) == Onto(Utf8(u), Decode(b))
  {
    hide Utf8, Hex4, Quad;
    var s := (['\\', 'u'] + t) + b;
    assert |t| == 4 by { QuadLength(t, u); }
    assert s[2..][..4] == t && s[6..] == b;
    QuadIsRead(s[2..], u);
  }

  lemma QuadLength(t: string, u: int)
    requires Quad(t, u)
    ensures |t| == 4 && 0 <= u < 0x10000 && '\"' !in t && '\\' !in t
  {
    forall i | 0 <= i < 4 ensures t[i] != '\"' && t[i] != '\\' {
      HexOfIs(t[0], u / 0x1000);
      HexOfIs(t[1], u / 0x100 % 16);
      HexOfIs(t[2], u / 0x10 % 16);
      HexOfIs(t[3], u % 16);
    }
  }

  lemma HalvesDecode(t: string, h: int, r: string, l: int, b: string)
    requires Quad(t, h) && 0xD800 <= h <= 0xDBFF && Quad(r, l) && 0xDC00 <= l <= 0xDFFF
    ensures Decode(((['\\', 'u'] + t) + (['\\', 'u'] + r)) + b) == Onto(Utf8(0x10000 + (h - 0xD800) * 0x400 + (l - 0xDC00)), Decode(b))
  {
    hide Utf8, Hex4, Quad;
    QuadLength(t, h);
    QuadLength(r, l);
    var s := ((['\\', 'u'] + t) + (['\\', 'u'] + r)) + b;
    assert s[2..][..4] == t && s[8..][..4] == r && s[12..] == b;
    QuadIsRead(s[2..], h);
    QuadIsRead(s[8..], l);
  }

  lemma UnitDecodes(x: Unit, b: string)
    requires FitsUnit(x)
    ensures Decode(UnitText(x) + b) == Onto(UnitValue(x), Decode(b))
  {
    hide Decode, Utf8, Quad;
    match x {
      case Plain(c) => PlainDecodes(c, b);
      case Covered(k) => CoveredDecodes(k, b);
      case Point(t, u) => PointDecodes(t, u, b);
      case Halves(t, h, r, l) => HalvesDecode(t, h, r, l, b);
    }
  }

  lemma {:induction false} UnitsDecode(us: seq<Unit>)
    requires FitsUnits(us)
    ensures Decode(UnitsText(us)) == Text(UnitsValue(us))
    decreases |us|
  {
    hide Decode, FitsUnit, UnitText, UnitValue;
    if us == [] {
      DecodeNone();
    } else {
      UnitsDecode(us[1..]);
      UnitDecodes(us[0], UnitsText(us[1..]));
    }
  }

  /** The scan passes over a unit. */
  lemma UnitLength(x: Unit, b: string)
    requires FitsUnit(x)
    ensures BodyLength(UnitText(x) + b) == if BodyLength(b) < 0 then -1 else |UnitText(x)| + BodyLength(b)
  {
    hide BodyLength, Quad;
    match x {
      case Plain(c) => PlainLength(c, b);
      case Covered(k) => PairLength(k, b);
      case Point(t, u) => EscapedQuad(t, u, b);
      case Halves(t, h, r, l) =>
        assert UnitText(x) + b == (['\\', 'u'] + t) + ((['\\', 'u'] + r) + b);
        EscapedQuad(r, l, b);
        EscapedQuad(t, h, (['\\', 'u'] + r) + b);
    }
  }

  lemma EscapedQuad(t: string, u: int, b: string)
    requires Quad(t, u)
    ensures BodyLength((['\\', 'u'] + t) + b) == if BodyLength(b) < 0 then -1 else |['\\', 'u'] + t| + BodyLength(b)
  {
    hide BodyLength, Quad;
    QuadLength(t, u);
    assert (['\\', 'u'] + t) + b == ['\\', 'u'] + (t + b);
    PairLength('u', t + b);
    PlainsLength(t, b);
  }

  lemma {:induction false} UnitsLength(us: seq<Unit>, rest: string)
    requires FitsUnits(us) && (rest == [] || rest[0] == '\"')
    ensures BodyLength(UnitsText(us) + rest) == |UnitsText(us)|
    decreases |us|
  {
    hide FitsUnit, UnitText;
    if us == [] {
      assert [] + rest == rest;
    } else {
      UnitsLength(us[1..], rest);
      UnitLength(us[0], UnitsText(us[1..]) + rest);
      assert UnitsText(us) + rest == UnitText(us[0]) + (UnitsText(us[1..]) + rest);
    }
  }

  /** A body that the scan found is passed over as a whole. */
  lemma {:induction false} BodyIsWhole(s: string)
    requires BodyLength(s) >= 0
    ensures BodyLength(s[..BodyLength(s)]) == BodyLength(s)
    decreases |s|
  {
    var n := BodyLength(s);
    if s != [] && s[0] != '\"' {
      var k := if s[0] == '\\' then 2 else 1;
      BodyIsWhole(s[k..]);
      assert s[..n][k..] == s[k..][..n - k] && s[..n][0] == s[0];
    }
  }

  /** A decodable body begins with a unit. */
  lemma FirstUnit(b: string) returns (x: Unit, rest: string)
    requires b != [] && Decode(b).Text? && BodyLength(b) == |b|
    ensures FitsUnit(x) && b == UnitText(x) + rest && |rest| < |b| && Decode(rest).Text?
  {
    hide Utf8, Hex4, Quad;
    if b[0] != '\\' {
      x, rest := Plain(b[0]), b[1..];
      assert b == [b[0]] + rest;
    } else if b[1] != 'u' {
      x, rest := Covered(b[1]), b[2..];
      assert b == ['\\', b[1]] + rest;
    } else {
      var u := Hex4(b[2..]);
      QuadOf(b[2..]);
      var t := b[2..][..4];
      if u < 0xD800 || u > 0xDBFF {
        x, rest := Point(t, u), b[6..];
        assert b == (['\\', 'u'] + t) + rest;
      } else {
        var l, r := Hex4(b[8..]), b[8..][..4];
        QuadOf(b[8..]);
        x, rest := Halves(t, u, r, l), b[12..];
        assert b[..2] == ['\\', 'u'] && b[6..8] == ['\\', 'u'] && t == b[2..6] && r == b[8..12];
        InPieces(b);
      }
    }
  }

  lemma InPieces(b: string)
    requires |b| >= 12
    ensures b == ((b[..2] + b[2..6]) + (b[6..8] + b[8..12])) + b[12..]
  {
  }

  lemma {:induction false} UnitsOf(b: string) returns (us: seq<Unit>)
    requires Decode(b).Text? && BodyLength(b) == |b|
    ensures FitsUnits(us) && UnitsText(us) == b
    decreases |b|
  {
    hide Decode, BodyLength, FitsUnit, UnitText;
    if b == [] {
      us := [];
    } else {
      var x, rest := FirstUnit(b);
      UnitLength(x, rest);
      var more := UnitsOf(rest);
      us := [x] + more;
      assert us[1..] == more;
    }
  }

  function LiteralText(us: seq<Unit>, closed: bool): string { ['\"'] + (UnitsText(us) + if closed then ['\"'] else []) }

  /** A string literal means what its units mean; at the end of the text the closing quote may be missing. */
  lemma LiteralIsRead(us: seq<Unit>, closed: bool, rest: string)
    requires FitsUnits(us) && (closed || rest == [])
    ensures ParseStr(LiteralText(us, closed) + rest) == Got(UnitsValue(us), rest)
  {
    hide UnitsText, UnitsValue, FitsUnits, Decode, BodyLength;
    var u := UnitsText(us);
    var tail := if closed then ['\"'] + rest else [];
    var s := LiteralText(us, closed) + rest;
    assert s[1..] == u + tail;
    UnitsLength(us, tail);
    UnitsDecode(us);
    assert s[1..][..|u|] == u && s[1..1 + |u|] == u && s[1 + |u|..] == tail;
    if closed { assert tail[1..] == rest; }
  }

  lemma OneUnit(x: Unit, rest: string)
    requires FitsUnit(x)
    ensures ParseStr(['\"'] + (UnitText(x) + (['\"'] + rest))) == Got(UnitValue(x), rest)
  {
    hide ParseStr, FitsUnit, UnitText, UnitValue;
    LiteralIsRead([x], true, rest);
    assert [x][1..] == [] && UnitsText([x]) == UnitText(x) && UnitsValue([x]) == UnitValue(x);
    assert LiteralText([x], true) + rest == ['\"'] + (UnitText(x) + (['\"'] + rest));
  }

  /** An escape stands for the UTF-8 of its code point. */
  lemma PointIsRead(t: string, u: int, rest: string)
    requires Quad(t, u) && u != 0 && !(0xD800 <= u <= 0xDFFF)
    ensures ParseStr("\"\\u" + (t + ("\"" + rest))) == Got(Utf8(u), rest)
  {
    hide ParseStr, Utf8, Quad;
    OneUnit(Point(t, u), rest);
    assert "\"\\u" + (t + ("\"" + rest)) == ['\"'] + ((['\\', 'u'] + t) + (['\"'] + rest));
  }

  /** A pair of escapes stands for a code point beyond 0xFFFF, by section 7 of RFC 8259. */
  lemma HalvesAreRead(t: string, h: int, r: string, l: int, rest: string)
    requires Quad(t, h) && 0xD800 <= h <= 0xDBFF && Quad(r, l) && 0xDC00 <= l <= 0xDFFF
    ensures ParseStr("\"\\u" + (t + ("\\u" + (r + ("\"" + rest))))) == Got(Utf8(0x10000 + (h - 0xD800) * 0x400 + (l - 0xDC00)), rest)
  {
    hide ParseStr, Utf8, Quad;
    OneUnit(Halves(t, h, r, l), rest);
    assert "\"\\u" + (t + ("\\u" + (r + ("\"" + rest)))) == ['\"'] + (((['\\', 'u'] + t) + (['\\', 'u'] + r)) + (['\"'] + rest));
  }

  /** Code points of each length, in UTF-8 by section 3 of RFC 3629. */
  lemma SomeUtf8()
    ensures Utf8(0x41) == [0x41 as char] && Utf8(0x141) == [0xC5 as char, 0x81 as char]
    ensures Utf8(0x20AC) == [0xE2 as char, 0x82 as char, 0xAC as char]
    ensures Utf8(0x1F600) == [0xF0 as char, 0x9F as char, 0x98 as char, 0x80 as char]
  {
  }

  /** And only a string literal is read as a string. */
  lemma LiteralOf(s: string) returns (us: seq<Unit>, closed: bool)
    requires ParseStr(s).Got?
    ensures FitsUnits(us) && (closed || ParseStr(s).rest == []) && s == LiteralText(us, closed) + ParseStr(s).rest
  {
    hide UnitsText, FitsUnits, Decode, BodyLength;
    var n := BodyLength(s[1..]);
    var b := s[1..1 + n];
    BodyIsWhole(s[1..]);
    assert s[1..][..n] == b;
    us := UnitsOf(b);
    StopsAtQuote(s[1..]);
    closed := 1 + n < |s|;
    assert s[1..][n..] == s[1 + n..];
    assert s == ['\"'] + (b + s[1 + n..]);
  }

  lemma {:induction false} StopsAtQuote(s: string)
    ensures 0 <= BodyLength(s) < |s| ==> s[BodyLength(s)] == '\"'
    decreases |s|
  {
    if s != [] && s[0] != '\"' {
      var k := if s[0] == '\\' then 2 else 1;
      if k <= |s| { StopsAtQuote(s[k..]); }
    }
  }

  // ----- numbers

  /** A minus, a leading zero, digits, digits behind a point, and the mark, sign and digits of an exponent. */
  datatype Numeral = Numeral(neg: bool, zero: bool, whole: seq<int>, frac: seq<int>, mark: string, sign: string, exp: seq<int>)

  predicate Digital(ds: seq<int>) { forall i :: 0 <= i < |ds| ==> 0 <= ds[i] < 10 }

  predicate IsDecimal(c: char) { c in DECIMALS }

  function DigitChar(d: int): char
    requires 0 <= d < 10
  {
    DECIMALS[d]
  }

  predicate NoDigit(s: string) { s == [] || !IsDecimal(s[0]) }

  function DigitsText(ds: seq<int>): (t: string)
    requires Digital(ds)
    ensures |t| == |ds|
  {
    if ds == [] then [] else [DigitChar(ds[0])] + DigitsText(ds[1..])
  }

  /** The digits ds, read behind those of n. */
  function Reads(n: int, ds: seq<int>): int
    decreases |ds|
  {
    if ds == [] then n else Reads(n * 10 + ds[0], ds[1..])
  }

  predicate FitsNumeral(m: Numeral) {
    && Digital(m.whole) && Digital(m.frac) && Digital(m.exp) && (m.whole != [] ==> m.whole[0] != 0)
    && (m.neg || m.zero || m.whole != [])
    && (m.mark == "" || m.mark == "e" || m.mark == "E") && (m.sign == "" || m.sign == "+" || m.sign == "-")
    && (m.mark == "" ==> m.sign == "" && m.exp == [])
  }

  function Optional(there: bool, c: char): string { if there then [c] else [] }

  function ExpText(mark: string, sign: string, exp: seq<int>): string
    requires Digital(exp)
  {
    mark + (sign + DigitsText(exp))
  }

  function FracText(frac: seq<int>): string
    requires Digital(frac)
  {
    if frac == [] then "" else "." + DigitsText(frac)
  }

  function NumeralText(m: Numeral): string
    requires FitsNumeral(m)
  {
    Optional(m.neg, '-') + (Optional(m.zero, '0') + (DigitsText(m.whole) + (FracText(m.frac) + ExpText(m.mark, m.sign, m.exp))))
  }

  /** All the digits as a whole number, scaled by the exponent less the number of digits behind the point. */
  function NumeralValue(m: Numeral): real {
    var n, e := Reads(0, m.whole + m.frac), Reads(0, m.exp);
    (if m.neg then -n else n) as real * Pow10((if m.sign == "-" then -e else e) - |m.frac|)
  }

  /** What follows does not prolong the numeral. */
  predicate Stops(m: Numeral, rest: string) {
    rest != [] ==>
      if m.mark != "" then !IsDecimal(rest[0]) && (m.exp == [] && m.sign == "" ==> rest[0] != '+' && rest[0] != '-')
      else
        && rest[0] != 'e' && rest[0] != 'E'
        && if m.frac != [] then !IsDecimal(rest[0])
           else
             && (|rest| > 1 ==> !(rest[0] == '.' && IsDecimal(rest[1])))
             && (IsDecimal(rest[0]) ==> m.whole == [] && m.zero && rest[0] == '0')
  }

  lemma DigitIs(c: char, d: int)
    requires 0 <= d < 10
    ensures IsDigit(c) <==> IsDecimal(c)
    ensures IsDigit(DigitChar(d)) && DigitChar(d) as int - '0' as int == d && (DigitChar(d) == '0' <==> d == 0)
    ensures IsDigit(c) && c as int - '0' as int == d ==> c == DigitChar(d)
  {
    if d < 4 { assert d in {0, 1, 2, 3}; } else { assert d in {4, 5, 6, 7, 8, 9}; }
    if IsDigit(c) { assert DECIMALS[c as int - '0' as int] == c; }
  }

  lemma OneDigitIsRead(n: int, d: int, t: string)
    requires 0 <= d < 10
    ensures ReadDigits(n, [DigitChar(d)] + t) == ReadDigits(n * 10 + d, t)
  {
    hide DigitChar, IsDecimal;
    DigitIs(DigitChar(d), d);
    assert ([DigitChar(d)] + t)[1..] == t;
  }

  lemma NoDigitIsRead(n: int, s: string)
    ensures NoDigit(s) ==> ReadDigits(n, s) == (n, s)
    ensures !NoDigit(s) ==> var d := s[0] as int - '0' as int; 0 <= d < 10 && s == [DigitChar(d)] + s[1..]
  {
    hide DigitChar, IsDecimal;
    if s != [] {
      DigitIs(s[0], 0);
      var d := s[0] as int - '0' as int;
      if IsDigit(s[0]) { DigitIs(s[0], d); }
    }
  }

  lemma {:induction false} DigitsAreRead(n: int, ds: seq<int>, rest: string)
    requires Digital(ds) && NoDigit(rest)
    ensures ReadDigits(n, DigitsText(ds) + rest) == (Reads(n, ds), rest)
    decreases |ds|
  {
    hide NoDigit, ReadDigits, DigitChar;
    if ds == [] {
      assert [] + rest == rest;
      NoDigitIsRead(n, rest);
    } else {
      var t := DigitsText(ds[1..]);
      assert DigitsText(ds) + rest == [DigitChar(ds[0])] + (t + rest);
      OneDigitIsRead(n, ds[0], t + rest);
      DigitsAreRead(n * 10 + ds[0], ds[1..], rest);
    }
  }

  lemma {:induction false} DigitsOf(n: int, s: string) returns (ds: seq<int>)
    ensures Digital(ds) && s == DigitsText(ds) + ReadDigits(n, s).1 && NoDigit(ReadDigits(n, s).1)
    ensures !NoDigit(s) ==> ds != [] && s[0] == DigitChar(ds[0])
    decreases |s|
  {
    hide NoDigit, ReadDigits, DigitChar;
    NoDigitIsRead(n, s);
    if NoDigit(s) {
      ds := [];
      assert [] + s == s;
    } else {
      var d := s[0] as int - '0' as int;
      OneDigitIsRead(n, d, s[1..]);
      var more := DigitsOf(n * 10 + d, s[1..]);
      ds := [d] + more;
      assert ds[1..] == more && DigitsText(ds) == [DigitChar(d)] + DigitsText(more);
      Assoc([DigitChar(d)], DigitsText(more), ReadDigits(n, s).1);
    }
  }

  // what each part of a numeral is read as

  /** The bytes that a numeral has besides its digits. */
  lemma NoDecimals()
    ensures !IsDecimal('.') && !IsDecimal('e') && !IsDecimal('E') && !IsDecimal('+') && !IsDecimal('-')
  {
  }

  lemma SignIsRead(sign: string, d: string)
    requires sign == "" || sign == "+" || sign == "-"
    requires sign == "" && d != [] ==> d[0] != '+' && d[0] != '-'
    ensures var y := sign + d;
            (if At(y, '+') || At(y, '-') then y[1..] else y) == d && (At(y, '-') <==> sign == "-")
  {
    if sign == "" { assert sign + d == d; }
  }

  lemma MarkIsRead(mark: string, y: string)
    requires mark == "e" || mark == "E"
    ensures var t := if At(y, '+') || At(y, '-') then y[1..] else y;
            var (k, z) := ReadDigits(0, t);
            ReadExponent(mark + y) == (if At(y, '-') then -k else k, z)
  {
    assert (mark + y)[1..] == y;
    hide ReadDigits;
  }

  lemma ExpIsRead(m: Numeral, rest: string)
    requires FitsNumeral(m) && Stops(m, rest)
    ensures ReadExponent(ExpText(m.mark, m.sign, m.exp) + rest) == (if m.sign == "-" then -Reads(0, m.exp) else Reads(0, m.exp), rest)
  {
    hide DigitsText, Reads, ReadDigits, IsDecimal, IsDigit, DigitChar, ReadExponent, NoDigit;
    var d := DigitsText(m.exp) + rest;
    EmptyDigits(0, rest);
    if m.mark == "" {
      assert ExpText(m.mark, m.sign, m.exp) + rest == rest;
      NoExponent(rest);
    } else {
      NoDecimals();
      StopsExp(m, rest);
      DigitsAreRead(0, m.exp, rest);
      SignIsRead(m.sign, d);
      Assoc(m.mark, m.sign + DigitsText(m.exp), rest);
      Assoc(m.sign, DigitsText(m.exp), rest);
      MarkIsRead(m.mark, m.sign + d);
    }
  }

  lemma NoExponent(rest: string)
    requires rest != [] ==> rest[0] != 'e' && rest[0] != 'E'
    ensures ReadExponent(rest) == (0, rest)
  {
  }

  lemma StopsExp(m: Numeral, rest: string)
    requires FitsNumeral(m) && Stops(m, rest) && m.mark != ""
    ensures var d := DigitsText(m.exp) + rest;
            NoDigit(rest) && (m.sign == "" && d != [] ==> d[0] != '+' && d[0] != '-')
  {
    hide DigitsText, IsDecimal, DigitChar, IsDigit;
    EmptyDigits(0, rest);
    NoDecimals();
    if m.exp != [] { FirstDigit(m.exp, rest); }
  }

  lemma EmptyDigits(n: int, rest: string)
    ensures DigitsText([]) + rest == rest && Reads(n, []) == n
  {
  }

  lemma FirstDigit(ds: seq<int>, rest: string)
    requires Digital(ds) && ds != []
    ensures var s := DigitsText(ds) + rest;
            s != [] && s[0] == DigitChar(ds[0]) && IsDigit(s[0]) && IsDecimal(s[0]) && (s[0] == '0' <==> ds[0] == 0)
  {
    DigitIs(DigitChar(ds[0]), ds[0]);
  }

  lemma NoFraction(n: int, w: string)
    requires |w| > 1 ==> !(w[0] == '.' && IsDecimal(w[1]))
    ensures ReadFraction(n, w) == (n, 0, w)
  {
    hide IsDecimal;
    if |w| > 1 { DigitIs(w[1], 0); }
  }

  lemma DigitsBehindPoint(n: int, b: string, m: int, x: string)
    requires b != [] && IsDigit(b[0]) && ReadDigits(n, b) == (m, x)
    ensures ReadFraction(n, "." + b) == (m, |x| - |b|, x)
  {
    hide ReadDigits;
    assert ("." + b)[1..] == b;
  }

  /** The digits behind the point. */
  lemma FracIsRead(m: Numeral, n: int, rest: string)
    requires FitsNumeral(m) && Stops(m, rest)
    ensures ReadFraction(n, FracText(m.frac) + (ExpText(m.mark, m.sign, m.exp) + rest)) == (Reads(n, m.frac), -|m.frac|, ExpText(m.mark, m.sign, m.exp) + rest)
  {
    hide DigitsText, Reads, ReadDigits, IsDigit, IsDecimal, DigitChar, ReadFraction, ExpText;
    var x := ExpText(m.mark, m.sign, m.exp) + rest;
    var w := FracText(m.frac) + x;
    StartsExp(m, rest);
    NoDecimals();
    EmptyDigits(n, x);
    if m.frac == [] {
      assert w == x;
      NoFraction(n, w);
    } else {
      DigitsAreRead(n, m.frac, x);
      FirstDigit(m.frac, x);
      Assoc(".", DigitsText(m.frac), x);
      DigitsBehindPoint(n, DigitsText(m.frac) + x, Reads(n, m.frac), x);
    }
  }

  /** The exponent, or what follows if there is none. */
  lemma StartsExp(m: Numeral, rest: string)
    requires FitsNumeral(m) && Stops(m, rest)
    ensures var x := ExpText(m.mark, m.sign, m.exp) + rest;
            && (m.frac != [] ==> NoDigit(x))
            && (m.frac == [] && |x| > 1 ==> !(x[0] == '.' && IsDecimal(x[1])))
            && (x != [] && IsDecimal(x[0]) ==> m.whole == [] && m.zero && x[0] == '0')
  {
    hide DigitsText, IsDecimal;
    NoDecimals();
    if m.mark == "" {
      EmptyDigits(0, rest);
      assert ExpText(m.mark, m.sign, m.exp) + rest == rest;
    } else {
      assert (ExpText(m.mark, m.sign, m.exp) + rest)[0] == m.mark[0];
    }
  }

  lemma StartsFrac(m: Numeral, rest: string)
    requires FitsNumeral(m) && Stops(m, rest)
    ensures var w := FracText(m.frac) + (ExpText(m.mark, m.sign, m.exp) + rest);
            w != [] && IsDecimal(w[0]) ==> m.whole == [] && m.zero && w[0] == '0'
  {
    hide DigitsText, ExpText, IsDecimal;
    StartsExp(m, rest);
    NoDecimals();
    if m.frac == [] { assert FracText(m.frac) + (ExpText(m.mark, m.sign, m.exp) + rest) == ExpText(m.mark, m.sign, m.exp) + rest; }
  }

  lemma {:induction false} ReadsOn(n: int, a: seq<int>, b: seq<int>)
    ensures Reads(n, a + b) == Reads(Reads(n, a), b)
    decreases |a|
  {
    if a == [] {
      assert a + b == b;
    } else {
      assert (a + b)[1..] == a[1..] + b;
      ReadsOn(n * 10 + a[0], a[1..], b);
    }
  }

  lemma WholeIsRead(m: Numeral, w: string)
    requires FitsNumeral(m) && (w != [] && IsDecimal(w[0]) ==> m.whole == [] && m.zero && w[0] == '0')
    ensures var u := DigitsText(m.whole) + w;
            && (if u != [] && '1' <= u[0] <= '9' then ReadDigits(0, u) else (0, u)) == (Reads(0, m.whole), w)
            && (At(u, '0') ==> m.zero) && (m.whole != [] ==> u != [] && IsDigit(u[0])) && (m.whole == [] ==> u == w)
  {
    hide DigitsText, Reads, ReadDigits, IsDecimal, DigitChar;
    if m.whole == [] {
      EmptyDigits(0, w);
      if w != [] { DigitIs(w[0], 0); }
    } else {
      DigitsAreRead(0, m.whole, w);
      FirstDigit(m.whole, w);
    }
  }

  lemma Assembled(s: string, t: string, u: string, n: int, w: string, m: int, scale: int, x: string, e: int, rest: string)
    requires (At(s, '-') && s[1..] == t) || (t == s && s != [] && IsDigit(s[0]))
    requires if At(t, '0') then t[1..] == u else t == u
    requires (if u != [] && '1' <= u[0] <= '9' then ReadDigits(0, u) else (0, u)) == (n, w)
    requires ReadFraction(n, w) == (m, scale, x) && ReadExponent(x) == (e, rest)
    ensures ParseNumber(s) == (Scaled(if At(s, '-') then -m else m, scale + e), rest)
  {
    hide ReadDigits, ReadFraction, ReadExponent, Scaled;
  }

  lemma ValueIsScaled(m: Numeral)
    ensures var n, e := Reads(0, m.whole + m.frac), Reads(0, m.exp);
            NumeralValue(m) == Scaled(if m.neg then -n else n, -|m.frac| + (if m.sign == "-" then -e else e))
  {
    hide Pow10, Reads;
    var n, e := Reads(0, m.whole + m.frac), Reads(0, m.exp);
    var k := if m.sign == "-" then -e else e;
    assert NumeralValue(m) == Scaled(if m.neg then -n else n, k - |m.frac|);
  }

  lemma OptionalFirst(there: bool, c: char, u: string)
    ensures var t := Optional(there, c) + u; if there then At(t, c) && t[1..] == u else t == u
  {
  }

  /** A numeral is read as its value, up to what does not prolong it. */
  lemma NumeralIsRead(m: Numeral, rest: string)
    requires FitsNumeral(m) && Stops(m, rest)
    ensures var s := NumeralText(m) + rest;
            (At(s, '-') || (s != [] && IsDigit(s[0]))) && ParseNumber(s) == (NumeralValue(m), rest)
  {
    hide DigitsText, Reads, ReadDigits, ReadFraction, ReadExponent, FracText, ExpText, Stops, ParseNumber, IsDecimal, Scaled, NumeralValue;
    var x := ExpText(m.mark, m.sign, m.exp) + rest;
    var w := FracText(m.frac) + x;
    var u := DigitsText(m.whole) + w;
    var t := Optional(m.zero, '0') + u;
    var s := NumeralText(m) + rest;
    Reassociate(Optional(m.neg, '-'), Optional(m.zero, '0'), DigitsText(m.whole), FracText(m.frac), ExpText(m.mark, m.sign, m.exp), rest);
    StartsFrac(m, rest);
    WholeIsRead(m, w);
    FracIsRead(m, Reads(0, m.whole), rest);
    ExpIsRead(m, rest);
    ReadsOn(0, m.whole, m.frac);
    OptionalFirst(m.zero, '0', u);
    OptionalFirst(m.neg, '-', t);
    var n, e := Reads(0, m.whole + m.frac), Reads(0, m.exp);
    var k := if m.sign == "-" then -e else e;
    Assembled(s, t, u, Reads(0, m.whole), w, n, -|m.frac|, x, k, rest);
    assert At(s, '-') == m.neg;
    ValueIsScaled(m);
  }

  // and every number is read from a numeral

  lemma HeadAndTail(s: string)
    requires s != []
    ensures s == [s[0]] + s[1..]
  {
  }

  lemma SignOf(y: string) returns (sign: string, z: string)
    ensures sign == "" || sign == "+" || sign == "-"
    ensures y == sign + z && z == (if At(y, '+') || At(y, '-') then y[1..] else y)
    ensures sign == "" ==> !At(z, '+') && !At(z, '-')
  {
    if At(y, '+') || At(y, '-') {
      sign, z := [y[0]], y[1..];
      HeadAndTail(y);
    } else {
      sign, z := "", y;
    }
  }

  lemma MarkOf(x: string) returns (sign: string, exp: seq<int>)
    requires At(x, 'e') || At(x, 'E')
    ensures sign == "" || sign == "+" || sign == "-"
    ensures Digital(exp) && x == ([x[0]] + (sign + DigitsText(exp))) + ReadExponent(x).1
    ensures var rest := ReadExponent(x).1;
            NoDigit(rest) && (exp == [] && sign == "" && rest != [] ==> rest[0] != '+' && rest[0] != '-')
  {
    hide DigitsText, ReadDigits, NoDigit;
    var z;
    sign, z := SignOf(x[1..]);
    exp := DigitsOf(0, z);
    var rest := ReadDigits(0, z).1;
    HeadAndTail(x);
    Assoc(sign, DigitsText(exp), rest);
    Assoc([x[0]], sign + DigitsText(exp), rest);
    EmptyDigits(0, rest);
  }

  lemma ExpOf(x: string) returns (mark: string, sign: string, exp: seq<int>)
    ensures mark == "" || mark == "e" || mark == "E"
    ensures (sign == "" || sign == "+" || sign == "-") && (mark == "" ==> sign == "" && exp == [])
    ensures Digital(exp) && x == ExpText(mark, sign, exp) + ReadExponent(x).1
    ensures var rest := ReadExponent(x).1;
            if mark == "" then rest == x && (rest != [] ==> rest[0] != 'e' && rest[0] != 'E')
            else NoDigit(rest) && (exp == [] && sign == "" && rest != [] ==> rest[0] != '+' && rest[0] != '-')
  {
    hide NoDigit, ReadExponent;
    if At(x, 'e') || At(x, 'E') {
      mark := [x[0]];
      sign, exp := MarkOf(x);
    } else {
      mark, sign, exp := "", "", [];
      NoExponent(x);
    }
  }

  lemma FracOf(n: int, w: string) returns (frac: seq<int>)
    ensures Digital(frac) && w == FracText(frac) + ReadFraction(n, w).2
    ensures var x := ReadFraction(n, w).2;
            if frac == [] then x == w && (|x| > 1 ==> !(x[0] == '.' && IsDecimal(x[1]))) else NoDigit(x)
  {
    hide DigitsText, ReadDigits, IsDecimal;
    if |w| > 1 { DigitIs(w[1], 0); }
    if |w| > 1 && w[0] == '.' && IsDigit(w[1]) {
      frac := DigitsOf(n, w[1..]);
      assert w == "." + w[1..];
      Assoc(".", DigitsText(frac), ReadDigits(n, w[1..]).1);
    } else {
      frac := [];
    }
  }

  lemma WholeOf(zero: bool, u: string) returns (whole: seq<int>, n: int, w: string)
    requires At(u, '0') ==> zero
    ensures (if u != [] && '1' <= u[0] <= '9' then ReadDigits(0, u) else (0, u)) == (n, w)
    ensures Digital(whole) && (whole != [] ==> whole[0] != 0) && u == DigitsText(whole) + w
    ensures w != [] && IsDecimal(w[0]) ==> whole == [] && zero && w[0] == '0'
    ensures u != [] && IsDigit(u[0]) ==> zero || whole != []
  {
    hide DigitsText, ReadDigits, IsDecimal;
    EmptyDigits(0, u);
    if u != [] { DigitIs(u[0], 0); }
    if u != [] && '1' <= u[0] <= '9' {
      whole := DigitsOf(0, u);
      n, w := ReadDigits(0, u).0, ReadDigits(0, u).1;
      DigitIs(u[0], whole[0]);
    } else {
      whole, n, w := [], 0, u;
    }
  }

  lemma StopsThere(m: Numeral, w: string, x: string, rest: string)
    requires if m.mark == "" then rest == x && (rest != [] ==> rest[0] != 'e' && rest[0] != 'E')
             else NoDigit(rest) && (m.exp == [] && m.sign == "" && rest != [] ==> rest[0] != '+' && rest[0] != '-')
    requires if m.frac == [] then x == w && (|x| > 1 ==> !(x[0] == '.' && IsDecimal(x[1]))) else NoDigit(x)
    requires w != [] && IsDecimal(w[0]) ==> m.whole == [] && m.zero && w[0] == '0'
    ensures Stops(m, rest)
  {
    hide IsDecimal;
  }

  lemma Composed(m: Numeral, s: string, t: string, u: string, w: string, x: string, rest: string)
    requires FitsNumeral(m) && s == Optional(m.neg, '-') + t && t == Optional(m.zero, '0') + u
    requires u == DigitsText(m.whole) + w && w == FracText(m.frac) + x && x == ExpText(m.mark, m.sign, m.exp) + rest
    ensures s == NumeralText(m) + rest
  {
    hide DigitsText, FracText, ExpText, Optional, IsDecimal;
    Reassociate(Optional(m.neg, '-'), Optional(m.zero, '0'), DigitsText(m.whole), FracText(m.frac), ExpText(m.mark, m.sign, m.exp), rest);
  }

  lemma OptionalOf(s: string, c: char) returns (there: bool, t: string)
    ensures there == At(s, c) && s == Optional(there, c) + t && (if there then s[1..] == t else t == s)
  {
    there := At(s, c);
    t := if there then s[1..] else s;
  }

  lemma NumeralOf(s: string) returns (m: Numeral)
    requires At(s, '-') || (s != [] && IsDigit(s[0]))
    ensures FitsNumeral(m) && Stops(m, ParseNumber(s).1) && s == NumeralText(m) + ParseNumber(s).1
  {
    hide DigitsText, ReadDigits, IsDecimal, ReadFraction, ReadExponent, Scaled, ParseNumber, NoDigit, Stops, NumeralText, Optional, FracText, ExpText;
    var neg, t := OptionalOf(s, '-');
    var zero, u := OptionalOf(t, '0');
    var whole, n, w := WholeOf(zero, u);
    var frac := FracOf(n, w);
    var x := ReadFraction(n, w).2;
    var mark, sign, exp := ExpOf(x);
    var rest := ReadExponent(x).1;
    m := Numeral(neg, zero, whole, frac, mark, sign, exp);
    Assembled(s, t, u, n, w, ReadFraction(n, w).0, ReadFraction(n, w).1, x, ReadExponent(x).0, rest);
    StopsThere(m, w, x, rest);
    Composed(m, s, t, u, w, x, rest);
  }

  // ----- what is printed

  /** Section 7 of RFC 8259: the named escapes, and four lower-case digits for the other controls. */
  lemma EscapeIs(c: char)
    ensures forall k | k in NAMED :: Escape(NAMED[k] as char) == ['\\', k]
    ensures c in "\"\\" ==> Escape(c) == ['\\', c]
    ensures c as int < 32 && c as int !in NAMED.Values ==>
              Escape(c) == "\\u00" + [LOWER_DIGITS[c as int / 16], LOWER_DIGITS[c as int % 16]]
    ensures c as int >= 32 && c !in "\"\\" ==> Escape(c) == [c]
  {
    assert NAMED['b'] == 8 && NAMED['f'] == 12 && NAMED['n'] == 10 && NAMED['r'] == 13 && NAMED['t'] == 9;
    if c as int < 32 {
      LowerDigit(c as int / 16);
      LowerDigit(c as int % 16);
    }
  }

  lemma LowerDigit(d: int)
    requires 0 <= d < 16
    ensures HexDigit(d) == LOWER_DIGITS[d]
  {
    if d < 4 { assert d in {0, 1, 2, 3}; }
    else if d < 8 { assert d in {4, 5, 6, 7}; }
    else if d < 12 { assert d in {8, 9, 10, 11}; }
    else { assert d in {12, 13, 14, 15}; }
  }

  /** A number is printed in its decimal digits without leading zeros. */
  lemma {:induction false} DecimalOf(n: nat) returns (ds: seq<int>)
    ensures Digital(ds) && Decimal(n) == DigitsText(ds) && Reads(0, ds) == n && (|ds| > 1 ==> ds[0] != 0)
  {
    hide DigitsText, Reads, ReadDigits, Decimal, DigitChar;
    DecimalShape(n);
    DecimalReads(n);
    ReadDigitsSplit(0, Decimal(n), "");
    assert Decimal(n) + "" == Decimal(n);
    ds := DigitsOf(0, Decimal(n));
    assert DigitsText(ds) + "" == DigitsText(ds);
    DigitsAreRead(0, ds, "");
    if ds != [] {
      DigitIs(Decimal(n)[0], ds[0]);
      if n == 0 { assert |ds| == |DigitsText(ds)| == 1; }
    }
  }
}
