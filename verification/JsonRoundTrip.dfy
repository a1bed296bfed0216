/** Parsing what was printed gives the value back, in both formats. */
module JsonRoundTrip {
  import opened JsonText

  // ----- strings

  lemma UnicodeEscapeDecodes(c: char, b: string)
    requires 0 < c as int < 32
    ensures Decode(['\\', 'u', '0', '0', HexDigit(c as int / 16), HexDigit(c as int % 16)] + b) == Onto([c], Decode(b))
  {
    var e := ['\\', 'u', '0', '0', HexDigit(c as int / 16), HexDigit(c as int % 16)];
    assert (e + b)[2..] == e[2..] + b && (e + b)[6..] == b;
    assert Hex4(e[2..] + b) == c as int;
    assert Utf8(c as int) == [c];
  }

  lemma PlainDecodes(c: char, b: string)
    requires c != '\\'
    ensures Decode([c] + b) == Onto([c], Decode(b))
  {
    assert ([c] + b)[1..] == b;
  }

  /** A backslash and the letter k, for the byte c. */
  lemma LetterDecodes(c: char, k: char, b: string)
    requires Escape(c) == ['\\', k]
    ensures Decode(['\\', k] + b) == Onto([c], Decode(b))
  {
    var t := ['\\', k] + b;
    assert t[0] == '\\' && t[1] == k && t[2..] == b;
    hide Utf8, Hex4;
  }

  lemma EscapeDecodes(c: char, b: string)
    requires 0 < c as int < 256
    ensures Decode(Escape(c) + b) == Onto([c], Decode(b))
  {
    hide Decode;
    var e := Escape(c);
    if |e| == 1 {
      PlainDecodes(c, b);
    } else if |e| == 2 {
      assert e == ['\\', e[1]];
      LetterDecodes(c, e[1], b);
    } else {
      UnicodeEscapeDecodes(c, b);
    }
  }

  lemma DecodeNone()
    ensures Decode([]) == Text([])
  {
  }

  lemma {:induction false} EscapedDecodes(s: string)
    requires CString(s)
    ensures Decode(Escaped(s)) == Text(s)
    decreases |s|
  {
    hide Decode, Escape;
    if s == [] {
      assert Escaped(s) == [] && Decode([]) == Text([]) by { DecodeNone(); }
    } else {
      EscapedDecodes(s[1..]);
      EscapeDecodes(s[0], Escaped(s[1..]));
      assert [s[0]] + s[1..] == s;
    }
  }

  /** A byte alone, or a backslash, a letter and bytes that mean nothing in a string. */
  lemma EscapeShape(c: char)
    ensures var e := Escape(c);
            if |e| == 1 then e[0] != '\"' && e[0] != '\\'
            else |e| >= 2 && e[0] == '\\' && '\"' !in e[2..] && '\\' !in e[2..]
  {
  }

  lemma PlainLength(c: char, b: string)
    requires c != '\"' && c != '\\'
    ensures BodyLength([c] + b) == if BodyLength(b) < 0 then -1 else 1 + BodyLength(b)
  {
    assert ([c] + b)[1..] == b;
  }

  lemma {:induction false} PlainsLength(t: string, b: string)
    requires '\"' !in t && '\\' !in t
    ensures BodyLength(t + b) == if BodyLength(b) < 0 then -1 else |t| + BodyLength(b)
    decreases |t|
  {
    hide BodyLength;
    if t == [] {
      assert t + b == b;
    } else {
      assert t + b == [t[0]] + (t[1..] + b);
      PlainLength(t[0], t[1..] + b);
      PlainsLength(t[1..], b);
    }
  }

  lemma PairLength(c: char, b: string)
    ensures BodyLength(['\\', c] + b) == if BodyLength(b) < 0 then -1 else 2 + BodyLength(b)
  {
    assert (['\\', c] + b)[2..] == b;
  }

  lemma EscapeLength(c: char, b: string)
    requires 0 < c as int < 256
    ensures BodyLength(Escape(c) + b) == if BodyLength(b) < 0 then -1 else |Escape(c)| + BodyLength(b)
  {
    hide Escape, BodyLength;
    var e := Escape(c);
    EscapeShape(c);
    if |e| == 1 {
      assert e == [e[0]];
      PlainLength(e[0], b);
    } else {
      assert e + b == ['\\', e[1]] + (e[2..] + b);
      PairLength(e[1], e[2..] + b);
      PlainsLength(e[2..], b);
    }
  }

  lemma {:induction false} EscapedLength(s: string, rest: string)
    requires CString(s)
    ensures BodyLength(Escaped(s) + ['\"'] + rest) == |Escaped(s)|
    decreases |s|
  {
    var tail := ['\"'] + rest;
    if s == [] {
      assert [] + ['\"'] + rest == tail;
    } else {
      EscapedLength(s[1..], rest);
      EscapeLength(s[0], Escaped(s[1..]) + ['\"'] + rest);
      assert Escaped(s) + ['\"'] + rest == Escape(s[0]) + (Escaped(s[1..]) + ['\"'] + rest);
    }
  }

  /** Any C string survives being printed and parsed. */
  lemma StringRoundTrip(s: string, rest: string)
    requires CString(s)
    ensures ParseStr(PrintStr(s) + rest) == Got(s, rest)
  {
    var t := PrintStr(s) + rest;
    var e := Escaped(s);
    assert t[1..] == e + ['\"'] + rest;
    EscapedLength(s, rest);
    EscapedDecodes(s);
    assert t[1..1 + |e|] == e;
    assert t[1 + |e|..] == ['\"'] + rest;
    assert (['\"'] + rest)[1..] == rest;
  }

  // ----- numbers

  /** What may follow a printed value: the end, or a byte that cannot prolong a number. */
  predicate Delimited(rest: string) {
    rest == [] || !(IsDigit(rest[0]) || rest[0] == '.' || rest[0] == 'e' || rest[0] == 'E')
  }

  lemma {:induction false} DecimalShape(n: nat)
    ensures Decimal(n) != [] && forall i :: 0 <= i < |Decimal(n)| ==> IsDigit(Decimal(n)[i])
    ensures n > 0 ==> Decimal(n)[0] != '0'
    ensures n == 0 ==> Decimal(n) == ['0']
    decreases n
  {
    if n >= 10 { DecimalShape(n / 10); }
  }

  lemma {:induction false} ReadDigitsSplit(n: int, a: string, rest: string)
    requires forall i :: 0 <= i < |a| ==> IsDigit(a[i])
    requires rest == [] || !IsDigit(rest[0])
    ensures ReadDigits(n, a + rest) == (ReadDigits(n, a).0, rest)
    decreases |a|
  {
    if a == [] {
      assert a + rest == rest;
    } else {
      assert (a + rest)[1..] == a[1..] + rest;
      ReadDigitsSplit(n * 10 + (a[0] as int - '0' as int), a[1..], rest);
    }
  }

  lemma {:induction false} ReadDigitsSnoc(n: int, a: string, c: char)
    requires IsDigit(c) && forall i :: 0 <= i < |a| ==> IsDigit(a[i])
    ensures ReadDigits(n, a + [c]).0 == ReadDigits(n, a).0 * 10 + (c as int - '0' as int)
    decreases |a|
  {
    if a == [] {
      assert a + [c] == [c] && [c][1..] == [];
    } else {
      assert (a + [c])[1..] == a[1..] + [c];
      ReadDigitsSnoc(n * 10 + (a[0] as int - '0' as int), a[1..], c);
    }
  }

  lemma {:induction false} DecimalReads(n: nat)
    ensures ReadDigits(0, Decimal(n)).0 == n
    decreases n
  {
    DecimalShape(n);
    if n < 10 {
      assert [Digit(n)][1..] == [];
    } else {
      DecimalReads(n / 10);
      DecimalShape(n / 10);
      ReadDigitsSnoc(0, Decimal(n / 10), Digit(n % 10));
    }
  }

  /** The digits of a whole number are taken up to what delimits them. */
  lemma WholeReads(m: nat, rest: string)
    requires Delimited(rest)
    ensures var t := Decimal(m) + rest;
            && t != [] && IsDigit(t[0])
            && var u := if At(t, '0') then t[1..] else t;
               (if u != [] && '1' <= u[0] <= '9' then ReadDigits(0, u) else (0, u)) == (m, rest)
  {
    hide Decimal, ReadDigits;
    var d := Decimal(m);
    DecimalShape(m);
    DecimalReads(m);
    ReadDigitsSplit(0, d, rest);
    if m == 0 { assert (['0'] + rest)[1..] == rest; }
  }

  lemma NothingBehind(n: int, rest: string)
    requires Delimited(rest)
    ensures ReadFraction(n, rest) == (n, 0, rest) && ReadExponent(rest) == (0, rest) && Scaled(n, 0) == n as real
  {
  }

  lemma NumberRoundTrip(n: int, rest: string)
    requires Delimited(rest)
    ensures var t := PrintNumber(n) + rest;
            (At(t, '-') || (t != [] && IsDigit(t[0]))) && ParseNumber(t) == (n as real, rest)
  {
    hide Decimal, ReadDigits, ReadFraction, ReadExponent, Scaled;
    var m: nat := if n < 0 then -n else n;
    var t := PrintNumber(n) + rest;
    assert t == if n < 0 then ['-'] + (Decimal(m) + rest) else Decimal(m) + rest;
    WholeReads(m, rest);
    NothingBehind(m, rest);
    NothingBehind(n, rest);
  }

  /** The value of the digits b behind a point. */
  function Behind(b: string): real {
    if b == [] then 0.0 else ((b[0] as int - '0' as int) as real + Behind(b[1..])) / 10.0
  }

  predicate Digits(b: string) { forall i :: 0 <= i < |b| ==> IsDigit(b[i]) }

  lemma OneMoreTen(k: int)
    ensures Pow10(k) == 10.0 * Pow10(k - 1)
  {
  }

  lemma Shift(n: int, d: int, f: real, p: real)
    ensures ((n * 10 + d) as real + f) * p == (n as real + (d as real + f) / 10.0) * (10.0 * p)
  {
    var x := n as real + (d as real + f) / 10.0;
    assert (n * 10 + d) as real + f == 10.0 * x;
    assert (10.0 * x) * p == x * (10.0 * p);
  }

  lemma ScaledIs(n: int, e: int)
    ensures Scaled(n, e) == n as real * Pow10(e) && Scaled(-n, e) == -Scaled(n, e)
  {
  }

  /** Digits that are read onto n and scaled down by their number mean n, a point and the digits. */
  lemma {:induction false} FractionMeans(n: int, b: string, k: int)
    requires Digits(b)
    ensures Scaled(ReadDigits(n, b).0, k - |b|) == (n as real + Behind(b)) * Pow10(k)
    decreases |b|
  {
    hide Scaled, Pow10;
    if b == [] {
      ScaledIs(n, k);
      assert n as real + Behind(b) == n as real;
    } else {
      var d := b[0] as int - '0' as int;
      FractionMeans(n * 10 + d, b[1..], k - 1);
      OneMoreTen(k);
      Shift(n, d, Behind(b[1..]), Pow10(k - 1));
    }
  }

  lemma {:induction false} ExponentReads(k: int, rest: string)
    requires rest == [] || !IsDigit(rest[0])
    ensures ReadExponent("e" + (PrintNumber(k) + rest)) == (k, rest)
  {
    hide Decimal, ReadDigits;
    var m: nat := if k < 0 then -k else k;
    DecimalShape(m);
    DecimalReads(m);
    ReadDigitsSplit(0, Decimal(m), rest);
    var y := PrintNumber(k) + rest;
    assert ("e" + y)[1..] == y;
    if k < 0 { assert y[1..] == Decimal(m) + rest; } else { assert y == Decimal(m) + rest && IsDigit(y[0]); }
  }

  lemma {:induction false} FractionReads(n: int, b: string, rest: string)
    requires b != [] && Digits(b) && (rest == [] || !IsDigit(rest[0]))
    ensures ReadFraction(n, "." + (b + rest)) == (ReadDigits(n, b).0, -|b|, rest)
  {
    hide ReadDigits;
    var w := "." + (b + rest);
    assert w[1..] == b + rest && w[1] == b[0];
    ReadDigitsSplit(n, b, rest);
  }

  /** A literal with sign, point and exponent is read as the number it stands for. */
  lemma LiteralReads(neg: bool, n: nat, b: string, k: int, rest: string)
    requires b != [] && Digits(b) && (rest == [] || !IsDigit(rest[0]))
    ensures var t := (if neg then "-" else "") + (Decimal(n) + ("." + (b + ("e" + (PrintNumber(k) + rest)))));
            && (At(t, '-') || (t != [] && IsDigit(t[0])))
            && var d := (n as real + Behind(b)) * Pow10(k); ParseNumber(t) == (if neg then -d else d, rest)
  {
    hide Decimal, ReadDigits, ReadFraction, ReadExponent, Scaled, Pow10, PrintNumber, Behind;
    var x := "e" + (PrintNumber(k) + rest);
    var w := "." + (b + x);
    var u := Decimal(n) + w;
    var t := (if neg then "-" else "") + u;
    DecimalShape(n);
    DecimalReads(n);
    ReadDigitsSplit(0, Decimal(n), w);
    FractionReads(n, b, x);
    ExponentReads(k, rest);
    FractionMeans(n, b, k);
    ScaledIs(ReadDigits(n, b).0, k - |b|);
    assert u[0] == Decimal(n)[0];
    if neg { assert t[1..] == u; } else { assert t == u; }
    if n == 0 { assert u[1..] == w; }
    var m := ReadDigits(n, b).0;
    assert ParseNumber(t).1 == rest;
    assert ParseNumber(t).0 == Scaled(if neg then -m else m, k - |b|);
  }

  // ----- blanks

  predicate Blank(w: string) { forall i :: 0 <= i < |w| ==> w[i] <= ' ' }

  /** Starts with something that is neither blank nor a closing bracket. */
  predicate Solid(s: string) { s != [] && s[0] > ' ' && s[0] != ']' && s[0] != '}' }

  lemma {:induction false} SkipDrops(w: string, x: string)
    requires Blank(w) && (x != [] ==> x[0] > ' ')
    ensures Skip(w + x) == x
    decreases |w|
  {
    if w == [] {
      assert w + x == x;
    } else {
      assert (w + x)[1..] == w[1..] + x;
      SkipDrops(w[1..], x);
    }
  }

  // ----- values

  lemma {:induction false} PrintIsSolid(v: Json, depth: nat, fmt: bool)
    ensures Solid(PrintValue(v, depth, fmt))
  {
    if v.Number? {
      var m: nat := if v.d.Floor < 0 then -v.d.Floor else v.d.Floor;
      DecimalShape(m);
    }
  }

  // how ParseValue reads each kind of text

  lemma WordParses(rest: string)
    ensures ParseValue("null" + rest) == Got(Null, rest)
    ensures ParseValue("false" + rest) == Got(False, rest)
    ensures ParseValue("true" + rest) == Got(True, rest)
  {
    assert ("null" + rest)[..4] == "null" && ("null" + rest)[4..] == rest;
    assert ("false" + rest)[..5] == "false" && ("false" + rest)[5..] == rest;
    assert ("true" + rest)[..4] == "true" && ("true" + rest)[4..] == rest;
    assert ("false" + rest)[..4][0] == 'f' && ("true" + rest)[..4][0] == 't';
    assert |"true" + rest| >= 5 ==> ("true" + rest)[..5][0] == 't';
  }

  lemma NoWord(t: string)
    requires t != [] && t[0] != 'n' && t[0] != 'f' && t[0] != 't'
    ensures !StartsWith(t, "null") && !StartsWith(t, "false") && !StartsWith(t, "true")
  {
    if |t| >= 4 { assert t[..4][0] == t[0]; }
    if |t| >= 5 { assert t[..5][0] == t[0]; }
  }

  lemma ArrayParses(t: string, u: string)
    requires At(t, '[') && Skip(t[1..]) == u
    ensures At(u, ']') ==> ParseValue(t) == Got(Array(NoElem), u[1..])
    ensures var r := ParseElems(u);
            !At(u, ']') && r.Got? ==> ParseValue(t) == Got(Array(r.value), r.rest)
  {
    hide ParseElems, ParseMembers, StartsWith, ParseNumber, ParseStr;
    NoWord(t);
  }

  lemma ObjectParses(t: string, u: string)
    requires At(t, '{') && Skip(t[1..]) == u
    ensures At(u, '}') ==> ParseValue(t) == Got(Object(NoMember), u[1..])
    ensures var r := ParseMembers(u);
            !At(u, '}') && r.Got? ==> ParseValue(t) == Got(Object(r.value), r.rest)
  {
    hide ParseElems, ParseMembers, StartsWith, ParseNumber, ParseStr;
    NoWord(t);
  }

  lemma StringParses(t: string)
    requires At(t, '\"') && ParseStr(t).Got?
    ensures ParseValue(t) == Got(Str(ParseStr(t).value), ParseStr(t).rest)
  {
    NoWord(t);
  }

  lemma NumberParses(t: string)
    requires At(t, '-') || (t != [] && IsDigit(t[0]))
    ensures ParseValue(t) == Got(Number(ParseNumber(t).0), ParseNumber(t).1)
  {
    NoWord(t);
  }

  lemma ElemParses(s: string, v: Json, after: string, last: bool)
    requires ParseValue(s) == Got(v, after) && At(after, if last then ']' else ',')
    ensures last ==> ParseElems(s) == Got(Elem(v, NoElem), after[1..])
    ensures var r := ParseElems(Skip(after[1..]));
            !last && r.Got? ==> ParseElems(s) == Got(Elem(v, r.value), r.rest)
  {
    hide ParseValue;
    SkipDrops("", after);
    assert "" + after == after;
  }

  lemma MemberParses(s: string, name: string, afterName: string, v: Json, after: string, u: string, last: bool)
    requires ParseStr(s) == Got(name, afterName) && At(afterName, ':')
    requires ParseValue(Skip(afterName[1..])) == Got(v, after) && Skip(after) == u && At(u, if last then '}' else ',')
    ensures last ==> ParseMembers(s) == Got(Member(name, v, NoMember), u[1..])
    ensures var r := ParseMembers(Skip(u[1..]));
            !last && r.Got? ==> ParseMembers(s) == Got(Member(name, v, r.value), r.rest)
  {
    hide ParseValue, ParseStr;
    SkipDrops("", afterName);
    assert "" + afterName == afterName;
  }

  // every kind of value comes back, whatever delimited text follows it

  lemma {:induction false} ValueRoundTrip(v: Json, depth: nat, fmt: bool, rest: string)
    requires Storable(v) && Delimited(rest)
    ensures ParseValue(PrintValue(v, depth, fmt) + rest) == Got(v, rest)
    decreases v
  {
    hide ParseValue, Skip, ParseStr, ParseNumber;
    match v {
      case Null => WordParses(rest);
      case False => WordParses(rest);
      case True => WordParses(rest);
      case Number(d) =>
        NumberRoundTrip(d.Floor, rest);
        NumberParses(PrintNumber(d.Floor) + rest);
      case Str(s) =>
        StringRoundTrip(s, rest);
        StringParses(PrintStr(s) + rest);
      case Array(es) =>
        var t := PrintValue(v, depth, fmt) + rest;
        if es.NoElem? {
          assert t[1..] == "]" + rest && ("]" + rest)[1..] == rest && "" + t[1..] == t[1..];
          SkipDrops("", t[1..]);
          ArrayParses(t, t[1..]);
        } else {
          var body := PrintElems(es, depth + 1, fmt) + ("]" + rest);
          PrintIsSolid(es.value, depth + 1, fmt);
          ElemsRoundTrip(es, depth + 1, fmt, rest);
          ArrayText(PrintElems(es, depth + 1, fmt), rest);
          assert "" + body == body;
          SkipDrops("", body);
          ArrayParses(t, body);
        }
      case Object(ms) =>
        ObjectRoundTrip(ms, depth, fmt, rest);
    }
  }

  lemma ArrayText(a: string, rest: string)
    ensures (("[" + (a + "]")) + rest)[1..] == a + ("]" + rest)
  {
  }

  lemma {:induction false} ElemsRoundTrip(es: Elems, depth: nat, fmt: bool, rest: string)
    requires es.Elem? && StorableElems(es)
    ensures ParseElems(PrintElems(es, depth, fmt) + ("]" + rest)) == Got(es, rest)
    decreases es
  {
    hide ParseElems, ParseValue, Skip, PrintValue;
    var p, end := PrintValue(es.value, depth, fmt), "]" + rest;
    assert end[1..] == rest;
    hide ParseElems, ParseValue, Skip, PrintValue;
    if es.next.NoElem? {
      assert p + "" == p;
      ValueRoundTrip(es.value, depth, fmt, end);
      ElemParses(p + end, es.value, end, true);
    } else {
      var gap, q := ElemGap(fmt), PrintElems(es.next, depth, fmt);
      var after := gap + (q + end);
      Assoc(p, gap + q, end);
      Assoc(gap, q, end);
      ValueRoundTrip(es.value, depth, fmt, after);
      PrintIsSolid(es.next.value, depth, fmt);
      assert after[1..] == gap[1..] + (q + end);
      hide PrintElems;
      SkipDrops(gap[1..], q + end);
      ElemsRoundTrip(es.next, depth, fmt, rest);
      ElemParses(p + after, es.value, after, false);
    }
  }

  lemma {:induction false} ObjectRoundTrip(ms: Members, depth: nat, fmt: bool, rest: string)
    requires StorableMembers(ms)
    ensures ParseValue(PrintValue(Object(ms), depth, fmt) + rest) == Got(Object(ms), rest)
    decreases ms, 1
  {
    hide ParseValue, ParseMembers, Skip;
    var t := PrintValue(Object(ms), depth, fmt) + rest;
    if ms.NoMember? {
      var w := OpenGap(fmt) + Indent(depth, fmt);
      assert t[1..] == w + ("}" + rest) && ("}" + rest)[1..] == rest;
      SkipDrops(w, "}" + rest);
      ObjectParses(t, "}" + rest);
    } else {
      var w := OpenGap(fmt) + Indent(depth + 1, fmt);
      var body := MembersText(ms, depth + 1, fmt) + (Indent(depth, fmt) + ("}" + rest));
      MembersRoundTrip(ms, depth + 1, fmt, Indent(depth, fmt), rest);
      OpenedText(ms, depth, fmt, rest);
      SkipDrops(w, body);
      ObjectParses(t, body);
    }
  }

  lemma StartsWithQuote(ms: Members, depth: nat, fmt: bool, x: string)
    requires ms.Member?
    ensures At(MembersText(ms, depth, fmt) + x, '\"')
  {
  }

  lemma OpenedText(ms: Members, depth: nat, fmt: bool, rest: string)
    requires ms.Member?
    ensures var t := PrintValue(Object(ms), depth, fmt) + rest;
            var body := MembersText(ms, depth + 1, fmt) + (Indent(depth, fmt) + ("}" + rest));
            At(t, '{') && t[1..] == (OpenGap(fmt) + Indent(depth + 1, fmt)) + body && At(body, '\"')
  {
    var a, b, c, d := OpenGap(fmt), Indent(depth + 1, fmt), MembersText(ms, depth + 1, fmt), Indent(depth, fmt);
    StartsWithQuote(ms, depth + 1, fmt, d + ("}" + rest));
    assert PrintValue(Object(ms), depth, fmt) == "{" + (a + ((b + c) + d) + "}");
    hide MembersText, PrintMembers, PrintValue;
    Opens(a, b, c, d, rest);
  }

  lemma Opens(a: string, b: string, c: string, d: string, rest: string)
    ensures ("{" + (a + ((b + c) + d) + "}") + rest)[1..] == (a + b) + (c + (d + ("}" + rest)))
  {
    var t := "{" + (a + ((b + c) + d) + "}") + rest;
    assert t[1..] == a + ((b + c) + d) + "}" + rest;
  }

  lemma Reassociate(a: string, b: string, c: string, d: string, e: string, x: string)
    ensures (a + (b + (c + (d + e)))) + x == a + (b + (c + (d + (e + x))))
  {
    Assoc(a, b + (c + (d + e)), x);
    Assoc(b, c + (d + e), x);
    Assoc(c, d + e, x);
    Assoc(d, e, x);
  }

  lemma {:induction false} MembersRoundTrip(ms: Members, depth: nat, fmt: bool, w: string, rest: string)
    requires ms.Member? && StorableMembers(ms) && Blank(w)
    ensures ParseMembers(MembersText(ms, depth, fmt) + (w + ("}" + rest))) == Got(ms, rest)
    decreases ms, 0
  {
    hide ParseMembers, ParseValue, PrintStr, Skip;
    var end := w + ("}" + rest);
    var p := PrintValue(ms.value, depth, fmt);
    var more := if ms.next.Member? then PrintMembers(ms.next, depth, fmt) else "";
    var gap := MemberGap(ms.next.Member?, fmt);
    var after := gap + (more + end);
    Reassociate(PrintStr(ms.name), NameGap(fmt), p, gap, more, end);
    PrintIsSolid(ms.value, depth, fmt);
    ValueRoundTrip(ms.value, depth, fmt, after);
    if ms.next.NoMember? {
      assert more + end == end;
      Assoc(gap, w, "}" + rest);
      LastMember(ms.name, NameGap(fmt), p, ms.value, after, gap + w, rest);
    } else {
      NextMember(ms.next, depth, fmt, w, rest, after);
      MembersRoundTrip(ms.next, depth, fmt, w, rest);
      InnerMember(ms.name, NameGap(fmt), p, ms.value, after, MembersText(ms.next, depth, fmt) + end, ms.next, rest);
    }
  }

  /** A member's name and value are read off the front of its text. */
  lemma HeadParses(name: string, gap: string, p: string, v: Json, after: string)
    requires CString(name) && (gap == ":" || gap == ":\t") && Solid(p) && ParseValue(p + after) == Got(v, after)
    ensures var afterName := gap + (p + after);
            && ParseStr(PrintStr(name) + afterName) == Got(name, afterName) && At(afterName, ':')
            && ParseValue(Skip(afterName[1..])) == Got(v, after)
  {
    hide ParseValue, ParseStr, PrintStr, Skip;
    var afterName := gap + (p + after);
    StringRoundTrip(name, afterName);
    assert afterName[1..] == gap[1..] + (p + after);
    SkipDrops(gap[1..], p + after);
  }

  lemma LastMember(name: string, gap: string, p: string, v: Json, after: string, w: string, rest: string)
    requires CString(name) && (gap == ":" || gap == ":\t") && Solid(p) && ParseValue(p + after) == Got(v, after)
    requires Blank(w) && after == w + ("}" + rest)
    ensures ParseMembers(PrintStr(name) + (gap + (p + after))) == Got(Member(name, v, NoMember), rest)
  {
    hide ParseMembers, ParseValue, ParseStr, PrintStr, Skip;
    HeadParses(name, gap, p, v, after);
    var end := "}" + rest;
    assert end[1..] == rest;
    SkipDrops(w, end);
    MemberParses(PrintStr(name) + (gap + (p + after)), name, gap + (p + after), v, after, end, true);
  }

  lemma InnerMember(name: string, gap: string, p: string, v: Json, after: string, body: string, ms: Members, rest: string)
    requires CString(name) && (gap == ":" || gap == ":\t") && Solid(p) && ParseValue(p + after) == Got(v, after)
    requires At(after, ',') && Skip(after) == after && Skip(after[1..]) == body && ParseMembers(body) == Got(ms, rest)
    ensures ParseMembers(PrintStr(name) + (gap + (p + after))) == Got(Member(name, v, ms), rest)
  {
    hide ParseMembers, ParseValue, ParseStr, PrintStr, Skip;
    HeadParses(name, gap, p, v, after);
    MemberParses(PrintStr(name) + (gap + (p + after)), name, gap + (p + after), v, after, after, false);
  }

  /** The gap between two members is blank apart from its comma. */
  lemma NextMember(next: Members, depth: nat, fmt: bool, w: string, rest: string, after: string)
    requires next.Member? && after == MemberGap(true, fmt) + (PrintMembers(next, depth, fmt) + (w + ("}" + rest)))
    ensures At(after, ',') && Skip(after) == after
    ensures Skip(after[1..]) == MembersText(next, depth, fmt) + (w + ("}" + rest))
  {
    var body := MembersText(next, depth, fmt) + (w + ("}" + rest));
    var gap := MemberGap(true, fmt)[1..] + Indent(depth, fmt);
    StartsWithQuote(next, depth, fmt, w + ("}" + rest));
    assert PrintMembers(next, depth, fmt) == Indent(depth, fmt) + MembersText(next, depth, fmt);
    hide MembersText, PrintMembers, Skip;
    Assoc(Indent(depth, fmt), MembersText(next, depth, fmt), w + ("}" + rest));
    Assoc(MemberGap(true, fmt), Indent(depth, fmt), body);
    assert after[1..] == gap + body;
    SkipDrops("", after);
    assert "" + after == after;
    SkipDrops(gap, body);
  }

  /** cJSON_Parse undoes cJSON_Print and cJSON_PrintUnformatted, and finds nothing left over. */
  lemma TextRoundTrip(v: Json, fmt: bool, requireEnd: bool)
    requires Storable(v)
    ensures Parse(PrintValue(v, 0, fmt), requireEnd) == Got(v, "")
  {
    var t := PrintValue(v, 0, fmt);
    PrintIsSolid(v, 0, fmt);
    SkipDrops("", t);
    assert t + "" == t;
    ValueRoundTrip(v, 0, fmt, "");
  }
}
