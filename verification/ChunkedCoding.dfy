/** The sender's side: bodies as section 4.1 of RFC 7230 writes them, and what the machine makes of
    them. */
module ChunkedCoding {
  import opened ChunkedSpec

  /** Text without a line end, and the line end: a line feed, with or without a carriage return before it. */
  datatype Line = Line(text: seq<Byte>, end: seq<Byte>)

  datatype Chunk = Chunk(digits: seq<Byte>, ext: Line, data: seq<Byte>, behind: Line)

  datatype Body = Body(chunks: seq<Chunk>, zeros: seq<Byte>, lastExt: Line, trailers: seq<Line>, end: seq<Byte>)

  const LOWER_DIGITS := "0123456789abcdef"
  const UPPER_DIGITS := "0123456789ABCDEF"

  /** text writes n in hexadecimal digits of either case, with any number of leading zeros. */
  predicate Numeral(text: seq<Byte>, n: nat)
    decreases |text|
  {
    && text != [] && text[|text| - 1] in {LOWER_DIGITS[n % 16] as int, UPPER_DIGITS[n % 16] as int}
    && if |text| == 1 then n < 16 else Numeral(text[..|text| - 1], n / 16)
  }

  predicate NoLineEnd(s: seq<Byte>) { forall i :: 0 <= i < |s| ==> s[i] != 13 && s[i] != 10 }

  predicate LineEnd(s: seq<Byte>) { s == [10] || s == [13, 10] }

  predicate ALine(l: Line) { NoLineEnd(l.text) && LineEnd(l.end) }

  predicate Extension(l: Line) { ALine(l) && (l.text != [] ==> l.text[0] in {';' as int, ' ' as int, '\t' as int}) }

  predicate WellFormedChunk(k: Chunk) {
    && 1 <= |k.data| <= 0x7ff_ffff_ffff_ffff && Numeral(k.digits, |k.data|)
    && Extension(k.ext) && ALine(k.behind)
  }

  /** What section 4.1 of RFC 7230 writes, and more: a bare line feed for a line end, and bytes between the data of
      a chunk and the next line end. */
  predicate WellFormed(b: Body) {
    && (forall i :: 0 <= i < |b.chunks| ==> WellFormedChunk(b.chunks[i]))
    && Numeral(b.zeros, 0) && Extension(b.lastExt)
    && (forall i :: 0 <= i < |b.trailers| ==> b.trailers[i].text != [] && ALine(b.trailers[i])) && LineEnd(b.end)
  }

  function EncodeLine(l: Line): seq<Byte> { l.text + l.end }

  function EncodeChunk(k: Chunk): seq<Byte> { k.digits + (EncodeLine(k.ext) + (k.data + EncodeLine(k.behind))) }

  function EncodeChunks(ks: seq<Chunk>): seq<Byte> {
    if ks == [] then [] else EncodeChunk(ks[0]) + EncodeChunks(ks[1..])
  }

  function EncodeTrailers(ts: seq<Line>, end: seq<Byte>): seq<Byte> {
    if ts == [] then end else EncodeLine(ts[0]) + EncodeTrailers(ts[1..], end)
  }

  function EncodeLast(b: Body): seq<Byte> { b.zeros + (EncodeLine(b.lastExt) + EncodeTrailers(b.trailers, b.end)) }

  function Encode(b: Body): seq<Byte> { EncodeChunks(b.chunks) + EncodeLast(b) }

  function DataOf(ks: seq<Chunk>): seq<Byte> {
    if ks == [] then [] else ks[0].data + DataOf(ks[1..])
  }

  // ----- what the machine makes of digits

  function ValueFrom(v: int, digits: seq<Byte>): int
    decreases |digits|
  {
    if digits == [] then v else ValueFrom(v * 16 + HexValue(digits[0]), digits[1..])
  }

  predicate HexDigits(s: seq<Byte>) { s != [] && forall i :: 0 <= i < |s| ==> HexValue(s[i]) >= 0 }

  lemma DigitIs(d: nat)
    requires d < 16
    ensures LOWER_DIGITS[d] as int == (if d < 10 then '0' as int + d else 'a' as int + d - 10)
    ensures UPPER_DIGITS[d] as int == (if d < 10 then '0' as int + d else 'A' as int + d - 10)
  {
    if d < 4 { assert d in {0, 1, 2, 3}; }
    else if d < 8 { assert d in {4, 5, 6, 7}; }
    else if d < 12 { assert d in {8, 9, 10, 11}; }
    else { assert d in {12, 13, 14, 15}; }
  }

  /** A digit has its place in the alphabet of its case for a value, and no other byte has one. */
  lemma HexValueIs(ch: Byte)
    ensures -1 <= HexValue(ch) < 16
    ensures forall d: nat | d < 16 :: HexValue(ch) == d <==> ch in {LOWER_DIGITS[d] as int, UPPER_DIGITS[d] as int}
  {
    forall d: nat | d < 16 ensures HexValue(ch) == d <==> ch in {LOWER_DIGITS[d] as int, UPPER_DIGITS[d] as int} {
      DigitIs(d);
    }
  }

  lemma {:induction false} ValueSnoc(v: int, a: seq<Byte>, d: Byte)
    ensures ValueFrom(v, a + [d]) == ValueFrom(v, a) * 16 + HexValue(d)
    decreases |a|
  {
    hide HexValue;
    if a == [] {
      assert a + [d] == [d] && [d][1..] == [];
    } else {
      assert (a + [d])[1..] == a[1..] + [d];
      ValueSnoc(v * 16 + HexValue(a[0]), a[1..], d);
    }
  }

  /** Digits are read as the number that they write. */
  lemma {:induction false} NumeralIsRead(text: seq<Byte>, n: nat)
    ensures Numeral(text, n) <==> HexDigits(text) && ValueFrom(0, text) == n
    decreases |text|
  {
    hide HexValue;
    if text != [] {
      var a, d := text[..|text| - 1], text[|text| - 1];
      assert text == a + [d];
      HexValueIs(d);
      ValueSnoc(0, a, d);
      if a == [] {
        assert ValueFrom(0, text) == HexValue(d);
      } else {
        NumeralIsRead(a, n / 16);
        assert HexDigits(text) <==> HexDigits(a) && HexValue(d) >= 0;
        if HexDigits(text) && ValueFrom(0, text) == n { ValueGrows(0, a); }
      }
    }
  }

  /** a takes c to d, and contains exactly the data p. */
  predicate Leads(c: Config, a: seq<Byte>, d: Config, p: seq<Byte>) {
    Run(c, a) == Going(d) && Payload(c, a) == p
  }

  lemma Then(c: Config, a: seq<Byte>, d: Config, p: seq<Byte>, b: seq<Byte>)
    requires Leads(c, a, d, p)
    ensures Run(c, a + b) == Later(Run(d, b), |a|) && Payload(c, a + b) == p + Payload(d, b)
  {
    RunSplits(c, a, b);
    PayloadSplits(c, a, b);
  }

  lemma One(c: Config, ch: Byte)
    requires Step(c, ch).Go?
    ensures Leads(c, [ch], Step(c, ch).c, if c.state == ChunkData then [ch] else [])
  {
    assert [ch][1..] == [];
  }

  lemma {:induction false} ValueGrows(v: int, digits: seq<Byte>)
    requires v >= 0 && forall i :: 0 <= i < |digits| ==> HexValue(digits[i]) >= 0
    ensures ValueFrom(v, digits) >= v
    decreases |digits|
  {
    if digits != [] { ValueGrows(v * 16 + HexValue(digits[0]), digits[1..]); }
  }

  lemma {:induction false} DigitsLead(v: int, digits: seq<Byte>)
    requires 0 <= v && forall i :: 0 <= i < |digits| ==> HexValue(digits[i]) >= 0
    requires ValueFrom(v, digits) <= MAX_OFF_T / 16
    ensures Leads(Config(ChunkSize, v), digits, Config(ChunkSize, ValueFrom(v, digits)), [])
    decreases |digits|
  {
    ValueGrows(v, digits);
    if digits != [] {
      var w := v * 16 + HexValue(digits[0]);
      DigitsLead(w, digits[1..]);
      One(Config(ChunkSize, v), digits[0]);
      Then(Config(ChunkSize, v), [digits[0]], Config(ChunkSize, w), [], digits[1..]);
      assert [digits[0]] + digits[1..] == digits;
    }
  }

  lemma SizeLeads(digits: seq<Byte>)
    requires HexDigits(digits) && ValueFrom(0, digits) <= MAX_OFF_T / 16
    ensures Leads(START, digits, Config(ChunkSize, ValueFrom(0, digits)), [])
  {
    var w := HexValue(digits[0]);
    DigitsLead(w, digits[1..]);
    One(START, digits[0]);
    Then(START, [digits[0]], Config(ChunkSize, w), [], digits[1..]);
    assert [digits[0]] + digits[1..] == digits;
    assert ValueFrom(0, digits) == ValueFrom(w, digits[1..]);
  }

  /** Bytes without CR and LF do not leave a line. */
  lemma {:induction false} LineStays(c: Config, s: seq<Byte>)
    requires c.state in {ChunkExtension, LastChunkExtension, AfterData, TrailerHeader}
    requires c.state != ChunkExtension ==> c.size == 0
    requires NoLineEnd(s)
    ensures Leads(c, s, c, [])
    decreases |s|
  {
    if s != [] {
      LineStays(c, s[1..]);
      One(c, s[0]);
      Then(c, [s[0]], c, [], s[1..]);
      assert [s[0]] + s[1..] == s;
    }
  }

  lemma LineLeads(c: Config, l: Line)
    requires c.state in {ChunkExtension, LastChunkExtension, AfterData, TrailerHeader}
    requires c.state != ChunkExtension ==> c.size == 0
    requires ALine(l)
    ensures Leads(c, EncodeLine(l), BehindLine(c), [])
  {
    LineStays(c, l.text);
    EndLeads(c, l.end);
    Then(c, l.text, c, [], l.end);
  }

  /** Where a line end leads from within a line. */
  function BehindLine(c: Config): Config {
    if c.state == AfterData then START
    else if (c.state == ChunkSize && c.size != 0) || c.state == ChunkExtension then Config(ChunkData, c.size)
    else Config(Trailer, 0)
  }

  lemma EndLeads(c: Config, end: seq<Byte>)
    requires c.state in {ChunkSize, ChunkExtension, LastChunkExtension, AfterData, TrailerHeader} && LineEnd(end)
    requires c.state == ChunkSize ==> 0 <= c.size <= MAX_OFF_T / 16
    ensures Leads(c, end, BehindLine(c), [])
  {
    if end == [LF] {
      One(c, LF);
    } else {
      var d := Step(c, CR).c;
      One(c, CR);
      One(d, LF);
      Then(c, [CR], d, [], [LF]);
      assert [CR] + [LF] == end;
    }
  }

  /** The rest of a chunk-size line: an extension and its line end. */
  lemma ExtensionLeads(v: int, ext: Line)
    requires 0 <= v <= MAX_OFF_T / 16 && Extension(ext)
    ensures Leads(Config(ChunkSize, v), EncodeLine(ext), if v == 0 then Config(Trailer, 0) else Config(ChunkData, v), [])
  {
    hide Run, Payload;
    var c := Config(ChunkSize, v);
    if ext.text == [] {
      EndLeads(c, ext.end);
      assert EncodeLine(ext) == ext.end;
    } else {
      var d := Config(if v == 0 then LastChunkExtension else ChunkExtension, v);
      One(c, ext.text[0]);
      LineLeads(d, Line(ext.text[1..], ext.end));
      Then(c, [ext.text[0]], d, [], ext.text[1..] + ext.end);
      assert [ext.text[0]] + (ext.text[1..] + ext.end) == EncodeLine(ext);
    }
  }

  lemma ChunkLeads(k: Chunk)
    requires WellFormedChunk(k)
    ensures Leads(START, EncodeChunk(k), START, k.data)
  {
    hide Step, Numeral;
    var v := |k.data|;
    NumeralIsRead(k.digits, v);
    SizeLeads(k.digits);
    ExtensionLeads(v, k.ext);
    RunOverData(Config(ChunkData, v), k.data);
    LineLeads(Config(AfterData, 0), k.behind);
    Then(Config(ChunkData, v), k.data, Config(AfterData, 0), k.data, EncodeLine(k.behind));
    Then(Config(ChunkSize, v), EncodeLine(k.ext), Config(ChunkData, v), [], k.data + EncodeLine(k.behind));
    Then(START, k.digits, Config(ChunkSize, v), [], EncodeLine(k.ext) + (k.data + EncodeLine(k.behind)));
  }

  lemma {:induction false} ChunksLead(ks: seq<Chunk>)
    requires forall i :: 0 <= i < |ks| ==> WellFormedChunk(ks[i])
    ensures Leads(START, EncodeChunks(ks), START, DataOf(ks))
    decreases |ks|
  {
    if ks != [] {
      ChunkLeads(ks[0]);
      ChunksLead(ks[1..]);
      Then(START, EncodeChunk(ks[0]), START, ks[0].data, EncodeChunks(ks[1..]));
    }
  }

  lemma TrailerLeads(t: Line)
    requires t.text != [] && ALine(t)
    ensures Leads(Config(Trailer, 0), EncodeLine(t), Config(Trailer, 0), [])
  {
    var c, d := Config(Trailer, 0), Config(TrailerHeader, 0);
    One(c, t.text[0]);
    LineLeads(d, Line(t.text[1..], t.end));
    Then(c, [t.text[0]], d, [], t.text[1..] + t.end);
    assert [t.text[0]] + (t.text[1..] + t.end) == EncodeLine(t);
  }

  lemma {:induction false} TrailersFinish(ts: seq<Line>, end: seq<Byte>)
    requires LineEnd(end) && forall i :: 0 <= i < |ts| ==> ts[i].text != [] && ALine(ts[i])
    ensures Run(Config(Trailer, 0), EncodeTrailers(ts, end)) == Finished(|EncodeTrailers(ts, end)|)
    ensures Payload(Config(Trailer, 0), EncodeTrailers(ts, end)) == []
    decreases |ts|
  {
    var c := Config(Trailer, 0);
    if ts == [] {
      if end == [CR, LF] { assert end[1..] == [LF]; }
    } else {
      TrailerLeads(ts[0]);
      TrailersFinish(ts[1..], end);
      Then(c, EncodeLine(ts[0]), c, [], EncodeTrailers(ts[1..], end));
    }
  }

  /** Every well-formed body is taken to its last byte and not beyond, and exactly its chunk data
      is recognised as data. */
  lemma WellFormedIsDecoded(b: Body, rest: seq<Byte>)
    requires WellFormed(b)
    ensures Run(START, Encode(b) + rest) == Finished(|Encode(b)|)
    ensures Payload(START, Encode(b)) == DataOf(b.chunks)
  {
    hide Step, ValueFrom, HexValue, Numeral;
    var last := EncodeTrailers(b.trailers, b.end);
    ChunksLead(b.chunks);
    NumeralIsRead(b.zeros, 0);
    SizeLeads(b.zeros);
    ExtensionLeads(0, b.lastExt);
    TrailersFinish(b.trailers, b.end);
    Then(Config(ChunkSize, 0), EncodeLine(b.lastExt), Config(Trailer, 0), [], last);
    Then(START, b.zeros, Config(ChunkSize, 0), [], EncodeLine(b.lastExt) + last);
    Then(START, EncodeChunks(b.chunks), START, DataOf(b.chunks), EncodeLast(b));
    FinishedIgnoresRest(START, Encode(b), rest);
  }

  /** No proper prefix of a well-formed body is taken for a whole one. */
  lemma PrefixIsNotDone(b: Body, n: nat)
    requires WellFormed(b) && n < |Encode(b)|
    ensures Run(START, Encode(b)[..n]).Going?
    ensures Ok(Run(START, Encode(b)[..n]).c) && !Oversize(Run(START, Encode(b)[..n]).c)
    ensures Need(Run(START, Encode(b)[..n]).c) <= |Encode(b)| - n
  {
    var s := Encode(b);
    WellFormedIsDecoded(b, []);
    assert s + [] == s && s == s[..n] + s[n..];
    RunSplits(START, s[..n], s[n..]);
    RunKeepsOk(START, s[..n]);
    var c := Run(START, s[..n]).c;
    if Oversize(c) { OversizeIsDoomed(c, s[n..]); }
    NeedIsLowerBound(c, s[n..]);
  }

  /** Of a stream that begins with a well-formed body, whatever part is consumed, the data passed over is the
      body's data as far as it was reached, and all of it when the body is over. */
  lemma ConsumedIsData(b: Body, rest: seq<Byte>, x: seq<Byte>)
    requires WellFormed(b) && x <= Encode(b) + rest
    ensures match Run(START, x)
            case Going(c) =>
              && |x| < |Encode(b)|
              && DataOf(b.chunks) == Payload(START, x) + Payload(c, Encode(b)[|x|..])
            case Finished(n) => n == |Encode(b)| <= |x| && Payload(START, x) == DataOf(b.chunks)
            case Broken => false
  {
    hide WellFormed, Run, Payload, Encode;
    var s := Encode(b);
    WellFormedIsDecoded(b, []);
    assert s + [] == s;
    if |x| < |s| {
      assert x == s[..|x|] && s == x + s[|x|..];
      PrefixIsNotDone(b, |x|);
      PayloadSplits(START, x, s[|x|..]);
    } else {
      var y := x[|s|..];
      assert x == s + y;
      WellFormedIsDecoded(b, y);
      PayloadSplits(START, s, y);
    }
  }

  // ----- and nothing else is taken for a body

  lemma StepOf(c: Config, s: seq<Byte>)
    requires Run(c, s) == Finished(|s|)
    ensures s != [] && !Step(c, s[0]).Bad? && (Step(c, s[0]).Done? ==> |s| == 1)
    ensures Step(c, s[0]).Go? ==> Run(Step(c, s[0]).c, s[1..]) == Finished(|s| - 1)
  {
    hide Step;
  }

  /** What finishes from within a line begins with the rest of the line. */
  lemma {:induction false} LineOf(c: Config, s: seq<Byte>) returns (l: Line, r: seq<Byte>)
    requires c.state in {ChunkExtension, LastChunkExtension, AfterData, TrailerHeader}
    requires c.state != ChunkExtension ==> c.size == 0
    requires c.state == ChunkExtension ==> c.size != 0
    requires Run(c, s) == Finished(|s|)
    ensures ALine(l) && s == EncodeLine(l) + r && |r| < |s| && Run(BehindLine(c), r) == Finished(|r|)
    decreases |s|
  {
    hide Run;
    StepOf(c, s);
    var d := Step(c, s[0]).c;
    if s[0] == LF {
      l, r := Line([], [LF]), s[1..];
    } else if s[0] == CR {
      StepOf(d, s[1..]);
      l, r := Line([], [CR, LF]), s[2..];
      assert s[1..][1..] == r;
    } else {
      l, r := LineOf(c, s[1..]);
      assert s == [s[0]] + s[1..];
      l := Line([s[0]] + l.text, l.end);
    }
  }

  /** What finishes behind some digits of a size begins with the rest of the chunk-size line. */
  lemma {:induction false} SizeOf(v: nat, s: seq<Byte>) returns (digits: seq<Byte>, ext: Line, r: seq<Byte>)
    requires Run(Config(ChunkSize, v), s) == Finished(|s|)
    ensures forall i :: 0 <= i < |digits| ==> HexValue(digits[i]) >= 0
    ensures var w := ValueFrom(v, digits);
            && 0 <= w <= MAX_OFF_T / 16 && Extension(ext) && s == digits + (EncodeLine(ext) + r) && |r| < |s|
            && Run(if w == 0 then Config(Trailer, 0) else Config(ChunkData, w), r) == Finished(|r|)
    decreases |s|
  {
    hide Run, HexValue;
    var c := Config(ChunkSize, v);
    StepOf(c, s);
    var d := Step(c, s[0]).c;
    if HexValue(s[0]) >= 0 {
      var more;
      more, ext, r := SizeOf(v * 16 + HexValue(s[0]), s[1..]);
      digits := [s[0]] + more;
      assert s == [s[0]] + s[1..] && digits[1..] == more;
    } else {
      digits := [];
      if s[0] == LF {
        ext, r := Line([], [LF]), s[1..];
      } else if s[0] == CR {
        StepOf(d, s[1..]);
        ext, r := Line([], [CR, LF]), s[2..];
        assert s[1..][1..] == r;
      } else {
        ext, r := LineOf(d, s[1..]);
        assert s == [s[0]] + s[1..];
        ext := Line([s[0]] + ext.text, ext.end);
      }
    }
  }

  /** What finishes from the first data byte on begins with all the data. */
  lemma DataFirst(v: int, s: seq<Byte>)
    requires 1 <= v <= MAX_OFF_T / 16 && Run(Config(ChunkData, v), s) == Finished(|s|)
    ensures v < |s| && Run(Config(AfterData, 0), s[v..]) == Finished(|s| - v)
  {
    var c := Config(ChunkData, v);
    if |s| <= v {
      RunOverData(c, s);
    } else {
      RunOverData(c, s[..v]);
      assert s == s[..v] + s[v..];
      RunSplits(c, s[..v], s[v..]);
    }
  }

  lemma OneMoreLine(first: Byte, t: Line, ts: seq<Line>, end: seq<Byte>) returns (all: seq<Line>)
    requires first != 13 && first != 10 && ALine(t) && forall i :: 0 <= i < |ts| ==> ts[i].text != [] && ALine(ts[i])
    ensures EncodeTrailers(all, end) == [first] + (EncodeLine(t) + EncodeTrailers(ts, end))
    ensures forall i :: 0 <= i < |all| ==> all[i].text != [] && ALine(all[i])
  {
    var l := Line([first] + t.text, t.end);
    all := [l] + ts;
    assert all[1..] == ts;
    hide EncodeTrailers;
    assert EncodeLine(l) + EncodeTrailers(ts, end) == [first] + (EncodeLine(t) + EncodeTrailers(ts, end));
  }

  lemma {:induction false} TrailersOf(s: seq<Byte>) returns (ts: seq<Line>, end: seq<Byte>)
    requires Run(Config(Trailer, 0), s) == Finished(|s|)
    ensures LineEnd(end) && s == EncodeTrailers(ts, end) && forall i :: 0 <= i < |ts| ==> ts[i].text != [] && ALine(ts[i])
    decreases |s|
  {
    hide Run;
    var c := Config(Trailer, 0);
    StepOf(c, s);
    if s[0] == LF {
      ts, end := [], [LF];
    } else if s[0] == CR {
      StepOf(Step(c, s[0]).c, s[1..]);
      ts, end := [], [CR, LF];
    } else {
      var t, r := LineOf(Config(TrailerHeader, 0), s[1..]);
      ts, end := TrailersOf(r);
      assert s == [s[0]] + s[1..];
      ts := OneMoreLine(s[0], t, ts, end);
    }
  }

  /** What finishes from the start begins with a chunk-size line. */
  lemma HeadOf(s: seq<Byte>) returns (digits: seq<Byte>, ext: Line, r: seq<Byte>)
    requires Run(START, s) == Finished(|s|)
    ensures HexDigits(digits) && s == digits + (EncodeLine(ext) + r) && |r| < |s| && Extension(ext)
    ensures var w := ValueFrom(0, digits);
            0 <= w <= MAX_OFF_T / 16 && Run(if w == 0 then Config(Trailer, 0) else Config(ChunkData, w), r) == Finished(|r|)
  {
    hide Run, HexValue, EncodeLine, Extension;
    StepOf(START, s);
    var more;
    more, ext, r := SizeOf(HexValue(s[0]), s[1..]);
    digits := [s[0]] + more;
    assert digits[1..] == more && s == [s[0]] + s[1..];
  }

  lemma LastAlone(b: Body)
    requires b.chunks == [] && Numeral(b.zeros, 0) && Extension(b.lastExt) && LineEnd(b.end)
    requires forall i :: 0 <= i < |b.trailers| ==> b.trailers[i].text != [] && ALine(b.trailers[i])
    ensures WellFormed(b) && Encode(b) == b.zeros + (EncodeLine(b.lastExt) + EncodeTrailers(b.trailers, b.end))
  {
    hide Numeral, Extension, ALine;
    assert Encode(b) == [] + EncodeLast(b);
  }

  lemma OneMoreChunk(k: Chunk, rest: Body) returns (b: Body)
    requires WellFormedChunk(k) && WellFormed(rest)
    ensures WellFormed(b)
    ensures Encode(b) == k.digits + (EncodeLine(k.ext) + (k.data + (EncodeLine(k.behind) + Encode(rest))))
  {
    hide Numeral, Extension, ALine, WellFormedChunk, EncodeLine;
    b := rest.(chunks := [k] + rest.chunks);
    assert b.chunks[1..] == rest.chunks;
    assert Encode(b) == EncodeChunk(k) + Encode(rest);
  }

  /** What the machine finishes is a well-formed body. */
  lemma {:induction false} BodyOf(s: seq<Byte>) returns (b: Body)
    requires Run(START, s) == Finished(|s|)
    ensures WellFormed(b) && Encode(b) == s
    decreases |s|
  {
    hide Run, Numeral, ALine, Extension, EncodeChunk, EncodeLine, Encode, WellFormed, ValueFrom, HexDigits;
    var digits, ext, r := HeadOf(s);
    var w := ValueFrom(0, digits);
    NumeralIsRead(digits, w);
    if w == 0 {
      var ts, end := TrailersOf(r);
      b := Body([], digits, ext, ts, end);
      LastAlone(b);
    } else {
      DataFirst(w, r);
      var behind, r2 := LineOf(Config(AfterData, 0), r[w..]);
      var rest := BodyOf(r2);
      var k := Chunk(digits, ext, r[..w], behind);
      assert r == r[..w] + r[w..];
      b := OneMoreChunk(k, rest);
    }
  }

  /** The machine finishes with the last of some bytes if and only if they are a well-formed body. */
  lemma FinishesExactlyBodies(s: seq<Byte>)
    ensures Run(START, s) == Finished(|s|) <==> exists b :: WellFormed(b) && Encode(b) == s
  {
    hide WellFormed, Run, Encode;
    if Run(START, s) == Finished(|s|) { var b := BodyOf(s); }
    forall b | WellFormed(b) && Encode(b) == s ensures Run(START, s) == Finished(|s|) {
      WellFormedIsDecoded(b, []);
      assert Encode(b) + [] == s;
    }
  }
}
