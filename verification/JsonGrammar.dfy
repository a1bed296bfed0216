/** The texts that the parser accepts, as a grammar, and what they mean. It is that of RFC 8259 with the library's
    liberties: besides those of the literals, any byte up to 32 is a blank. */
module JsonGrammar {
  import opened JsonText
  import opened JsonRoundTrip
  import opened JsonLiterals

  // ----- values

  /** A text with its blanks. A gap stands behind an opening bracket, behind a value or name, and behind a comma or
      colon. */
  datatype Doc =
    | Word(word: string)
    | Num(m: Numeral)
    | Lit(us: seq<Unit>, closed: bool)
    | Arr(gap: string, items: Items)
    | Obj(gap: string, pairs: Pairs)

  datatype Items = NoItem | Item(doc: Doc, gap: string, lead: string, next: Items)

  datatype Pairs = NoPair | Pair(name: seq<Unit>, gap: string, lead: string, doc: Doc, behind: string, more: string, next: Pairs)

  predicate Gap(w: string) { forall i :: 0 <= i < |w| ==> w[i] as int <= 32 }

  const WORDS: map<string, Json> := map["null" := Null, "true" := True, "false" := False]

  predicate FitsDoc(d: Doc) {
    match d
    case Word(w) => w in WORDS
    case Num(m) => FitsNumeral(m)
    case Lit(us, closed) => FitsUnits(us)
    case Arr(gap, items) => Gap(gap) && FitsItems(items)
    case Obj(gap, pairs) => Gap(gap) && FitsPairs(pairs)
  }

  predicate FitsItems(items: Items) {
    items.Item? ==>
      && FitsDoc(items.doc) && (items.doc.Lit? ==> items.doc.closed) && Gap(items.gap) && Gap(items.lead)
      && FitsItems(items.next)
  }

  predicate FitsPairs(pairs: Pairs) {
    pairs.Pair? ==>
      && FitsUnits(pairs.name) && Gap(pairs.gap) && Gap(pairs.lead)
      && FitsDoc(pairs.doc) && (pairs.doc.Lit? ==> pairs.doc.closed) && Gap(pairs.behind) && Gap(pairs.more)
      && FitsPairs(pairs.next)
  }

  function DocText(d: Doc): string
    requires FitsDoc(d)
  {
    match d
    case Word(w) => w
    case Num(m) => NumeralText(m)
    case Lit(us, closed) => LiteralText(us, closed)
    case Arr(gap, items) => "[" + (gap + (ItemsText(items) + "]"))
    case Obj(gap, pairs) => "{" + (gap + (PairsText(pairs) + "}"))
  }

  function ItemsText(items: Items): string
    requires FitsItems(items)
  {
    if items.NoItem? then ""
    else DocText(items.doc) + (items.gap + if items.next.Item? then "," + (items.lead + ItemsText(items.next)) else "")
  }

  function PairsText(pairs: Pairs): string
    requires FitsPairs(pairs)
  {
    if pairs.NoPair? then ""
    else
      LiteralText(pairs.name, true) + (pairs.gap + (":" + (pairs.lead + (DocText(pairs.doc)
      + (pairs.behind + if pairs.next.Pair? then "," + (pairs.more + PairsText(pairs.next)) else "")))))
  }

  function DocValue(d: Doc): Json
    requires FitsDoc(d)
  {
    match d
    case Word(w) => WORDS[w]
    case Num(m) => Number(NumeralValue(m))
    case Lit(us, closed) => Str(UnitsValue(us))
    case Arr(gap, items) => Array(ItemsValue(items))
    case Obj(gap, pairs) => Object(PairsValue(pairs))
  }

  function ItemsValue(items: Items): Elems
    requires FitsItems(items)
  {
    if items.NoItem? then NoElem else Elem(DocValue(items.doc), ItemsValue(items.next))
  }

  function PairsValue(pairs: Pairs): Members
    requires FitsPairs(pairs)
  {
    if pairs.NoPair? then NoMember else Member(UnitsValue(pairs.name), DocValue(pairs.doc), PairsValue(pairs.next))
  }

  /** rest does not belong to the text before it, and an open string has nothing behind it. */
  predicate Ends(d: Doc, rest: string) {
    (d.Num? ==> Stops(d.m, rest)) && (d.Lit? && !d.closed ==> rest == [])
  }

  /** Blanks, or one of the bytes that stand behind a value. */
  lemma EndsAt(d: Doc, rest: string)
    requires rest == [] || rest[0] as int <= 32 || rest[0] == ',' || rest[0] == ']' || rest[0] == '}'
    requires d.Lit? ==> d.closed
    ensures Ends(d, rest)
  {
  }

  /** A text begins with a byte that is no blank and no closing bracket. */
  lemma DocIsSolid(d: Doc, rest: string)
    requires FitsDoc(d)
    ensures Solid(DocText(d) + rest)
  {
    hide DigitsText, FracText, ExpText;
    if d.Num? {
      var u := DigitsText(d.m.whole) + (FracText(d.m.frac) + ExpText(d.m.mark, d.m.sign, d.m.exp));
      OptionalFirst(d.m.zero, '0', u);
      OptionalFirst(d.m.neg, '-', Optional(d.m.zero, '0') + u);
      if d.m.whole != [] { FirstDigit(d.m.whole, FracText(d.m.frac) + ExpText(d.m.mark, d.m.sign, d.m.exp)); }
    }
  }

  lemma SkipsGap(w: string, x: string)
    requires Gap(w) && (x != [] ==> x[0] as int > 32)
    ensures Skip(w + x) == x
  {
    SkipDrops(w, x);
  }

  lemma WordIsRead(w: string, rest: string)
    requires w in WORDS
    ensures ParseValue(w + rest) == Got(WORDS[w], rest)
  {
    hide ParseValue;
    WordParses(rest);
  }

  /** Every text of the grammar is read as its value, up to what follows it. */
  lemma {:induction false} DocIsRead(d: Doc, rest: string)
    requires FitsDoc(d) && Ends(d, rest)
    ensures ParseValue(DocText(d) + rest) == Got(DocValue(d), rest)
    decreases d
  {
    hide ParseValue, ParseStr, ParseNumber, NumeralText, NumeralValue, FitsNumeral, UnitsText, UnitsValue, FitsUnits, WORDS, Stops, Skip;
    match d {
      case Word(w) => WordIsRead(w, rest);
      case Num(m) =>
        NumeralIsRead(m, rest);
        NumberParses(NumeralText(m) + rest);
      case Lit(us, closed) =>
        LiteralIsRead(us, closed, rest);
        StringParses(LiteralText(us, closed) + rest);
      case Arr(gap, items) =>
        ItemsAreRead(gap, items, rest);
      case Obj(gap, pairs) =>
        PairsAreRead(gap, pairs, rest);
    }
  }

  lemma Bracketed(open: string, gap: string, body: string, close: string, rest: string)
    requires |open| == 1 && |close| == 1
    ensures var t := (open + (gap + (body + close))) + rest;
            t[0] == open[0] && t[1..] == gap + (body + (close + rest)) && (close + rest)[1..] == rest
  {
    Assoc(open, gap + (body + close), rest);
    Assoc(gap, body + close, rest);
    Assoc(body, close, rest);
  }

  lemma {:induction false} ItemsAreRead(gap: string, items: Items, rest: string)
    requires Gap(gap) && FitsItems(items)
    ensures ParseValue(("[" + (gap + (ItemsText(items) + "]"))) + rest) == Got(Array(ItemsValue(items)), rest)
    decreases items, 1
  {
    hide ParseValue, ParseElems, Skip, DocText, DocValue, FitsDoc;
    var t, u := ("[" + (gap + (ItemsText(items) + "]"))) + rest, ItemsText(items) + ("]" + rest);
    Bracketed("[", gap, ItemsText(items), "]", rest);
    if items.NoItem? {
      assert u == "]" + rest;
    } else {
      ItemsStart(items, "]" + rest);
      ElemsAreRead(items, rest);
    }
    SkipsGap(gap, u);
    ArrayParses(t, u);
  }

  lemma ItemsStart(items: Items, rest: string)
    requires FitsItems(items) && items.Item?
    ensures Solid(ItemsText(items) + rest)
  {
    hide DocText, FitsDoc, ItemsText;
    var more := items.gap + if items.next.Item? then "," + (items.lead + ItemsText(items.next)) else "";
    assert ItemsText(items) == DocText(items.doc) + more by { ItemsUnfold(items); }
    Assoc(DocText(items.doc), more, rest);
    DocIsSolid(items.doc, more + rest);
  }

  lemma ItemsUnfold(items: Items)
    requires FitsItems(items) && items.Item?
    ensures ItemsText(items) == DocText(items.doc) + (items.gap + if items.next.Item? then "," + (items.lead + ItemsText(items.next)) else "")
  {
  }

  lemma {:induction false} ElemsAreRead(items: Items, rest: string)
    requires FitsItems(items) && items.Item?
    ensures ParseElems(ItemsText(items) + ("]" + rest)) == Got(ItemsValue(items), rest)
    decreases items, 0
  {
    hide ParseValue, ParseElems, Skip, DocText, DocValue, FitsDoc, ItemsText;
    var end := "]" + rest;
    var tail := (if items.next.Item? then "," + (items.lead + ItemsText(items.next)) else "") + end;
    var after := items.gap + tail;
    ItemsUnfold(items);
    Assoc(DocText(items.doc), items.gap + if items.next.Item? then "," + (items.lead + ItemsText(items.next)) else "", end);
    Assoc(items.gap, if items.next.Item? then "," + (items.lead + ItemsText(items.next)) else "", end);
    assert tail != [] && (tail[0] == ',' || tail[0] == ']');
    StartsAfterGap(items.gap, tail);
    EndsAt(items.doc, after);
    DocIsRead(items.doc, after);
    SkipsGap(items.gap, tail);
    if items.next.Item? {
      var q := ItemsText(items.next) + end;
      Assoc(",", items.lead + ItemsText(items.next), end);
      Assoc(items.lead, ItemsText(items.next), end);
      assert tail[1..] == items.lead + q;
      ItemsStart(items.next, end);
      SkipsGap(items.lead, q);
      ElemsAreRead(items.next, rest);
    } else {
      assert tail == end && end[1..] == rest;
    }
    ElemIsRead(DocText(items.doc) + after, DocValue(items.doc), after, tail);
  }

  lemma StartsAfterGap(w: string, x: string)
    requires Gap(w) && x != []
    ensures (w + x)[0] as int <= 32 || (w + x)[0] == x[0]
  {
  }

  /** One element, and what the byte behind it and its blanks says. */
  lemma ElemIsRead(s: string, v: Json, after: string, tail: string)
    requires ParseValue(s) == Got(v, after) && Skip(after) == tail && tail != []
    ensures tail[0] == ']' ==> ParseElems(s) == Got(Elem(v, NoElem), tail[1..])
    ensures var r := ParseElems(Skip(tail[1..]));
            tail[0] == ',' && r.Got? ==> ParseElems(s) == Got(Elem(v, r.value), r.rest)
  {
    hide ParseValue, Skip;
  }

  lemma {:induction false} PairsAreRead(gap: string, pairs: Pairs, rest: string)
    requires Gap(gap) && FitsPairs(pairs)
    ensures ParseValue(("{" + (gap + (PairsText(pairs) + "}"))) + rest) == Got(Object(PairsValue(pairs)), rest)
    decreases pairs, 1
  {
    hide ParseValue, ParseMembers, Skip, DocText, DocValue, FitsDoc, FitsUnits, LiteralText, UnitsValue;
    var t, u := ("{" + (gap + (PairsText(pairs) + "}"))) + rest, PairsText(pairs) + ("}" + rest);
    Bracketed("{", gap, PairsText(pairs), "}", rest);
    if pairs.NoPair? {
      assert u == "}" + rest;
    } else {
      PairsStart(pairs, "}" + rest);
      MembersAreRead(pairs, rest);
    }
    SkipsGap(gap, u);
    ObjectParses(t, u);
  }

  /** The text behind a pair's value. */
  function AfterPair(pairs: Pairs): string
    requires FitsPairs(pairs) && pairs.Pair?
  {
    if pairs.next.Pair? then "," + (pairs.more + PairsText(pairs.next)) else ""
  }

  lemma PairsUnfold(pairs: Pairs, rest: string)
    requires FitsPairs(pairs) && pairs.Pair?
    ensures PairsText(pairs) + rest ==
      LiteralText(pairs.name, true) + (pairs.gap + (":" + (pairs.lead + (DocText(pairs.doc) + (pairs.behind + (AfterPair(pairs) + rest))))))
  {
    hide LiteralText, DocText, AfterPair;
    var a, b, c, d := LiteralText(pairs.name, true), pairs.gap, ":", pairs.lead;
    var e, f, g := DocText(pairs.doc), pairs.behind, AfterPair(pairs);
    assert PairsText(pairs) == a + (b + (c + (d + (e + (f + g))))) by { PairsTextIs(pairs); }
    Assoc(a, b + (c + (d + (e + (f + g)))), rest);
    Reassociate(b, c, d, e, f + g, rest);
    Assoc(f, g, rest);
  }

  lemma PairsTextIs(pairs: Pairs)
    requires FitsPairs(pairs) && pairs.Pair?
    ensures PairsText(pairs) ==
      LiteralText(pairs.name, true) + (pairs.gap + (":" + (pairs.lead + (DocText(pairs.doc) + (pairs.behind + AfterPair(pairs))))))
  {
    hide LiteralText, DocText;
  }

  lemma PairsStart(pairs: Pairs, rest: string)
    requires FitsPairs(pairs) && pairs.Pair?
    ensures At(PairsText(pairs) + rest, '\"')
  {
    hide PairsText, DocText, AfterPair;
    PairsUnfold(pairs, rest);
  }

  lemma {:induction false} MembersAreRead(pairs: Pairs, rest: string)
    requires FitsPairs(pairs) && pairs.Pair?
    ensures ParseMembers(PairsText(pairs) + ("}" + rest)) == Got(PairsValue(pairs), rest)
    decreases pairs, 0
  {
    hide ParseValue, ParseMembers, ParseStr, Skip, DocText, DocValue, FitsDoc, PairsText, LiteralText, UnitsValue, FitsUnits;
    var end := "}" + rest;
    var tail := AfterPair(pairs) + end;
    var after := pairs.behind + tail;
    var value := DocText(pairs.doc) + after;
    PairsUnfold(pairs, end);
    LiteralIsRead(pairs.name, true, pairs.gap + (":" + (pairs.lead + value)));
    SkipsGap(pairs.gap, ":" + (pairs.lead + value));
    DocIsSolid(pairs.doc, after);
    SkipsGap(pairs.lead, value);
    assert tail != [] && (tail[0] == ',' || tail[0] == '}');
    StartsAfterGap(pairs.behind, tail);
    EndsAt(pairs.doc, after);
    DocIsRead(pairs.doc, after);
    SkipsGap(pairs.behind, tail);
    if pairs.next.Pair? {
      var q := PairsText(pairs.next) + end;
      Assoc(",", pairs.more + PairsText(pairs.next), end);
      Assoc(pairs.more, PairsText(pairs.next), end);
      assert tail[1..] == pairs.more + q;
      PairsStart(pairs.next, end);
      SkipsGap(pairs.more, q);
      MembersAreRead(pairs.next, rest);
    } else {
      assert tail == end && end[1..] == rest;
    }
    MemberIsRead(PairsText(pairs) + end, UnitsValue(pairs.name), pairs.gap + (":" + (pairs.lead + value)), pairs.lead + value,
                 DocValue(pairs.doc), after, tail);
  }

  /** One member, and what the byte behind it and its blanks says. */
  lemma MemberIsRead(s: string, name: string, afterName: string, colon: string, v: Json, after: string, tail: string)
    requires ParseStr(s) == Got(name, afterName) && Skip(afterName) == ":" + colon
    requires ParseValue(Skip(colon)) == Got(v, after) && Skip(after) == tail && tail != []
    ensures tail[0] == '}' ==> ParseMembers(s) == Got(Member(name, v, NoMember), tail[1..])
    ensures var r := ParseMembers(Skip(tail[1..]));
            tail[0] == ',' && r.Got? ==> ParseMembers(s) == Got(Member(name, v, r.value), r.rest)
  {
    assert (":" + colon)[1..] == colon;
    hide ParseValue, ParseStr, Skip;
  }

  // ----- and no other text is read

  lemma {:induction false} GapOf(s: string) returns (w: string)
    ensures Gap(w) && s == w + Skip(s) && (Skip(s) != [] ==> s != [])
    decreases |s|
  {
    if s != [] && s[0] <= ' ' {
      var more := GapOf(s[1..]);
      w := [s[0]] + more;
      HeadAndTail(s);
      Assoc([s[0]], more, Skip(s));
    } else {
      w := "";
    }
  }

  lemma WordOf(s: string) returns (w: string)
    requires StartsWith(s, "null") || StartsWith(s, "false") || StartsWith(s, "true")
    ensures w in WORDS && |w| <= |s| && s == w + s[|w|..] && ParseValue(s) == Got(WORDS[w], s[|w|..])
  {
    hide ParseValue;
    w := if StartsWith(s, "null") then "null" else if StartsWith(s, "false") then "false" else "true";
    assert s == w + s[|w|..];
    WordParses(s[|w|..]);
  }

  /** What is read as a value is a text of the grammar and what follows it. */
  lemma {:induction false} DocOf(s: string) returns (d: Doc)
    requires ParseValue(s).Got?
    ensures FitsDoc(d) && Ends(d, ParseValue(s).rest) && s == DocText(d) + ParseValue(s).rest
    decreases |s|, 1
  {
    hide ParseValue, ParseElems, ParseMembers, ParseStr, ParseNumber, Skip, FitsNumeral, NumeralText, FitsUnits, LiteralText, Stops, WORDS, StartsWith;
    var rest := ParseValue(s).rest;
    ValueKinds(s);
    if StartsWith(s, "null") || StartsWith(s, "false") || StartsWith(s, "true") {
      var w := WordOf(s);
      d := Word(w);
    } else if At(s, '\"') {
      var us, closed := LiteralOf(s);
      d := Lit(us, closed);
    } else if At(s, '-') || (s != [] && IsDigit(s[0])) {
      var m := NumeralOf(s);
      d := Num(m);
    } else if At(s, '[') {
      var gap, items := BracketOf(s);
      d := Arr(gap, items);
      assert DocText(d) == "[" + (gap + (ItemsText(items) + "]"));
    } else {
      var gap, pairs := BraceOf(s);
      d := Obj(gap, pairs);
      assert DocText(d) == "{" + (gap + (PairsText(pairs) + "}"));
    }
  }

  lemma ValueKinds(s: string)
    requires ParseValue(s).Got?
    ensures StartsWith(s, "null") || StartsWith(s, "false") || StartsWith(s, "true") || At(s, '\"') || At(s, '-')
            || (s != [] && IsDigit(s[0])) || At(s, '[') || At(s, '{')
    ensures !(StartsWith(s, "null") || StartsWith(s, "false") || StartsWith(s, "true")) ==>
              && (At(s, '\"') ==> ParseStr(s).Got? && ParseStr(s).rest == ParseValue(s).rest)
              && (At(s, '-') || (s != [] && IsDigit(s[0])) ==> ParseNumber(s).1 == ParseValue(s).rest)
  {
    hide StartsWith, ParseStr, ParseNumber, ParseElems, ParseMembers, Skip;
  }

  lemma BracketKinds(s: string)
    requires ParseValue(s).Got?
    ensures At(s, '[') ==> var t := Skip(s[1..]);
              if At(t, ']') then ParseValue(s).rest == t[1..] else ParseElems(t).Got? && ParseElems(t).rest == ParseValue(s).rest
    ensures At(s, '{') ==> var t := Skip(s[1..]);
              if At(t, '}') then ParseValue(s).rest == t[1..] else ParseMembers(t).Got? && ParseMembers(t).rest == ParseValue(s).rest
  {
    hide StartsWith, ParseStr, ParseNumber, ParseElems, ParseMembers, Skip;
    if s != [] && (s[0] == '[' || s[0] == '{') { NoWord(s); }
  }

  lemma {:induction false} BracketOf(s: string) returns (gap: string, items: Items)
    requires ParseValue(s).Got? && At(s, '[')
    ensures Gap(gap) && FitsItems(items) && s == ("[" + (gap + (ItemsText(items) + "]"))) + ParseValue(s).rest
    decreases |s|, 0
  {
    hide ParseValue, ParseElems, ParseMembers, Skip, FitsDoc, DocText;
    var rest, t := ParseValue(s).rest, Skip(s[1..]);
    BracketKinds(s);
    HeadAndTail(s);
    gap := GapOf(s[1..]);
    if At(t, ']') {
      items := NoItem;
      HeadAndTail(t);
    } else {
      items := ItemsOf(t);
    }
    assert t == ItemsText(items) + ("]" + rest);
    Assoc(ItemsText(items), "]", rest);
    Assoc(gap, ItemsText(items) + "]", rest);
    Assoc("[", gap + (ItemsText(items) + "]"), rest);
  }

  lemma ElemKinds(s: string)
    requires ParseElems(s).Got?
    ensures ParseValue(s).Got?
    ensures var t := Skip(ParseValue(s).rest);
            || (At(t, ']') && ParseElems(s).rest == t[1..])
            || (At(t, ',') && ParseElems(Skip(t[1..])).Got? && ParseElems(Skip(t[1..])).rest == ParseElems(s).rest)
  {
    hide ParseValue, Skip;
  }

  lemma {:induction false} ItemsOf(s: string) returns (items: Items)
    requires ParseElems(s).Got?
    ensures items.Item? && FitsItems(items) && s == ItemsText(items) + ("]" + ParseElems(s).rest)
    decreases |s|, 2
  {
    hide ParseValue, ParseElems, Skip, FitsDoc, DocText, ItemsText, Gap;
    var rest := ParseElems(s).rest;
    ElemKinds(s);
    var doc := DocOf(s);
    var after := ParseValue(s).rest;
    var gap := GapOf(after);
    var t := Skip(after);
    HeadAndTail(t);
    assert doc.Lit? ==> doc.closed;
    if At(t, ',') {
      var lead := GapOf(t[1..]);
      var next := ItemsOf(Skip(t[1..]));
      items := Item(doc, gap, lead, next);
      Assoc(lead, ItemsText(next), "]" + rest);
      Assoc(",", lead + ItemsText(next), "]" + rest);
      Assoc(gap, "," + (lead + ItemsText(next)), "]" + rest);
      Assoc(DocText(doc), gap + ("," + (lead + ItemsText(next))), "]" + rest);
    } else {
      NoGap();
      items := Item(doc, gap, "", NoItem);
      assert gap + "" == gap && t == "]" + rest;
      Assoc(DocText(doc), gap, "]" + rest);
    }
    ItemsUnfold(items);
  }

  lemma NoGap()
    ensures Gap("")
  {
  }

  lemma {:induction false} BraceOf(s: string) returns (gap: string, pairs: Pairs)
    requires ParseValue(s).Got? && At(s, '{')
    ensures Gap(gap) && FitsPairs(pairs) && s == ("{" + (gap + (PairsText(pairs) + "}"))) + ParseValue(s).rest
    decreases |s|, 0
  {
    hide ParseValue, ParseElems, ParseMembers, Skip, FitsDoc, DocText, LiteralText, FitsUnits;
    var rest, t := ParseValue(s).rest, Skip(s[1..]);
    BracketKinds(s);
    HeadAndTail(s);
    gap := GapOf(s[1..]);
    if At(t, '}') {
      pairs := NoPair;
      HeadAndTail(t);
    } else {
      pairs := PairsOf(t);
    }
    assert t == PairsText(pairs) + ("}" + rest);
    Assoc(PairsText(pairs), "}", rest);
    Assoc(gap, PairsText(pairs) + "}", rest);
    Assoc("{", gap + (PairsText(pairs) + "}"), rest);
  }

  lemma MemberKinds(s: string)
    requires ParseMembers(s).Got?
    ensures ParseStr(s).Got? && At(Skip(ParseStr(s).rest), ':')
    ensures var v := ParseValue(Skip(Skip(ParseStr(s).rest)[1..]));
            && v.Got?
            && var t := Skip(v.rest);
               || (At(t, '}') && ParseMembers(s).rest == t[1..])
               || (At(t, ',') && ParseMembers(Skip(t[1..])).Got? && ParseMembers(Skip(t[1..])).rest == ParseMembers(s).rest)
  {
    hide ParseValue, ParseStr, Skip;
  }

  lemma {:induction false} PairsOf(s: string) returns (pairs: Pairs)
    requires ParseMembers(s).Got?
    ensures pairs.Pair? && FitsPairs(pairs) && s == PairsText(pairs) + ("}" + ParseMembers(s).rest)
    decreases |s|, 2
  {
    hide ParseValue, ParseMembers, ParseStr, Skip, FitsDoc, DocText, PairsText, Gap, LiteralText, FitsUnits;
    var end := "}" + ParseMembers(s).rest;
    MemberKinds(s);
    var name, closed := LiteralOf(s);
    var afterName := ParseStr(s).rest;
    var gap := GapOf(afterName);
    var colon := Skip(afterName);
    HeadAndTail(colon);
    var lead := GapOf(colon[1..]);
    var value := Skip(colon[1..]);
    var doc := DocOf(value);
    var after := ParseValue(value).rest;
    var behind := GapOf(after);
    var t := Skip(after);
    HeadAndTail(t);
    assert closed && (doc.Lit? ==> doc.closed);
    NoGap();
    if At(t, ',') {
      var more := GapOf(t[1..]);
      var next := PairsOf(Skip(t[1..]));
      pairs := Pair(name, gap, lead, doc, behind, more, next);
      Assoc(more, PairsText(next), end);
      Assoc(",", more + PairsText(next), end);
    } else {
      pairs := Pair(name, gap, lead, doc, behind, "", NoPair);
      assert "" + end == end;
    }
    assert t == AfterPair(pairs) + end;
    PairsUnfold(pairs, end);
  }

  /** The parser takes exactly the texts of the grammar, and takes each for its value. */
  lemma ParsesExactly(s: string, v: Json, rest: string)
    ensures ParseValue(s) == Got(v, rest) <==>
              exists d :: FitsDoc(d) && Ends(d, rest) && s == DocText(d) + rest && v == DocValue(d)
  {
    hide ParseValue, FitsDoc, Ends, DocText, DocValue;
    if ParseValue(s) == Got(v, rest) {
      var d := DocOf(s);
      DocIsRead(d, rest);
    }
    forall d | FitsDoc(d) && Ends(d, rest) && s == DocText(d) + rest && v == DocValue(d) ensures ParseValue(s) == Got(v, rest) {
      DocIsRead(d, rest);
    }
  }

  /** A whole text is accepted if and only if it is a text of the grammar between blanks. */
  lemma WholeTextsExactly(text: string, v: Json)
    ensures Parse(text, true) == Got(v, "") <==>
              exists w, d, z :: Gap(w) && FitsDoc(d) && Ends(d, z) && Gap(z) && text == w + (DocText(d) + z) && v == DocValue(d)
  {
    hide ParseValue, FitsDoc, Ends, DocText, DocValue, Gap, Skip;
    if Parse(text, true) == Got(v, "") {
      var w := GapOf(text);
      var s := Skip(text);
      var d := DocOf(s);
      var z := GapOf(ParseValue(s).rest);
      assert z + "" == z;
      DocIsRead(d, z);
    }
    forall w, d, z | Gap(w) && FitsDoc(d) && Ends(d, z) && Gap(z) && text == w + (DocText(d) + z) && v == DocValue(d)
      ensures Parse(text, true) == Got(v, "")
    {
      DocIsSolid(d, z);
      SkipsGap(w, DocText(d) + z);
      DocIsRead(d, z);
      SkipsGap(z, "");
      assert z + "" == z;
    }
  }

  // ----- what is printed

  /** Tabs for the depth, when formatting. */
  ghost predicate IsIndent(t: string, depth: nat, fmt: bool) {
    |t| == (if fmt then depth else 0) && forall i :: 0 <= i < |t| ==> t[i] as int == 9
  }

  /** An array: brackets, and between two elements a comma, with a blank behind it when formatting. */
  lemma ArrayLayout(v: Json, next: Elems, depth: nat, fmt: bool)
    ensures PrintValue(Array(NoElem), depth, fmt) == "[]"
    ensures PrintValue(Array(Elem(v, next)), depth, fmt) == "[" + (PrintElems(Elem(v, next), depth + 1, fmt) + "]")
    ensures PrintElems(Elem(v, next), depth, fmt)
         == PrintValue(v, depth, fmt) + (if next.NoElem? then "" else (if fmt then ", " else ",") + PrintElems(next, depth, fmt))
  {
    hide PrintElems;
    ElemsLayout(v, next, depth, fmt);
  }

  lemma ElemsLayout(v: Json, next: Elems, depth: nat, fmt: bool)
    ensures PrintElems(Elem(v, next), depth, fmt)
         == PrintValue(v, depth, fmt) + (if next.NoElem? then "" else (if fmt then ", " else ",") + PrintElems(next, depth, fmt))
  {
    hide PrintValue;
  }

  /** An object: braces, and when formatting each member on its line behind tabs for its depth, with a tab behind the
      colon, and the closing brace on a line of its own. */
  lemma ObjectLayout(a: string, v: Json, next: Members, depth: nat, fmt: bool, t: string, u: string)
    requires IsIndent(t, depth + 1, fmt) && IsIndent(u, depth, fmt)
    ensures PrintValue(Object(NoMember), depth, fmt) == "{" + ((if fmt then "\n" else "") + u + "}")
    ensures PrintValue(Object(Member(a, v, next)), depth, fmt)
         == "{" + ((if fmt then "\n" else "") + (PrintMembers(Member(a, v, next), depth + 1, fmt) + u) + "}")
    ensures PrintMembers(Member(a, v, next), depth + 1, fmt)
         == t + (PrintStr(a) + ((if fmt then ":\t" else ":") + (PrintValue(v, depth + 1, fmt)
            + (((if next.Member? then "," else "") + (if fmt then "\n" else ""))
               + if next.Member? then PrintMembers(next, depth + 1, fmt) else ""))))
  {
    hide PrintMembers;
    assert Indent(depth, fmt) == u;
    MembersLayout(a, v, next, depth + 1, fmt, t);
  }

  lemma MembersLayout(a: string, v: Json, next: Members, depth: nat, fmt: bool, t: string)
    requires IsIndent(t, depth, fmt)
    ensures PrintMembers(Member(a, v, next), depth, fmt)
         == t + (PrintStr(a) + ((if fmt then ":\t" else ":") + (PrintValue(v, depth, fmt)
            + (((if next.Member? then "," else "") + (if fmt then "\n" else ""))
               + if next.Member? then PrintMembers(next, depth, fmt) else ""))))
  {
    hide PrintValue, PrintStr;
    assert Indent(depth, fmt) == t;
  }
}
