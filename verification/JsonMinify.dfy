/** cJSON_Minify: the text with blanks and comments taken out, rewritten in place. */
module JsonMinify {
  import opened JsonText
  import opened JsonRoundTrip

  /** Overrun: the scan would run past the terminator, in an unfinished string or block comment. */
  datatype Minified = Overrun | Clean(s: string)

  function Keep(p: string, m: Minified): Minified { if m.Clean? then Clean(p + m.s) else m }

  predicate IsSpace(c: char) { c == ' ' || c == '\t' || c == '\r' || c == '\n' }

  function Minify(s: string): Minified
    decreases |s|, 1
  {
    if s == [] then Clean([])
    else if IsSpace(s[0]) then Minify(s[1..])
    else if s[0] == '/' && |s| > 1 && s[1] == '/' then InLine(s[1..])
    else if s[0] == '/' && |s| > 1 && s[1] == '*' then InBlock(s[1..])
    else if s[0] == '\"' then Keep(s[..1], InString(s[1..]))
    else Keep(s[..1], Minify(s[1..]))
  }

  function InLine(s: string): Minified
    decreases |s|, 2
  {
    if s == [] || s[0] == '\n' then Minify(s) else InLine(s[1..])
  }

  function InBlock(s: string): Minified
    decreases |s|, 2
  {
    if s == [] then Overrun
    else if s[0] == '*' && |s| > 1 && s[1] == '/' then Minify(s[2..])
    else InBlock(s[1..])
  }

  function InString(s: string): Minified
    decreases |s|, 2
  {
    if s == [] then Overrun
    else if s[0] == '\"' then Keep(s[..1], Minify(s[1..]))
    else if s[0] == '\\' then if |s| == 1 then Overrun else Keep(s[..2], InString(s[2..]))
    else Keep(s[..1], InString(s[1..]))
  }

  lemma KeepKeeps(p: string, q: string, m: Minified)
    ensures Keep(p, Keep(q, m)) == Keep(p + q, m)
  {
    if m.Clean? { assert p + (q + m.s) == p + q + m.s; }
  }

  // ----- which texts are scanned within their bounds

  /** The first line end from p on, or the end. */
  function NextLine(s: string, p: nat): (r: nat)
    requires p <= |s|
    ensures p <= r <= |s| && (r < |s| ==> s[r] as int == 10) && forall q :: p <= q < r ==> s[q] as int != 10
    decreases |s| - p
  {
    if p == |s| || s[p] == '\n' then p else NextLine(s, p + 1)
  }

  /** The first star from p on that a slash follows, or the end. */
  function NextStar(s: string, p: nat): (r: nat)
    requires p <= |s|
    ensures p <= r <= |s| && (r < |s| ==> r + 1 < |s| && s[r] == '*' && s[r + 1] == '/')
    ensures forall q :: p <= q < r && q + 1 < |s| ==> !(s[q] == '*' && s[q + 1] == '/')
    decreases |s| - p
  {
    if p == |s| || (p + 1 < |s| && s[p] == '*' && s[p + 1] == '/') then p else NextStar(s, p + 1)
  }

  /** Behind every opening quote there is one that no backslash covers, and every block comment ends. */
  predicate Closes(s: string)
    decreases |s|
  {
    if s == [] then true
    else if s[0] == '\"' then
      var p := NextBare(s[1..], 0);
      p < |s| - 1 && Closes(s[p + 2..])
    else if s[0] == '/' && |s| > 1 && s[1] == '/' then Closes(s[NextLine(s, 1)..])
    else if s[0] == '/' && |s| > 1 && s[1] == '*' then
      var p := NextStar(s, 1);
      p < |s| && Closes(s[p + 2..])
    else Closes(s[1..])
  }

  lemma PairAt(s: string)
    requires s != [] && s[0] == '\\'
    ensures InString(s) == if |s| == 1 then Overrun else Keep(s[..2], InString(s[2..]))
  {
    hide Minify;
  }

  lemma {:induction false} StringEnds(s: string)
    ensures var p := NextBare(s, 0); InString(s) == if p < |s| then Keep(s[..p + 1], Minify(s[p + 1..])) else Overrun
    decreases |s|
  {
    hide Minify, Keep;
    if s != [] && s[0] != '\"' {
      var k := if s[0] == '\\' then 2 else 1;
      assert !Bare(s, 0);
      if k == 2 { PairAt(s); }
      if k <= |s| {
        if k == 2 { assert Slashes(s, 1) == 1; }
        assert NextBare(s, 0) == NextBare(s, k);
        StringEnds(s[k..]);
        BareBehind(s, k, 0);
        var p := NextBare(s[k..], 0);
        if p < |s| - k {
          assert s[k..][p + 1..] == s[p + k + 1..] && s[..k] + s[k..][..p + 1] == s[..p + k + 1];
          KeepKeeps(s[..k], s[k..][..p + 1], Minify(s[p + k + 1..]));
        } else {
          KeepOverrun(s[..k]);
        }
      }
    }
  }

  lemma KeepOverrun(p: string)
    ensures Keep(p, Overrun) == Overrun
  {
  }

  lemma {:induction false} LineBehind(s: string, p: nat)
    requires p < |s|
    ensures NextLine(s, p + 1) == NextLine(s[1..], p) + 1
    decreases |s| - p
  {
    if p + 1 < |s| && s[p + 1] != '\n' { LineBehind(s, p + 1); }
  }

  lemma {:induction false} LineEnds(s: string)
    ensures InLine(s) == Minify(s[NextLine(s, 0)..])
    decreases |s|
  {
    hide Minify;
    if s != [] && s[0] != '\n' {
      LineEnds(s[1..]);
      LineBehind(s, 0);
      assert s[1..][NextLine(s[1..], 0)..] == s[NextLine(s, 0)..];
    }
  }

  lemma {:induction false} StarBehind(s: string, p: nat)
    requires p < |s|
    ensures NextStar(s, p + 1) == NextStar(s[1..], p) + 1
    decreases |s| - p
  {
    if p + 1 < |s| && !(p + 2 < |s| && s[p + 1] == '*' && s[p + 2] == '/') { StarBehind(s, p + 1); }
  }

  lemma {:induction false} BlockEnds(s: string)
    ensures var p := NextStar(s, 0); InBlock(s) == if p < |s| then Minify(s[p + 2..]) else Overrun
    decreases |s|
  {
    hide Minify;
    if s != [] && !(|s| > 1 && s[0] == '*' && s[1] == '/') {
      BlockEnds(s[1..]);
      StarBehind(s, 0);
      var p := NextStar(s[1..], 0);
      if p < |s| - 1 { assert s[1..][p + 2..] == s[p + 3..]; }
    }
  }

  lemma StringCase(s: string)
    requires s != [] && s[0] == '\"'
    ensures var p := NextBare(s[1..], 0);
            Minify(s) == if p < |s| - 1 then Keep(s[..p + 2], Minify(s[p + 2..])) else Overrun
  {
    hide InString, Keep;
    AfterQuote(s);
    StringEnds(s[1..]);
    var p := NextBare(s[1..], 0);
    if p < |s| - 1 {
      assert s[1..][p + 1..] == s[p + 2..] && s[..1] + s[1..][..p + 1] == s[..p + 2];
      KeepKeeps(s[..1], s[1..][..p + 1], Minify(s[p + 2..]));
    } else {
      KeepOverrun(s[..1]);
    }
  }

  lemma AfterQuote(s: string)
    requires s != [] && s[0] == '\"'
    ensures Minify(s) == Keep(s[..1], InString(s[1..]))
  {
    hide InString;
  }

  lemma LineCase(s: string)
    requires |s| > 1 && s[0] == '/' && s[1] == '/'
    ensures Minify(s) == Minify(s[NextLine(s, 1)..])
  {
    hide InLine;
    LineEnds(s[1..]);
    LineBehind(s, 0);
    assert s[1..][NextLine(s[1..], 0)..] == s[NextLine(s, 1)..];
  }

  lemma AfterSlash(s: string)
    requires |s| > 1 && s[0] == '/' && s[1] == '*'
    ensures Minify(s) == InBlock(s[1..])
  {
    hide InBlock, InLine, InString;
  }

  lemma BlockCase(s: string)
    requires |s| > 1 && s[0] == '/' && s[1] == '*'
    ensures var p := NextStar(s, 1); Minify(s) == if p < |s| then Minify(s[p + 2..]) else Overrun
  {
    hide InBlock, Minify, NextStar;
    AfterSlash(s);
    BlockEnds(s[1..]);
    StarBehind(s, 0);
    var p := NextStar(s, 1);
    if p < |s| { assert s[1..][p + 1..] == s[p + 2..]; }
  }

  /** The scan stays within the text exactly when the text closes what it opens. */
  lemma {:induction false} CleanIsClosed(s: string)
    ensures Minify(s).Clean? <==> Closes(s)
    decreases |s|
  {
    hide InString, InLine, InBlock;
    if s != [] {
      if s[0] == '\"' {
        StringCase(s);
        var p := NextBare(s[1..], 0);
        if p < |s| - 1 { CleanIsClosed(s[p + 2..]); }
      } else if s[0] == '/' && |s| > 1 && s[1] == '/' {
        LineCase(s);
        CleanIsClosed(s[NextLine(s, 1)..]);
      } else if s[0] == '/' && |s| > 1 && s[1] == '*' {
        BlockCase(s);
        var p := NextStar(s, 1);
        if p < |s| { CleanIsClosed(s[p + 2..]); }
      } else {
        CleanIsClosed(s[1..]);
      }
    }
  }

  // ----- which bytes are kept

  datatype Part = Outside | Quoted | Commented

  /** How long the first part of a text is: a string, a comment, or one byte. */
  function FirstEnd(s: string): (e: int)
    requires s != []
    ensures e > 0
  {
    if s[0] == '\"' then NextBare(s[1..], 0) + 2
    else if s[0] == '/' && |s| > 1 && s[1] == '/' then NextLine(s, 1)
    else if s[0] == '/' && |s| > 1 && s[1] == '*' then NextStar(s, 1) + 2
    else 1
  }

  function FirstIs(s: string): Part
    requires s != []
  {
    if s[0] == '\"' then Quoted
    else if s[0] == '/' && |s| > 1 && (s[1] == '/' || s[1] == '*') then Commented
    else Outside
  }

  /** Where position p of the text lies: in a string from its opening quote to the first one that no backslash covers,
      in a comment from its slash to the line end or to the slash behind the first star, or outside both. */
  function PartAt(s: string, p: nat): Part
    requires p < |s|
    decreases |s|
  {
    if p < FirstEnd(s) then FirstIs(s) else PartAt(s[FirstEnd(s)..], p - FirstEnd(s))
  }

  /** Space, tab, carriage return and line feed go, outside strings, and comments go. */
  predicate IsKept(s: string, p: nat)
    requires p < |s|
  {
    PartAt(s, p) == Quoted || (PartAt(s, p) == Outside && s[p] as int !in {32, 9, 13, 10})
  }

  /** The bytes of s from position p on that are kept. */
  function KeptFrom(s: string, p: nat): string
    requires p <= |s|
    decreases |s| - p
  {
    if p == |s| then [] else (if IsKept(s, p) then [s[p]] else []) + KeptFrom(s, p + 1)
  }

  /** What is kept behind a first part of the text. */
  lemma {:induction false} KeptBehind(s: string, e: nat, p: nat)
    requires 0 < e <= p <= |s| && forall q :: e <= q < |s| ==> PartAt(s, q) == PartAt(s[e..], q - e)
    ensures KeptFrom(s, p) == KeptFrom(s[e..], p - e)
    decreases |s| - p
  {
    hide PartAt, KeptFrom;
    if p < |s| {
      KeptStep(s, p);
      KeptStep(s[e..], p - e);
      assert s[e..][p - e] == s[p];
      KeptBehind(s, e, p + 1);
    } else {
      NothingKept(s);
      NothingKept(s[e..]);
    }
  }

  lemma {:induction false} KeptRun(s: string, p: nat, e: nat, all: bool)
    requires p <= e <= |s| && forall q :: p <= q < e ==> IsKept(s, q) == all
    ensures KeptFrom(s, p) == (if all then s[p..e] else []) + KeptFrom(s, e)
    decreases e - p
  {
    hide IsKept, KeptFrom;
    if p < e {
      KeptStep(s, p);
      KeptRun(s, p + 1, e, all);
      if all {
        assert s[p..e] == [s[p]] + s[p + 1..e];
        Assoc([s[p]], s[p + 1..e], KeptFrom(s, e));
      }
    } else {
      assert (if all then s[p..e] else []) == [];
    }
  }

  lemma NothingKept(s: string)
    ensures KeptFrom(s, |s|) == []
  {
  }

  lemma KeptStep(s: string, p: nat)
    requires p < |s|
    ensures KeptFrom(s, p) == (if IsKept(s, p) then [s[p]] else []) + KeptFrom(s, p + 1)
  {
    hide IsKept;
  }

  /** A string or a comment of e bytes, and the rest. */
  lemma FirstPart(s: string, e: nat, part: Part)
    requires 0 < e <= |s| && part != Outside && forall q :: 0 <= q < e ==> PartAt(s, q) == part
    requires forall q :: e <= q < |s| ==> PartAt(s, q) == PartAt(s[e..], q - e)
    ensures KeptFrom(s, 0) == (if part == Quoted then s[..e] else []) + KeptFrom(s[e..], 0)
  {
    hide PartAt, KeptFrom;
    KeptRun(s, 0, e, part == Quoted);
    KeptBehind(s, e, e);
    assert s[0..e] == s[..e];
  }

  /** A byte outside strings and comments, and the rest. */
  lemma FirstByte(s: string)
    requires s != [] && PartAt(s, 0) == Outside && forall q :: 1 <= q < |s| ==> PartAt(s, q) == PartAt(s[1..], q - 1)
    ensures KeptFrom(s, 0) == (if s[0] as int in {32, 9, 13, 10} then [] else [s[0]]) + KeptFrom(s[1..], 0)
  {
    hide PartAt, KeptFrom;
    KeptStep(s, 0);
    KeptBehind(s, 1, 1);
  }

  lemma ClosedParts(s: string)
    requires s != []
    ensures Closes(s) <==> FirstEnd(s) <= |s| && Closes(s[FirstEnd(s)..])
  {
    hide NextBare, NextLine, NextStar;
  }

  lemma MinifyPart(s: string)
    requires s != [] && FirstEnd(s) <= |s|
    ensures var e, rest := FirstEnd(s), Minify(s[FirstEnd(s)..]);
            Minify(s) == match FirstIs(s)
                         case Quoted => Keep(s[..e], rest)
                         case Commented => rest
                         case Outside => if s[0] as int in {32, 9, 13, 10} then rest else Keep([s[0]], rest)
  {
    hide Minify, Keep, NextBare, NextLine, NextStar;
    if s[0] == '\"' {
      StringCase(s);
    } else if s[0] == '/' && |s| > 1 && s[1] == '/' {
      LineCase(s);
    } else if s[0] == '/' && |s| > 1 && s[1] == '*' {
      BlockCase(s);
    } else {
      PlainCase(s);
    }
  }

  lemma PlainCase(s: string)
    requires s != [] && s[0] != '\"' && !(s[0] == '/' && |s| > 1 && (s[1] == '/' || s[1] == '*'))
    ensures Minify(s) == if s[0] as int in {32, 9, 13, 10} then Minify(s[1..]) else Keep([s[0]], Minify(s[1..]))
  {
    hide InString, InLine, InBlock, Keep;
    assert s[..1] == [s[0]];
  }

  lemma OutsideIsOne(s: string)
    requires s != [] && FirstIs(s) == Outside
    ensures FirstEnd(s) == 1
  {
  }

  /** The result is exactly the bytes of strings and the bytes outside that are no blanks, in their order. */
  lemma {:induction false} MinifyKeeps(s: string)
    requires Closes(s)
    ensures Minify(s) == Clean(KeptFrom(s, 0))
    decreases |s|
  {
    hide Minify, Closes, KeptFrom, FirstEnd, FirstIs;
    if s == [] {
      MinifyNothing();
      NothingKept(s);
    } else {
      var e := FirstEnd(s);
      ClosedParts(s);
      MinifyPart(s);
      MinifyKeeps(s[e..]);
      if FirstIs(s) == Outside {
        OutsideIsOne(s);
        FirstByte(s);
      } else {
        FirstPart(s, e, FirstIs(s));
      }
    }
  }

  /** A string and a comment that the scan follows beyond the terminator. */
  lemma ScansThatGoBeyond()
    ensures Minify("\"a") == Overrun && Minify("/*") == Overrun && !Closes("\"a") && !Closes("/*")
  {
    CleanIsClosed("\"a");
    CleanIsClosed("/*");
  }

  // ----- the in-place scan

  /** *into++ = *json++ */
  method CopyOne(json: array<char>, from: nat, into: nat, ghost n: nat)
    requires into <= from < n < json.Length
    modifies json
    ensures json[..into + 1] == old(json[..into]) + [old(json[from])]
    ensures json[from + 1..n] == old(json[from + 1..n]) && json[n] == old(json[n])
  {
    json[into] := json[from];
  }

  method CopyTwo(json: array<char>, from: nat, into: nat, ghost n: nat)
    requires into <= from && from + 1 < n < json.Length
    modifies json
    ensures json[..into + 2] == old(json[..into]) + [old(json[from]), old(json[from + 1])]
    ensures json[from + 2..n] == old(json[from + 2..n]) && json[n] == old(json[n])
  {
    json[into] := json[from];
    json[into + 1] := json[from + 1];
  }

  method MinifyInPlace(json: array<char>, ghost n: nat)
    requires n < json.Length && json[n] == '\0' && '\0' !in json[..n]
    requires Closes(json[..n])
    modifies json
    ensures Minify(old(json[..n])) == Clean(KeptFrom(old(json[..n]), 0))
    ensures var m := KeptFrom(old(json[..n]), 0);
            |m| <= n && json[..|m|] == m && json[|m|] == '\0'
  {
    hide Minify, Keep, KeptFrom;
    ghost var r := Minify(json[..n]);
    MinifyKeeps(json[..n]);
    KeepNothing([], r);
    MinifyNothing();
    var from, into := 0, 0;
    assert json[..0] == [] && json[0..n] == json[..n];
    while json[from] != '\0'
      invariant 0 <= into <= from <= n && json[n] == '\0' && '\0' !in json[from..n]
      invariant r == Keep(json[..into], Minify(json[from..n]))
      decreases n - from
    {
      KeepIsClean(json[..into], Minify(json[from..n]));
      if json[from] == ' ' || json[from] == '\t' || json[from] == '\r' || json[from] == '\n' {
        OtherSteps(json[from..n]);
        assert json[from..n][1..] == json[from + 1..n];
        from := from + 1;
      } else if json[from] == '/' && json[from + 1] == '/' {
        from := SkipLine(json, from, n);
      } else if json[from] == '/' && json[from + 1] == '*' {
        from := SkipBlock(json, from, n);
      } else if json[from] == '\"' {
        from, into := CopyString(json, from, into, n, r);
      } else {
        from, into := CopyOther(json, from, into, n, r);
      }
    }
    assert json[from..n] == [] && json[..into] + [] == json[..into];
    KeepIsClean(json[..into], Minify([]));
    json[into] := '\0';
  }

  lemma MinifyNothing()
    ensures Minify([]) == Clean([])
  {
  }

  lemma KeepIsClean(p: string, m: Minified)
    ensures Keep(p, m).Clean? <==> m.Clean?
    ensures m.Clean? ==> Keep(p, m).s == p + m.s
  {
  }

  /** Blanks are dropped, and what opens nothing stays. */
  lemma OtherSteps(s: string)
    ensures s != [] && IsSpace(s[0]) ==> Minify(s) == Minify(s[1..])
    ensures s != [] && !IsSpace(s[0]) && s[0] != '\"' && !(|s| > 1 && s[0] == '/' && (s[1] == '/' || s[1] == '*')) ==>
              Minify(s) == Keep(s[..1], Minify(s[1..]))
  {
  }

  /** A byte outside strings, comments and blanks. */
  method CopyOther(json: array<char>, start: nat, at: nat, ghost n: nat, ghost r: Minified) returns (from: nat, into: nat)
    requires at <= start < n < json.Length && json[n] == '\0' && '\0' !in json[start..n]
    requires json[start] != '\"' && !IsSpace(json[start]) && !(json[start] == '/' && json[start + 1] in {'/', '*'})
    requires r == Keep(json[..at], Minify(json[start..n]))
    modifies json
    ensures from == start + 1 && into == at + 1 && json[n] == '\0' && '\0' !in json[from..n]
    ensures r == Keep(json[..into], Minify(json[from..n]))
  {
    hide Minify, Keep;
    ghost var s := json[start..n];
    OtherSteps(s);
    KeepKeeps(json[..at], s[..1], Minify(s[1..]));
    CopyOne(json, start, at, n);
    from, into := start + 1, at + 1;
    assert s == [s[0]] + json[from..n];
  }

  method SkipLine(json: array<char>, start: nat, ghost n: nat) returns (from: nat)
    requires start + 1 < n < json.Length && json[n] == '\0' && '\0' !in json[start..n]
    requires json[start] == '/' && json[start + 1] == '/'
    ensures start < from <= n && Minify(json[start..n]) == Minify(json[from..n])
  {
    hide Minify, InLine;
    from := start + 1;
    assert json[start..n][1..] == json[from..n];
    LineSteps(json[start..n]);
    while json[from] != '\0' && json[from] != '\n'
      invariant start < from <= n && Minify(json[start..n]) == InLine(json[from..n])
      decreases n - from
    {
      assert json[from..n][1..] == json[from + 1..n];
      LineSteps(json[from..n]);
      from := from + 1;
    }
    LineSteps(json[from..n]);
  }

  /** Into a line comment, along it, and out of it. */
  lemma LineSteps(s: string)
    ensures |s| > 1 && s[0] == '/' && s[1] == '/' ==> Minify(s) == InLine(s[1..])
    ensures if s == [] || s[0] == '\n' then InLine(s) == Minify(s) else InLine(s) == InLine(s[1..])
  {
  }

  method SkipBlock(json: array<char>, start: nat, ghost n: nat) returns (from: nat)
    requires start + 1 < n < json.Length && json[n] == '\0' && '\0' !in json[start..n]
    requires json[start] == '/' && json[start + 1] == '*' && Minify(json[start..n]).Clean?
    ensures start < from <= n && Minify(json[start..n]) == Minify(json[from..n])
  {
    from := start + 1;
    assert json[start..n][1..] == json[from..n];
    while json[from] != '\0' && !(json[from] == '*' && json[from + 1] == '/')
      invariant start < from <= n && Minify(json[start..n]) == InBlock(json[from..n])
      decreases n - from
    {
      assert json[from..n][1..] == json[from + 1..n];
      from := from + 1;
    }
    assert json[from..n] != [];
    assert from + 1 < n;
    assert json[from..n][2..] == json[from + 2..n];
    from := from + 2;
  }

  lemma StringStops(t: string, p: string, r: Minified)
    requires r.Clean? && r == Keep(p, InString(t)) && (t != [] ==> t[0] == '\"')
    ensures t != [] && InString(t) == Keep(t[..1], Minify(t[1..]))
  {
    hide Minify;
  }

  method CopyString(json: array<char>, start: nat, at: nat, ghost n: nat, ghost r: Minified) returns (from: nat, into: nat)
    requires at <= start < n < json.Length && json[n] == '\0' && '\0' !in json[start..n]
    requires json[start] == '\"' && r.Clean? && r == Keep(json[..at], Minify(json[start..n]))
    modifies json
    ensures into <= from && start < from <= n
    ensures json[n] == '\0' && '\0' !in json[from..n]
    ensures r == Keep(json[..into], Minify(json[from..n]))
  {
    hide Minify, InString, Keep;
    ghost var s := json[start..n];
    AfterQuote(s);
    KeepKeeps(json[..at], s[..1], InString(s[1..]));
    CopyOne(json, start, at, n);
    from, into := start + 1, at + 1;
    assert s == [s[0]] + json[from..n];
    while json[from] != '\0' && json[from] != '\"'
      invariant start < from <= n && into <= from && json[n] == '\0' && '\0' !in json[from..n]
      invariant r == Keep(json[..into], InString(json[from..n]))
      decreases n - from
    {
      from, into := CopyStep(json, from, into, n, r);
    }
    ghost var t := json[from..n];
    StringStops(t, json[..into], r);
    KeepKeeps(json[..into], t[..1], Minify(t[1..]));
    CopyOne(json, from, into, n);
    from, into := from + 1, into + 1;
    assert t == [t[0]] + json[from..n];
  }

  /** One round inside a string: an escape goes as a pair. */
  method CopyStep(json: array<char>, start: nat, at: nat, ghost n: nat, ghost r: Minified) returns (from: nat, into: nat)
    requires at <= start < n < json.Length && json[n] == '\0' && '\0' !in json[start..n] && json[start] != '\"'
    requires r.Clean? && r == Keep(json[..at], InString(json[start..n]))
    modifies json
    ensures into <= from && start < from <= n && json[n] == '\0' && '\0' !in json[from..n]
    ensures r == Keep(json[..into], InString(json[from..n]))
  {
    ghost var s := json[start..n];
    from, into := start, at;
    if json[from] == '\\' {
      assert |s| > 1 && s == [s[0], s[1]] + s[2..] && s[2..] == json[start + 2..n];
      KeepKeeps(json[..at], s[..2], InString(s[2..]));
      CopyTwo(json, from, into, n);
      from, into := from + 2, into + 2;
    } else {
      KeepKeeps(json[..at], s[..1], InString(s[1..]));
      CopyOne(json, from, into, n);
      from, into := from + 1, into + 1;
      assert s == [s[0]] + json[from..n];
    }
  }

  // ----- what it does to printed text

  lemma {:induction false} MinifyPlain(a: string, rest: string)
    requires forall i :: 0 <= i < |a| ==> !IsSpace(a[i]) && a[i] != '/' && a[i] != '\"'
    ensures Minify(a + rest) == Keep(a, Minify(rest))
    decreases |a|
  {
    if a == [] {
      assert a + rest == rest;
      if Minify(rest).Clean? { assert [] + Minify(rest).s == Minify(rest).s; }
    } else {
      MinifyPlain(a[1..], rest);
      assert (a + rest)[1..] == a[1..] + rest && (a + rest)[..1] == a[..1] && a == a[..1] + a[1..];
      KeepKeeps(a[..1], a[1..], Minify(rest));
    }
  }

  lemma {:induction false} MinifyBlank(w: string, rest: string)
    requires forall i :: 0 <= i < |w| ==> IsSpace(w[i])
    ensures Minify(w + rest) == Minify(rest)
    decreases |w|
  {
    if w == [] {
      assert w + rest == rest;
    } else {
      assert (w + rest)[1..] == w[1..] + rest;
      MinifyBlank(w[1..], rest);
    }
  }

  lemma PlainInString(c: char, rest: string)
    requires c != '\"' && c != '\\'
    ensures InString([c] + rest) == Keep([c], InString(rest))
  {
    assert ([c] + rest)[1..] == rest && ([c] + rest)[..1] == [c];
  }

  lemma {:induction false} PlainsInString(t: string, rest: string)
    requires '\"' !in t && '\\' !in t
    ensures InString(t + rest) == Keep(t, InString(rest))
    decreases |t|
  {
    hide InString;
    if t == [] {
      assert t + rest == rest;
    } else {
      assert t + rest == [t[0]] + (t[1..] + rest) && [t[0]] + t[1..] == t;
      PlainInString(t[0], t[1..] + rest);
      PlainsInString(t[1..], rest);
      KeepKeeps([t[0]], t[1..], InString(rest));
    }
  }

  /** A backslash and the byte behind it. */
  lemma PairInString(c: char, rest: string)
    ensures InString(['\\', c] + rest) == Keep(['\\', c], InString(rest))
  {
    var s := ['\\', c] + rest;
    assert s[..2] == ['\\', c] && s[2..] == rest;
  }

  lemma EscapeInString(c: char, rest: string)
    ensures InString(Escape(c) + rest) == Keep(Escape(c), InString(rest))
  {
    hide Escape, InString;
    var e := Escape(c);
    EscapeShape(c);
    if |e| == 1 {
      assert e == [e[0]];
      PlainInString(e[0], rest);
    } else {
      var pair, tail := ['\\', e[1]], e[2..];
      assert e + rest == pair + (tail + rest) && pair + tail == e;
      PairInString(e[1], tail + rest);
      PlainsInString(tail, rest);
      KeepKeeps(pair, tail, InString(rest));
    }
  }

  lemma {:induction false} EscapedInString(s: string, rest: string)
    ensures InString(Escaped(s) + (['\"'] + rest)) == Keep(Escaped(s) + ['\"'], Minify(rest))
    decreases |s|
  {
    var q := ['\"'] + rest;
    if s == [] {
      assert [] + q == q && q[1..] == rest && q[..1] == ['\"'] && Escaped(s) + ['\"'] == ['\"'];
    } else {
      EscapedInString(s[1..], rest);
      Assoc(Escape(s[0]), Escaped(s[1..]), q);
      EscapeInString(s[0], Escaped(s[1..]) + q);
      KeepKeeps(Escape(s[0]), Escaped(s[1..]) + ['\"'], Minify(rest));
      Assoc(Escape(s[0]), Escaped(s[1..]), ['\"']);
    }
  }

  lemma StringUntouched(s: string, rest: string)
    ensures Minify(PrintStr(s) + rest) == Keep(PrintStr(s), Minify(rest))
  {
    hide Minify, InString, Escaped;
    var e := Escaped(s);
    var t := PrintStr(s) + rest;
    EscapedInString(s, rest);
    AfterQuote(t);
    assert t[..1] == ['\"'] && t[1..] == e + (['\"'] + rest);
    KeepKeeps(['\"'], e + ['\"'], Minify(rest));
    assert ['\"'] + (e + ['\"']) == PrintStr(s);
  }

  lemma NumberUntouched(n: int, rest: string)
    ensures Minify(PrintNumber(n) + rest) == Keep(PrintNumber(n), Minify(rest))
  {
    DecimalShape(if n < 0 then -n else n);
    MinifyPlain(PrintNumber(n), rest);
  }

  lemma {:induction false} ValueMinifies(v: Json, depth: nat, d: nat, rest: string)
    ensures Minify(PrintValue(v, depth, true) + rest) == Keep(PrintValue(v, d, false), Minify(rest))
    decreases v
  {
    hide Minify, PrintElems;
    match v {
      case Null => MinifyPlain("null", rest);
      case False => MinifyPlain("false", rest);
      case True => MinifyPlain("true", rest);
      case Number(d) => NumberUntouched(d.Floor, rest);
      case Str(s) => StringUntouched(s, rest);
      case Array(es) =>
        if es.NoElem? {
          MinifyPlain("[]", rest);
        } else {
          var p, q := PrintElems(es, depth + 1, true), PrintElems(es, d + 1, false);
          Bracketed("[", p, "]", rest);
          MinifyPlain("[", p + ("]" + rest));
          ElemsMinify(es, depth + 1, d + 1, "]" + rest);
          MinifyPlain("]", rest);
          KeepThree("[", q, "]", Minify(rest));
        }
      case Object(ms) =>
        ObjectMinifies(ms, depth, d, rest);
    }
  }

  lemma Bracketed(a: string, b: string, c: string, rest: string)
    ensures (a + (b + c)) + rest == a + (b + (c + rest))
  {
  }

  lemma KeepThree(a: string, b: string, c: string, m: Minified)
    ensures Keep(a, Keep(b, Keep(c, m))) == Keep(a + (b + c), m)
  {
    KeepKeeps(b, c, m);
    KeepKeeps(a, b + c, m);
  }

  lemma {:induction false} ElemsMinify(es: Elems, depth: nat, d: nat, rest: string)
    requires es.Elem?
    ensures Minify(PrintElems(es, depth, true) + rest) == Keep(PrintElems(es, d, false), Minify(rest))
    decreases es
  {
    hide Minify;
    var p, q := PrintValue(es.value, depth, true), PrintValue(es.value, d, false);
    if es.next.NoElem? {
      assert p + "" == p && q + "" == q;
      ValueMinifies(es.value, depth, d, rest);
    } else {
      var p2, q2 := PrintElems(es.next, depth, true), PrintElems(es.next, d, false);
      Bracketed(p, ", ", p2, rest);
      ValueMinifies(es.value, depth, d, ", " + (p2 + rest));
      assert ", " + (p2 + rest) == "," + (" " + (p2 + rest));
      MinifyPlain(",", " " + (p2 + rest));
      MinifyBlank(" ", p2 + rest);
      ElemsMinify(es.next, depth, d, rest);
      KeepThree(q, ",", q2, Minify(rest));
    }
  }

  lemma ObjectText(ms: Members, depth: nat, fmt: bool, rest: string, p: string)
    requires p == if ms.NoMember? then "" else PrintMembers(ms, depth + 1, fmt)
    ensures PrintValue(Object(ms), depth, fmt) + rest == "{" + (OpenGap(fmt) + (p + (Indent(depth, fmt) + ("}" + rest))))
  {
    hide OpenGap, Indent;
    var a, b := OpenGap(fmt), Indent(depth, fmt);
    assert PrintValue(Object(ms), depth, fmt) == "{" + (a + (p + b) + "}") by { assert "" + b == b; }
    Nested("{", a, p, b, "}", rest);
  }

  lemma Nested(o: string, a: string, p: string, b: string, c: string, rest: string)
    ensures (o + (a + (p + b) + c)) + rest == o + (a + (p + (b + (c + rest))))
  {
    Assoc(o, a + (p + b) + c, rest);
    Assoc(a + (p + b), c, rest);
    Assoc(a, p + b, c + rest);
    Assoc(p, b, c + rest);
  }

  lemma PlainObjectText(ms: Members, d: nat, q: string)
    requires q == if ms.NoMember? then "" else PrintMembers(ms, d + 1, false)
    ensures PrintValue(Object(ms), d, false) == "{" + (q + "}")
  {
    hide PrintValue, PrintMembers;
    ObjectText(ms, d, false, "", q);
    assert PrintValue(Object(ms), d, false) + "" == PrintValue(Object(ms), d, false);
    assert "}" + "" == "}" && "" + ("}" + "") == "}" && "" + (q + "}") == q + "}";
  }

  lemma {:induction false} ObjectMinifies(ms: Members, depth: nat, d: nat, rest: string)
    ensures Minify(PrintValue(Object(ms), depth, true) + rest) == Keep(PrintValue(Object(ms), d, false), Minify(rest))
    decreases ms, 1
  {
    hide Minify, PrintMembers, PrintValue;
    var end := "}" + rest;
    var x := Tabs(depth) + end;
    var p := if ms.NoMember? then "" else PrintMembers(ms, depth + 1, true);
    var q := if ms.NoMember? then "" else PrintMembers(ms, d + 1, false);
    ObjectText(ms, depth, true, rest, p);
    PlainObjectText(ms, d, q);
    MinifyPlain("{", "\n" + (p + x));
    MinifyBlank("\n", p + x);
    MinifyBlank(Tabs(depth), end);
    MinifyPlain("}", rest);
    if ms.NoMember? {
      assert p + x == x;
      KeepKeeps(q, "}", Minify(rest));
      assert q + "}" == "}";
    } else {
      MembersMinify(ms, depth + 1, d + 1, x);
    }
    KeepThree("{", q, "}", Minify(rest));
  }

  lemma {:induction false} MembersMinify(ms: Members, depth: nat, d: nat, rest: string)
    requires ms.Member?
    ensures Minify(PrintMembers(ms, depth, true) + rest) == Keep(PrintMembers(ms, d, false), Minify(rest))
    decreases ms, 0
  {
    hide Minify, PrintMembers, PrintValue, PrintStr;
    var name, p, q := PrintStr(ms.name), PrintValue(ms.value, depth, true), PrintValue(ms.value, d, false);
    var more := if ms.next.Member? then PrintMembers(ms.next, depth, true) else "";
    var less := if ms.next.Member? then PrintMembers(ms.next, d, false) else "";
    var comma := if ms.next.Member? then "," else "";
    MemberTexts(ms, depth, d, more, less, rest);
    var a := comma + ("\n" + (more + rest));
    MinifyBlank(Tabs(depth), name + (":" + ("\t" + (p + a))));
    StringUntouched(ms.name, ":" + ("\t" + (p + a)));
    MinifyPlain(":", "\t" + (p + a));
    MinifyBlank("\t", p + a);
    ValueMinifies(ms.value, depth, d, a);
    MinifyPlain(comma, "\n" + (more + rest));
    MinifyBlank("\n", more + rest);
    if ms.next.Member? {
      MembersMinify(ms.next, depth, d, rest);
    } else {
      KeepNothing(rest, Minify(rest));
    }
    KeepThree(q, comma, less, Minify(rest));
    KeepThree(name, ":", q + (comma + less), Minify(rest));
  }

  lemma KeepNothing(rest: string, m: Minified)
    ensures "" + rest == rest && Keep("", m) == m
  {
    if m.Clean? { assert "" + m.s == m.s; }
  }

  lemma MemberTexts(ms: Members, depth: nat, d: nat, more: string, less: string, rest: string)
    requires ms.Member?
    requires more == if ms.next.Member? then PrintMembers(ms.next, depth, true) else ""
    requires less == if ms.next.Member? then PrintMembers(ms.next, d, false) else ""
    ensures var comma := if ms.next.Member? then "," else "";
            && PrintMembers(ms, depth, true) + rest
                 == Tabs(depth) + (PrintStr(ms.name) + (":" + ("\t" + (PrintValue(ms.value, depth, true) + (comma + ("\n" + (more + rest)))))))
            && PrintMembers(ms, d, false) == PrintStr(ms.name) + (":" + (PrintValue(ms.value, d, false) + (comma + less)))
  {
    hide PrintStr, Tabs;
    var name, p := PrintStr(ms.name), PrintValue(ms.value, depth, true);
    var comma := if ms.next.Member? then "," else "";
    var gap := MemberGap(ms.next.Member?, true);
    assert PrintMembers(ms, depth, true) == Tabs(depth) + (name + (":\t" + (p + (gap + more))));
    assert PrintMembers(ms, d, false) == PrintStr(ms.name) + (":" + (PrintValue(ms.value, d, false) + (comma + less))) by {
      assert comma + "" == comma;
      assert Indent(d, false) == "" && forall x: string :: "" + x == x;
    }
    Assoc(Tabs(depth), name + (":\t" + (p + (gap + more))), rest);
    Reassociate(name, ":\t", p, gap, more, rest);
    Assoc(comma, "\n", more + rest);
    assert gap == comma + "\n";
    Assoc(":", "\t", p + (gap + (more + rest)));
    assert ":\t" == ":" + "\t";
  }

  /** Minifying formatted text gives the unformatted text, for every value. */
  lemma MinifyIsUnformatted(v: Json)
    ensures Minify(PrintValue(v, 0, true)) == Clean(PrintValue(v, 0, false))
  {
    ValueMinifies(v, 0, 0, "");
    assert PrintValue(v, 0, true) + "" == PrintValue(v, 0, true);
    assert PrintValue(v, 0, false) + "" == PrintValue(v, 0, false);
  }
}
