/** The printer of cJSON.c that allocates every piece: the pieces of a list are printed first, their
    lengths give the size of the block, and the block is then filled without another test. */
module JsonPrint {
  import opened JsonText
  import opened JsonBuffer

  // ----- the pieces of a list, and the block they ask for

  function ElemTexts(es: Elems, depth: nat, fmt: bool): (t: seq<string>)
    ensures StorableElems(es) ==> forall i :: 0 <= i < |t| ==> NoNul(t[i])
  {
    if es.NoElem? then []
    else
      assert StorableElems(es) ==> NoNul(PrintValue(es.value, depth, fmt)) by {
        if StorableElems(es) { ValueNoNul(es.value, depth, fmt); }
      }
      [PrintValue(es.value, depth, fmt)] + ElemTexts(es.next, depth, fmt)
  }

  function ValueTexts(ms: Members, depth: nat, fmt: bool): (t: seq<string>)
    ensures StorableMembers(ms) ==> forall i :: 0 <= i < |t| ==> NoNul(t[i])
  {
    if ms.NoMember? then []
    else
      assert StorableMembers(ms) ==> NoNul(PrintValue(ms.value, depth, fmt)) by {
        if StorableMembers(ms) { ValueNoNul(ms.value, depth, fmt); }
      }
      [PrintValue(ms.value, depth, fmt)] + ValueTexts(ms.next, depth, fmt)
  }

  function NameTexts(ms: Members): (t: seq<string>)
    ensures StorableMembers(ms) ==> forall i :: 0 <= i < |t| ==> NoNul(t[i])
  {
    if ms.NoMember? then []
    else
      assert StorableMembers(ms) ==> NoNul(PrintStr(ms.name)) by {
        if StorableMembers(ms) { StrNoNul(ms.name); }
      }
      [PrintStr(ms.name)] + NameTexts(ms.next)
  }

  /** What the pieces add to len, each with extra bytes besides. */
  function Room(texts: seq<string>, extra: nat): nat {
    if texts == [] then 0 else |texts[0]| + extra + Room(texts[1..], extra)
  }

  /** The elements from the first of texts on. */
  function Row(texts: seq<string>, fmt: bool): string {
    if texts == [] then ""
    else texts[0] + if |texts| > 1 then ElemGap(fmt) + Row(texts[1..], fmt) else ""
  }

  /** The members from the first of names on. */
  function Rows(names: seq<string>, texts: seq<string>, depth: nat, fmt: bool): string
    requires |names| == |texts|
  {
    if names == [] then ""
    else
      Indent(depth, fmt) + (names[0] + (NameGap(fmt) + (texts[0]
      + (MemberGap(|names| > 1, fmt) + Rows(names[1..], texts[1..], depth, fmt)))))
  }

  lemma {:induction false} RowIsElems(es: Elems, depth: nat, fmt: bool)
    requires es.Elem?
    ensures Row(ElemTexts(es, depth, fmt), fmt) == PrintElems(es, depth, fmt)
    decreases es
  {
    var t := ElemTexts(es.next, depth, fmt);
    assert ElemTexts(es, depth, fmt)[1..] == t;
    if es.next.Elem? { RowIsElems(es.next, depth, fmt); }
  }

  lemma {:induction false} SameCount(ms: Members, depth: nat, fmt: bool)
    ensures |NameTexts(ms)| == |ValueTexts(ms, depth, fmt)|
    decreases ms
  {
    if ms.Member? { SameCount(ms.next, depth, fmt); }
  }

  lemma {:induction false} RowsAreMembers(ms: Members, depth: nat, fmt: bool)
    requires ms.Member?
    ensures |NameTexts(ms)| == |ValueTexts(ms, depth, fmt)|
    ensures Rows(NameTexts(ms), ValueTexts(ms, depth, fmt), depth, fmt) == PrintMembers(ms, depth, fmt)
    decreases ms
  {
    hide PrintValue, PrintStr;
    assert NameTexts(ms)[1..] == NameTexts(ms.next);
    assert ValueTexts(ms, depth, fmt)[1..] == ValueTexts(ms.next, depth, fmt);
    if ms.next.Member? { RowsAreMembers(ms.next, depth, fmt); }
  }

  /** The block of an array has room for its text and the terminator. */
  lemma {:induction false} RowFits(texts: seq<string>, fmt: bool)
    requires texts != []
    ensures |Row(texts, fmt)| + (if fmt then 2 else 1) <= Room(texts, if fmt then 3 else 2)
    decreases |texts|
  {
    if |texts| > 1 { RowFits(texts[1..], fmt); }
  }

  /** The block of an object has room for its text and the terminator. */
  lemma {:induction false} RowsFit(names: seq<string>, texts: seq<string>, depth: nat, fmt: bool)
    requires |names| == |texts|
    ensures |Rows(names, texts, depth, fmt)| <= Room(names, 0) + Room(texts, if fmt then 4 + depth else 2)
    decreases |names|
  {
    if names != [] { RowsFit(names[1..], texts[1..], depth, fmt); }
  }

  // ----- methods

  /** A block of size bytes with the text in it. */
  method Fresh(text: string, size: nat) returns (out: array<char>)
    requires |text| < size && NoNul(text)
    ensures fresh(out) && out.Length == size && Holds(out, text)
  {
    out := new char[size](_ => 'x');
    Write(out, 0, text + ['\0']);
    assert out[0..|text| + 1] == text + ['\0'];
    assert out[..|text|] == (text + ['\0'])[..|text|] && out[|text|] == (text + ['\0'])[|text|];
  }

  /** strlen */
  method StrLen(p: array<char>, ghost t: string) returns (n: nat)
    requires Holds(p, t)
    ensures n == |t|
  {
    n := 0;
    while p[n] != '\0'
      invariant n <= |t|
      decreases |t| - n
    {
      n := n + 1;
    }
  }

  /** print_string_ptr without a buffer. */
  method PrintStringPtr(s: string) returns (out: array<char>)
    requires CString(s)
    ensures fresh(out) && Holds(out, PrintStr(s))
  {
    StrNoNul(s);
    var flag, len := Measure(s);
    if !flag {
      out := Fresh(['\"'] + s + ['\"'], len + 3);
      return;
    }
    out := new char[len + 3](_ => 'x');
    WriteQuoted(out, 0, s);
    assert out[0..|PrintStr(s)|] == out[..|PrintStr(s)|];
  }

  /** print_value without a buffer. */
  method PrintItem(v: Json, depth: nat, fmt: bool) returns (out: array<char>)
    requires Storable(v) && Ints(v)
    ensures fresh(out) && Holds(out, PrintValue(v, depth, fmt))
    decreases v, 1
  {
    ValueNoNul(v, depth, fmt);
    match v {
      case Null => out := Fresh("null", 5);
      case False => out := Fresh("false", 6);
      case True => out := Fresh("true", 5);
      case Number(d) => out := Fresh(PrintNumber(d.Floor), NumberRoom(d.Floor));
      case Str(s) => out := PrintStringPtr(s);
      case Array(es) => out := PrintArray(es, depth, fmt);
      case Object(ms) => out := PrintObject(ms, depth, fmt);
    }
  }

  /** The pointers stored so far hold the first of the texts. */
  ghost predicate Rendered(entries: seq<array<char>>, texts: seq<string>)
    reads set e | e in entries
  {
    |entries| <= |texts| && forall i :: 0 <= i < |entries| ==> Holds(entries[i], texts[i])
  }

  lemma OneRendered(entries: seq<array<char>>, texts: seq<string>, p: array<char>)
    requires Rendered(entries, texts) && |entries| < |texts| && Holds(p, texts[|entries|])
    ensures Rendered(entries + [p], texts)
  {
    hide Holds;
  }

  lemma Tail(texts: seq<string>, i: nat, extra: nat)
    requires i < |texts|
    ensures texts[i..][0] == texts[i] && texts[i..][1..] == texts[i + 1..]
    ensures Room(texts[i..], extra) == |texts[i]| + extra + Room(texts[i + 1..], extra)
  {
  }

  lemma ElemsStep(es: Elems, depth: nat, fmt: bool, texts: seq<string>, i: nat)
    requires es.Elem? && StorableElems(es) && IntElems(es) && i <= |texts| && ElemTexts(es, depth, fmt) == texts[i..]
    ensures i < |texts| && texts[i] == PrintValue(es.value, depth, fmt) && ElemTexts(es.next, depth, fmt) == texts[i + 1..]
    ensures Storable(es.value) && Ints(es.value) && StorableElems(es.next) && IntElems(es.next)
  {
    hide PrintValue, Storable, Ints;
    assert texts[i] == texts[i..][0] && texts[i + 1..] == texts[i..][1..];
  }

  /** The texts of the elements, each in its own block, and the size of the block for all. */
  method PrintEntries(es: Elems, depth: nat, fmt: bool) returns (entries: seq<array<char>>, len: nat)
    requires StorableElems(es) && IntElems(es)
    ensures |entries| == |ElemTexts(es, depth, fmt)| && Rendered(entries, ElemTexts(es, depth, fmt))
    ensures len == 5 + Room(ElemTexts(es, depth, fmt), if fmt then 3 else 2)
    decreases es, 0
  {
    hide Room, Holds, Rendered, PrintValue, ElemTexts, StorableElems, IntElems, Storable, Ints;
    ghost var texts := ElemTexts(es, depth, fmt);
    ghost var extra := if fmt then 3 else 2;
    entries, len := [], 5;
    assert Rendered(entries, texts) by { EmptyRendered(texts); }
    var child := es;
    while child.Elem?
      invariant |entries| <= |texts| && ElemTexts(child, depth, fmt) == texts[|entries|..]
      invariant len + Room(texts[|entries|..], extra) == 5 + Room(texts, extra)
      invariant StorableElems(child) && IntElems(child) && (child == es || child < es)
      invariant Rendered(entries, texts)
      decreases child
    {
      ElemsStep(child, depth, fmt, texts, |entries|);
      Tail(texts, |entries|, extra);
      var ret := PrintItem(child.value, depth, fmt);
      var size := StrLen(ret, texts[|entries|]);
      OneRendered(entries, texts, ret);
      entries := entries + [ret];
      len := len + size + 2 + if fmt then 1 else 0;
      child := child.next;
    }
    NoTexts(child, depth, fmt);
    RoomEnds(texts, extra);
  }

  lemma NoTexts(es: Elems, depth: nat, fmt: bool)
    requires es.NoElem?
    ensures ElemTexts(es, depth, fmt) == []
  {
  }

  lemma RoomEnds(texts: seq<string>, extra: nat)
    ensures Room(texts[|texts|..], extra) == 0
  {
  }

  lemma EmptyRendered(texts: seq<string>)
    ensures Rendered([], texts)
  {
  }

  /** memcpy of a text. */
  method Copy(out: array<char>, at: nat, p: array<char>, ghost t: string) returns (next: nat)
    requires out != p && Holds(p, t) && at + |t| <= out.Length
    modifies out
    ensures next == at + |t| && out[..next] == old(out[..at]) + t
  {
    var n := StrLen(p, t);
    Write(out, at, p[..n]);
    next := at + n;
    assert out[..next] == out[..at] + out[at..next];
  }

  /** *ptr++ = ..., where the text so far ends. */
  method Add(out: array<char>, at: nat, text: string) returns (next: nat)
    requires at + |text| <= out.Length
    modifies out
    ensures next == at + |text| && out[..next] == old(out[..at]) + text
  {
    Write(out, at, text);
    next := at + |text|;
    assert out[..next] == out[..at] + out[at..next];
  }

  /** The closing bracket and the terminator. */
  method Finish(out: array<char>, at: nat, end: string, ghost whole: string)
    requires at + |end| < out.Length && out[..at] + end == whole && NoNul(whole)
    modifies out
    ensures Holds(out, whole)
  {
    var next := Add(out, at, end);
    out[next] := '\0';
    assert out[..next] == whole;
  }

  /** print_array without a buffer. */
  method PrintArray(es: Elems, depth: nat, fmt: bool) returns (out: array<char>)
    requires StorableElems(es) && IntElems(es)
    ensures fresh(out) && Holds(out, PrintValue(Array(es), depth, fmt))
    decreases es, 1
  {
    if es.NoElem? {
      out := Fresh("[]", 3);
      return;
    }
    ghost var texts := ElemTexts(es, depth + 1, fmt);
    var entries, len := PrintEntries(es, depth + 1, fmt);
    RowFits(texts, fmt);
    RowIsElems(es, depth + 1, fmt);
    ValueNoNul(Array(es), depth, fmt);
    var at;
    out, at := Compose(entries, texts, len, fmt);
    Finish(out, at, "]", PrintValue(Array(es), depth, fmt));
  }

  /** The composing loop over the elements. */
  method Compose(entries: seq<array<char>>, ghost texts: seq<string>, len: nat, fmt: bool) returns (out: array<char>, at: nat)
    requires |entries| == |texts| && Rendered(entries, texts) && |Row(texts, fmt)| < len
    ensures fresh(out) && out.Length == len && at <= len && out[..at] == "[" + Row(texts, fmt)
  {
    hide Holds, Rendered, Row;
    out := new char[len](_ => 'x');
    at := Add(out, 0, "[");
    assert texts[0..] == texts;
    for i := 0 to |entries|
      invariant at + |Row(texts[i..], fmt)| <= out.Length && out[..at] + Row(texts[i..], fmt) == "[" + Row(texts, fmt)
      invariant Rendered(entries, texts) && out !in entries
    {
      at := PutEntry(out, at, entries, texts, i, fmt);
    }
    RowEnds(texts, fmt);
    assert out[..at] + "" == out[..at];
  }

  lemma RowEnds(texts: seq<string>, fmt: bool)
    ensures Row(texts[|texts|..], fmt) == ""
  {
  }

  /** One element and the gap after it. */
  method PutEntry(out: array<char>, at: nat, entries: seq<array<char>>, ghost texts: seq<string>, i: nat, fmt: bool)
    returns (next: nat)
    requires i < |entries| == |texts| && Rendered(entries, texts) && out !in entries
    requires at + |Row(texts[i..], fmt)| <= out.Length
    modifies out
    ensures next + |Row(texts[i + 1..], fmt)| <= out.Length
    ensures out[..next] + Row(texts[i + 1..], fmt) == old(out[..at]) + Row(texts[i..], fmt)
  {
    RowStep(out[..at], texts, i, fmt);
    hide Row, Holds;
    next := Copy(out, at, entries[i], texts[i]);
    if i != |entries| - 1 {
      next := Add(out, next, ElemGap(fmt));
    }
  }

  lemma RowStep(text: string, texts: seq<string>, i: nat, fmt: bool)
    requires i < |texts|
    ensures text + Row(texts[i..], fmt)
         == (if i + 1 < |texts| then (text + texts[i]) + ElemGap(fmt) else text + texts[i]) + Row(texts[i + 1..], fmt)
  {
    assert texts[i..][1..] == texts[i + 1..];
    if i + 1 < |texts| {
      Assoc(text, texts[i], ElemGap(fmt) + Row(texts[i + 1..], fmt));
      Assoc(text + texts[i], ElemGap(fmt), Row(texts[i + 1..], fmt));
    }
  }

  /** The member whose texts stand at position i. */
  lemma PairTail(child: Members, depth: nat, fmt: bool, keys: seq<string>, texts: seq<string>, i: nat)
    requires child.Member? && i <= |keys| == |texts|
    requires NameTexts(child) == keys[i..] && ValueTexts(child, depth, fmt) == texts[i..]
    ensures i < |keys| && keys[i] == PrintStr(child.name) && texts[i] == PrintValue(child.value, depth, fmt)
    ensures NameTexts(child.next) == keys[i + 1..] && ValueTexts(child.next, depth, fmt) == texts[i + 1..]
  {
    hide PrintValue, PrintStr;
    assert keys[i..][0] == keys[i] && keys[i..][1..] == keys[i + 1..];
    assert texts[i..][0] == texts[i] && texts[i..][1..] == texts[i + 1..];
    assert NameTexts(child)[1..] == NameTexts(child.next);
    assert ValueTexts(child, depth, fmt)[1..] == ValueTexts(child.next, depth, fmt);
  }

  lemma NoPairs(depth: nat, fmt: bool)
    ensures NameTexts(NoMember) == [] && ValueTexts(NoMember, depth, fmt) == []
  {
  }

  /** The name and the value of one member, and their length. */
  method PrintPair(child: Members, depth: nat, fmt: bool) returns (str: array<char>, ret: array<char>, len: nat)
    requires child.Member? && StorableMembers(child) && IntMembers(child)
    ensures Holds(str, PrintStr(child.name)) && Holds(ret, PrintValue(child.value, depth, fmt))
    ensures len == |PrintStr(child.name)| + |PrintValue(child.value, depth, fmt)|
    decreases child, 0
  {
    hide Holds, PrintValue, PrintStr;
    str := PrintStringPtr(child.name);
    ret := PrintItem(child.value, depth, fmt);
    var m := StrLen(ret, PrintValue(child.value, depth, fmt));
    var n := StrLen(str, PrintStr(child.name));
    len := m + n;
  }

  /** The names and the values of the members, and the size of the block for all. */
  method PrintPairs(ms: Members, depth: nat, fmt: bool)
    returns (names: seq<array<char>>, entries: seq<array<char>>, len: nat)
    requires StorableMembers(ms) && IntMembers(ms)
    ensures |names| == |NameTexts(ms)| && Rendered(names, NameTexts(ms))
    ensures |entries| == |ValueTexts(ms, depth, fmt)| && Rendered(entries, ValueTexts(ms, depth, fmt))
    ensures len == 7 + (if fmt then depth else 0) + Room(NameTexts(ms), 0) + Room(ValueTexts(ms, depth, fmt), if fmt then 4 + depth else 2)
    decreases ms, 1
  {
    hide Room, Holds, Rendered, PrintValue, PrintStr, NameTexts, ValueTexts;
    ghost var keys, texts := NameTexts(ms), ValueTexts(ms, depth, fmt);
    ghost var extra := if fmt then 4 + depth else 2;
    names, entries, len := [], [], 7 + if fmt then depth else 0;
    ghost var all := len + Room(keys, 0) + Room(texts, extra);
    EmptyRendered(keys);
    EmptyRendered(texts);
    SameCount(ms, depth, fmt);
    var child := ms;
    while child.Member?
      invariant |names| == |entries| <= |keys| == |texts|
      invariant NameTexts(child) == keys[|names|..] && ValueTexts(child, depth, fmt) == texts[|names|..]
      invariant len + Room(keys[|names|..], 0) + Room(texts[|names|..], extra) == all
      invariant StorableMembers(child) && IntMembers(child) && (child == ms || child < ms)
      invariant Rendered(names, keys) && Rendered(entries, texts)
      decreases child
    {
      PairTail(child, depth, fmt, keys, texts, |names|);
      Tail(keys, |names|, 0);
      Tail(texts, |names|, extra);
      var str, ret, n := PrintPair(child, depth, fmt);
      OneRendered(names, keys, str);
      OneRendered(entries, texts, ret);
      names, entries := names + [str], entries + [ret];
      len := len + n + 2 + if fmt then 2 + depth else 0;
      child := child.next;
    }
    NoPairs(depth, fmt);
    RoomEnds(keys, 0);
    RoomEnds(texts, extra);
  }

  /** print_object without a buffer. */
  method PrintObject(ms: Members, depth: nat, fmt: bool) returns (out: array<char>)
    requires StorableMembers(ms) && IntMembers(ms)
    ensures fresh(out) && Holds(out, PrintValue(Object(ms), depth, fmt))
    decreases ms, 2
  {
    hide Rows, Rendered, Holds, NameTexts, ValueTexts, PrintMembers;
    ValueNoNul(Object(ms), depth, fmt);
    if ms.NoMember? {
      out := Fresh(PrintValue(Object(ms), depth, fmt), if fmt then depth + 4 else 3);
      return;
    }
    ghost var keys, texts := NameTexts(ms), ValueTexts(ms, depth + 1, fmt);
    var names, entries, len := PrintPairs(ms, depth + 1, fmt);
    SameCount(ms, depth + 1, fmt);
    RowsFit(keys, texts, depth + 1, fmt);
    RowsAreMembers(ms, depth + 1, fmt);
    ObjectWhole(ms, depth, fmt);
    var at;
    out, at := ComposePairs(names, entries, keys, texts, len, depth + 1, fmt);
    Finish(out, at, Indent(depth, fmt) + "}", PrintValue(Object(ms), depth, fmt));
  }

  /** The composing loop over the members. */
  method ComposePairs(names: seq<array<char>>, entries: seq<array<char>>, ghost keys: seq<string>, ghost texts: seq<string>,
                      len: nat, depth: nat, fmt: bool) returns (out: array<char>, at: nat)
    requires |names| == |entries| == |keys| == |texts| && Rendered(names, keys) && Rendered(entries, texts)
    requires 2 + |Rows(keys, texts, depth, fmt)| < len
    ensures fresh(out) && out.Length == len && at <= len && out[..at] == "{" + OpenGap(fmt) + Rows(keys, texts, depth, fmt)
  {
    hide Holds, Rendered, Rows;
    out := new char[len](_ => 'x');
    at := Add(out, 0, "{" + OpenGap(fmt));
    assert texts[0..] == texts && keys[0..] == keys;
    for i := 0 to |entries|
      invariant at + |Rows(keys[i..], texts[i..], depth, fmt)| <= out.Length
      invariant out[..at] + Rows(keys[i..], texts[i..], depth, fmt) == "{" + OpenGap(fmt) + Rows(keys, texts, depth, fmt)
      invariant Rendered(names, keys) && Rendered(entries, texts) && out !in names && out !in entries
    {
      at := PutPair(out, at, names, entries, keys, texts, i, depth, fmt);
    }
    RowsEnd(keys, texts, depth, fmt);
    assert out[..at] + "" == out[..at];
  }

  lemma RowsEnd(names: seq<string>, texts: seq<string>, depth: nat, fmt: bool)
    requires |names| == |texts|
    ensures Rows(names[|names|..], texts[|texts|..], depth, fmt) == ""
  {
  }

  /** One member with its indentation and the gap after it. */
  method PutPair(out: array<char>, at: nat, names: seq<array<char>>, entries: seq<array<char>>,
                 ghost keys: seq<string>, ghost texts: seq<string>, i: nat, depth: nat, fmt: bool) returns (next: nat)
    requires i < |names| == |entries| == |keys| == |texts| && Rendered(names, keys) && Rendered(entries, texts)
    requires out !in names && out !in entries && at + |Rows(keys[i..], texts[i..], depth, fmt)| <= out.Length
    modifies out
    ensures next + |Rows(keys[i + 1..], texts[i + 1..], depth, fmt)| <= out.Length
    ensures out[..next] + Rows(keys[i + 1..], texts[i + 1..], depth, fmt) == old(out[..at]) + Rows(keys[i..], texts[i..], depth, fmt)
  {
    RowsStep(out[..at], keys, texts, i, depth, fmt);
    hide Rows, Holds;
    next := Add(out, at, Indent(depth, fmt));
    next := Copy(out, next, names[i], keys[i]);
    next := Add(out, next, NameGap(fmt));
    next := Copy(out, next, entries[i], texts[i]);
    next := Add(out, next, MemberGap(i != |entries| - 1, fmt));
  }

  lemma RowsStep(text: string, names: seq<string>, texts: seq<string>, i: nat, depth: nat, fmt: bool)
    requires i < |names| == |texts|
    ensures text + Rows(names[i..], texts[i..], depth, fmt)
         == (text + Indent(depth, fmt) + names[i] + NameGap(fmt) + texts[i] + MemberGap(i != |names| - 1, fmt))
            + Rows(names[i + 1..], texts[i + 1..], depth, fmt)
  {
    assert names[i..][1..] == names[i + 1..] && texts[i..][1..] == texts[i + 1..];
    var a, b, c, d, e := Indent(depth, fmt), names[i], NameGap(fmt), texts[i], MemberGap(i != |names| - 1, fmt);
    var more := Rows(names[i + 1..], texts[i + 1..], depth, fmt);
    assert Rows(names[i..], texts[i..], depth, fmt) == a + (b + (c + (d + (e + more))));
    hide Rows;
    Assoc(text, a, b + (c + (d + (e + more))));
    Assoc(text + a, b, c + (d + (e + more)));
    Assoc(text + a + b, c, d + (e + more));
    Assoc(text + a + b + c, d, e + more);
    Assoc(text + a + b + c + d, e, more);
  }

  /** cJSON_Print and cJSON_PrintUnformatted: the text that the parser and the buffered printer go by. */
  method Print(item: Json, fmt: bool) returns (out: array<char>)
    requires Storable(item) && Ints(item)
    ensures fresh(out) && Holds(out, PrintValue(item, 0, fmt))
  {
    out := PrintItem(item, 0, fmt);
  }
}
