/** The buffered printer of cJSON.c: one growing buffer, written through an offset that lags behind
    the text until update() catches up with the terminator. */
module JsonBuffer {
  import opened JsonText

  // ----- printed text holds no terminator

  predicate NoNul(s: string) { '\0' !in s }

  lemma NoNulJoins(a: string, b: string)
    requires NoNul(a) && NoNul(b)
    ensures NoNul(a + b)
  {
  }

  lemma {:induction false} EscapedNoNul(s: string)
    requires CString(s)
    ensures NoNul(Escaped(s))
    decreases |s|
  {
    if s != [] {
      EscapedNoNul(s[1..]);
      NoNulJoins(Escape(s[0]), Escaped(s[1..]));
    }
  }

  lemma StrNoNul(s: string)
    requires CString(s)
    ensures NoNul(PrintStr(s))
  {
    EscapedNoNul(s);
  }

  lemma {:induction false} DecimalNoNul(n: nat)
    ensures NoNul(Decimal(n))
    decreases n
  {
    if n >= 10 { DecimalNoNul(n / 10); }
  }

  lemma {:induction false} ValueNoNul(v: Json, depth: nat, fmt: bool)
    requires Storable(v)
    ensures NoNul(PrintValue(v, depth, fmt))
    decreases v
  {
    hide PrintMembers;
    match v {
      case Number(d) => DecimalNoNul(if d.Floor < 0 then -d.Floor else d.Floor);
      case Str(s) => StrNoNul(s);
      case Array(es) => if es.Elem? { ElemsNoNul(es, depth + 1, fmt); }
      case Object(ms) =>
        if ms.Member? {
          MembersNoNul(ms, depth + 1, fmt);
          NoNulJoins(PrintMembers(ms, depth + 1, fmt), Indent(depth, fmt));
        }
      case _ =>
    }
  }

  lemma {:induction false} ElemsNoNul(es: Elems, depth: nat, fmt: bool)
    requires es.Elem? && StorableElems(es)
    ensures NoNul(PrintElems(es, depth, fmt))
    decreases es
  {
    ValueNoNul(es.value, depth, fmt);
    if es.next.Elem? { ElemsNoNul(es.next, depth, fmt); }
  }

  lemma {:induction false} MembersNoNul(ms: Members, depth: nat, fmt: bool)
    requires ms.Member? && StorableMembers(ms)
    ensures NoNul(PrintMembers(ms, depth, fmt))
    decreases ms
  {
    hide PrintValue, PrintStr;
    StrNoNul(ms.name);
    ValueNoNul(ms.value, depth, fmt);
    if ms.next.Member? { MembersNoNul(ms.next, depth, fmt); }
    var more := if ms.next.Member? then PrintMembers(ms.next, depth, fmt) else "";
    NoNulJoins(MemberGap(ms.next.Member?, fmt), more);
    NoNulJoins(PrintValue(ms.value, depth, fmt), MemberGap(ms.next.Member?, fmt) + more);
  }

  // ----- numbers, and the room that sprintf is given for them

  /** 1.0e60 as a double */
  const E60: int := 999999999999999949387135297074018866963645011013410073083904

  predicate IsInt(n: int) { -0x8000_0000 <= n < 0x8000_0000 }

  /** Numbers that are printed in full, with %d or with %.0f. */
  predicate Ints(v: Json) {
    match v
    case Number(d) => -E60 < d.Floor < E60
    case Array(es) => IntElems(es)
    case Object(ms) => IntMembers(ms)
    case _ => true
  }

  predicate IntElems(es: Elems) { es.Elem? ==> Ints(es.value) && IntElems(es.next) }

  predicate IntMembers(ms: Members) { ms.Member? ==> Ints(ms.value) && IntMembers(ms.next) }

  function Tens(k: nat): nat { if k == 0 then 1 else 10 * Tens(k - 1) }

  lemma {:induction false} DecimalLength(n: nat, k: nat)
    requires k >= 1 && n < Tens(k)
    ensures |Decimal(n)| <= k
    decreases k
  {
    if n >= 10 { DecimalLength(n / 10, k - 1); }
  }

  lemma {:induction false} TensAdd(j: nat, k: nat)
    ensures Tens(j + k) == Tens(j) * Tens(k)
    decreases j
  {
    if j > 0 { TensAdd(j - 1, k); }
  }

  lemma TensOfTen()
    ensures Tens(10) == 10000000000 && Tens(60) >= E60
  {
    assert Tens(5) == 100000;
    TensAdd(5, 5);
    assert Tens(10) == 10000000000;
    hide Tens;
    TensAdd(10, 10);
    assert Tens(20) == 10000000000 * 10000000000;
    TensAdd(20, 20);
    TensAdd(20, 40);
  }

  lemma NumberLength(n: int)
    requires -E60 < n < E60
    ensures |PrintNumber(n)| <= if IsInt(n) then 11 else 61
  {
    hide Tens, Decimal;
    TensOfTen();
    DecimalLength(if n < 0 then -n else n, if IsInt(n) then 10 else 60);
  }

  /** The room that print_number asks for. */
  function NumberRoom(n: int): (r: nat)
    requires -E60 < n < E60
    ensures |PrintNumber(n)| < r
  {
    NumberLength(n);
    if n == 0 then 2 else if IsInt(n) then 21 else 64
  }

  /** pow2gt: the least power of two, from p on, that is not below x. */
  function Pow2From(p: nat, x: nat): (r: nat)
    requires p >= 1
    ensures x <= r
    decreases x - p
  {
    if x <= p then p else Pow2From(2 * p, x)
  }

  // ----- writing through a pointer

  /** A pointer to a terminated text. */
  ghost predicate Holds(out: array<char>, t: string)
    reads out
  {
    NoNul(t) && |t| < out.Length && out[..|t|] == t && out[|t|] == '\0'
  }

  /** *ptr++ = ..., for the bytes of text in turn. */
  method Write(out: array<char>, at: nat, text: string)
    requires at + |text| <= out.Length
    modifies out
    ensures out[..at] == old(out[..at]) && out[at..at + |text|] == text
    ensures out[at + |text|..] == old(out[at + |text|..])
  {
    for i := 0 to |text|
      invariant out[..at] == old(out[..at]) && out[at..at + i] == text[..i]
      invariant out[at + |text|..] == old(out[at + |text|..])
    {
      out[at + i] := text[i];
    }
  }

  /** The sizing passes of print_string_ptr: whether there is anything to escape, and the length. */
  method Measure(s: string) returns (flag: bool, len: nat)
    ensures len == |Escaped(s)| && (!flag ==> Escaped(s) == s)
  {
    flag := false;
    for i := 0 to |s|
      invariant !flag ==> forall j :: 0 <= j < i ==> |Escape(s[j])| == 1
    {
      if s[i] < 32 as char || s[i] == '\"' || s[i] == '\\' {
        flag := true;
      }
    }
    if !flag {
      PlainEscaped(s);
      return flag, |s|;
    }
    len := 0;
    for i := 0 to |s|
      invariant len == |Escaped(s[..i])|
    {
      len := len + 1;
      if s[i] in {'\"', '\\', 8 as char, 12 as char, 10 as char, 13 as char, 9 as char} {
        len := len + 1;
      } else if s[i] < 32 as char {
        len := len + 5;
      }
      EscapedSnoc(s, i);
    }
    assert s[..|s|] == s;
  }

  /** The writing pass: the quoted and escaped bytes, then the terminator. */
  method WriteQuoted(out: array<char>, at: nat, s: string)
    requires at + |Escaped(s)| + 3 <= out.Length
    modifies out
    ensures out[..at] == old(out[..at]) && out[at..at + |PrintStr(s)|] == PrintStr(s)
    ensures out[at + |PrintStr(s)|] == '\0'
  {
    hide Escape, Escaped;
    NothingEscaped(s);
    Write(out, at, ['\"']);
    var ptr := at + 1;
    for i := 0 to |s|
      invariant ptr == at + 1 + |Escaped(s[..i])| && ptr <= at + 1 + |Escaped(s)|
      invariant out[..at] == old(out[..at]) && out[at..ptr] == ['\"'] + Escaped(s[..i])
    {
      EscapedSnoc(s, i);
      EscapedGrows(s, i + 1);
      ghost var before, e := out[..ptr], |Escape(s[i])|;
      Write(out, ptr, Escape(s[i]));
      Spliced(before, out[..ptr + e], Escape(s[i]), at);
      ptr := ptr + |Escape(s[i])|;
    }
    ghost var before := out[..ptr];
    Write(out, ptr, ['\"', '\0']);
    assert out[ptr..ptr + 2] == ['\"', '\0'] && out[ptr..ptr + 1] == ['\"'];
    assert out[ptr..ptr + 2][1] == '\0';
    Spliced(before, out[..ptr + 1], ['\"'], at);
  }

  class PrintBuffer {
    var buffer: array<char>
    var offset: nat

    constructor (prebuffer: nat)
      ensures fresh(buffer) && buffer.Length == prebuffer && offset == 0
    {
      buffer := new char[prebuffer](_ => 'x');
      offset := 0;
    }

    /** The text stands at position at, terminated, and the offset is somewhere within it. */
    ghost predicate Printed(at: nat, text: string)
      reads this, buffer
    {
      && at <= offset <= at + |text| < buffer.Length
      && buffer[at..at + |text|] == text && buffer[at + |text|] == '\0'
    }

    /** ensure(): room for needed bytes from the offset on; what is there stays. */
    method Ensure(needed: nat)
      modifies this`buffer
      ensures offset + needed <= buffer.Length && old(buffer.Length) <= buffer.Length
      ensures buffer == old(buffer) || fresh(buffer)
      ensures buffer[..old(buffer.Length)] == old(buffer[..])
    {
      if offset + needed <= buffer.Length {
        return;
      }
      var newsize := Pow2From(1, offset + needed);
      var newbuffer := new char[newsize](_ => 'x');
      forall i | 0 <= i < buffer.Length {
        newbuffer[i] := buffer[i];
      }
      buffer := newbuffer;
    }

    /** update(): the position of the terminator. */
    method Update() returns (end: nat)
      requires exists i :: offset <= i < buffer.Length && buffer[i] == '\0'
      ensures offset <= end < buffer.Length && buffer[end] == '\0' && NoNul(buffer[offset..end])
    {
      end := offset;
      while buffer[end] != '\0'
        invariant offset <= end < buffer.Length && NoNul(buffer[offset..end])
        invariant exists i :: end <= i < buffer.Length && buffer[i] == '\0'
        decreases buffer.Length - end
      {
        end := end + 1;
      }
    }

    ghost predicate Valid()
      reads this
    {
      offset <= buffer.Length
    }

    /** What is finished: the bytes before the offset. */
    ghost function Done(): string
      requires Valid()
      reads this, buffer
    {
      buffer[..offset]
    }

    /** The terminated text was printed at the place where the offset stood. */
    twostate predicate Extends(text: string)
      requires old(Valid())
      reads this, buffer
    {
      && Valid() && (buffer == old(buffer) || fresh(buffer)) && old(offset) <= offset
      && Printed(old(offset), text) && buffer[..old(offset)] == old(Done())
    }

    /** ensure, some bytes, and the offset moves over them. */
    method Put(text: string)
      requires Valid()
      modifies this, buffer
      ensures Valid() && (buffer == old(buffer) || fresh(buffer))
      ensures Done() == old(Done()) + text && offset == old(offset) + |text|
    {
      Ensure(|text|);
      Write(buffer, offset, text);
      offset := offset + |text|;
    }

    /** ensure, some bytes and a terminator; the offset stays. */
    method Append(text: string, needed: nat)
      requires Valid() && |text| + 1 <= needed
      modifies this, buffer
      ensures Extends(text) && offset == old(offset)
    {
      Ensure(needed);
      Write(buffer, offset, text + ['\0']);
      assert buffer[offset..offset + |text| + 1] == text + ['\0'];
      assert buffer[offset..offset + |text|] == (text + ['\0'])[..|text|];
      assert buffer[offset + |text|] == (text + ['\0'])[|text|];
    }

    /** p->offset = update(p) */
    method CatchUp(ghost at: nat, ghost text: string)
      requires Valid() && Printed(at, text) && NoNul(text)
      modifies this`offset
      ensures Valid() && Done() == buffer[..at] + text && offset == at + |text|
    {
      var end := Update();
      assert forall j :: at <= j < at + |text| ==> buffer[j] == text[j - at];
      assert forall j :: offset <= j < end ==> buffer[j] != '\0' by {
        forall j | offset <= j < end ensures buffer[j] != '\0' { assert buffer[j] == buffer[offset..end][j - offset]; }
      }
      offset := end;
      assert buffer[..end] == buffer[..at] + buffer[at..end];
    }

    /** print_number */
    method PrintNumber(n: int)
      requires Valid() && -E60 < n < E60
      modifies this, buffer
      ensures Extends(JsonText.PrintNumber(n))
    {
      Append(JsonText.PrintNumber(n), NumberRoom(n));
    }

    /** print_string_ptr: one pass to size the text, one to write it. */
    method PrintStringPtr(s: string)
      requires Valid() && CString(s)
      modifies this, buffer
      ensures Extends(PrintStr(s))
    {
      var flag, len := Measure(s);
      if !flag {
        Append(['\"'] + s + ['\"'], len + 3);
        return;
      }
      Ensure(len + 3);
      WriteQuoted(buffer, offset, s);
    }

    /** print_value with a buffer. */
    method PrintItem(v: Json, depth: nat, fmt: bool)
      requires Valid() && Storable(v) && Ints(v)
      modifies this, buffer
      ensures Extends(PrintValue(v, depth, fmt))
      decreases v, 1
    {
      match v {
        case Null => Append("null", 5);
        case False => Append("false", 6);
        case True => Append("true", 5);
        case Number(d) => PrintNumber(d.Floor);
        case Str(s) => PrintStringPtr(s);
        case Array(es) => PrintArray(es, depth, fmt);
        case Object(ms) => PrintObject(ms, depth, fmt);
      }
    }

    /** print_value on a child, then p->offset = update(p). */
    method PrintChild(v: Json, depth: nat, fmt: bool)
      requires Valid() && Storable(v) && Ints(v)
      modifies this, buffer
      ensures Valid() && (buffer == old(buffer) || fresh(buffer))
      ensures Done() == old(Done()) + PrintValue(v, depth, fmt)
      decreases v, 2
    {
      hide PrintValue;
      ghost var at, base := offset, Done();
      PrintItem(v, depth, fmt);
      ValueNoNul(v, depth, fmt);
      CatchUp(at, PrintValue(v, depth, fmt));
    }

    /** The same for a member's name. */
    method PrintName(s: string)
      requires Valid() && CString(s)
      modifies this, buffer
      ensures Valid() && (buffer == old(buffer) || fresh(buffer))
      ensures Done() == old(Done()) + PrintStr(s)
    {
      hide PrintStr;
      ghost var at, base := offset, Done();
      PrintStringPtr(s);
      StrNoNul(s);
      CatchUp(at, PrintStr(s));
    }

    /** ensure, some bytes and a terminator, and the offset moves onto the terminator. */
    method PutTerminated(text: string)
      requires Valid()
      modifies this, buffer
      ensures Valid() && (buffer == old(buffer) || fresh(buffer))
      ensures Done() == old(Done()) + text
    {
      ghost var base, at := Done(), offset;
      Append(text, |text| + 1);
      offset := offset + |text|;
      assert Done() == buffer[..at] + buffer[at..offset];
    }

    /** One element and the gap after it; text is what the array's inside has so far. */
    method PrintElement(child: Elems, depth: nat, fmt: bool, ghost base: string, ghost text: string, ghost whole: string)
      returns (ghost text': string)
      requires Valid() && child.Elem? && StorableElems(child) && IntElems(child)
      requires Done() == base + text && text + PrintElems(child, depth, fmt) == whole
      modifies this, buffer
      ensures Valid() && (buffer == old(buffer) || fresh(buffer))
      ensures Done() == base + text' && text' + ElemsLeft(child.next, depth, fmt) == whole
      decreases child, 0
    {
      hide PrintElems, PrintValue;
      PrintChild(child.value, depth, fmt);
      ghost var p := PrintValue(child.value, depth, fmt);
      ElemStep(child, depth, fmt, text, p);
      Assoc(base, text, p);
      text' := text + p;
      if child.next.Elem? {
        PutTerminated(ElemGap(fmt));
        Assoc(base, text', ElemGap(fmt));
        text' := text' + ElemGap(fmt);
      }
    }

    /** print_array with a buffer. */
    method PrintArray(es: Elems, depth: nat, fmt: bool)
      requires Valid() && StorableElems(es) && IntElems(es)
      modifies this, buffer
      ensures Extends(PrintValue(Array(es), depth, fmt))
      decreases es, 1
    {
      hide Printed, Storable;
      if es.NoElem? {
        Append("[]", 3);
        return;
      }
      ghost var base, text, whole := Done(), "[", "[" + PrintElems(es, depth + 1, fmt);
      Put("[");
      var child := es;
      while child.Elem?
        invariant Valid() && (buffer == old(buffer) || fresh(buffer))
        invariant Done() == base + text && text + ElemsLeft(child, depth + 1, fmt) == whole
        invariant StorableElems(child) && IntElems(child) && (child == es || child < es)
        decreases child
      {
        text := PrintElement(child, depth + 1, fmt, base, text, whole);
        child := child.next;
      }
      Close(base, text, "]", 2);
      Assoc("[", PrintElems(es, depth + 1, fmt), "]");
      assert text == whole;
    }

    /** One member with its indentation and the gap after it. */
    method PrintMember(child: Members, depth: nat, fmt: bool, ghost base: string, ghost text: string, ghost whole: string)
      returns (ghost text': string)
      requires Valid() && child.Member? && StorableMembers(child) && IntMembers(child)
      requires Done() == base + text && text + PrintMembers(child, depth, fmt) == whole
      modifies this, buffer
      ensures Valid() && (buffer == old(buffer) || fresh(buffer))
      ensures Done() == base + text' && text' + MembersLeft(child.next, depth, fmt) == whole
      decreases child, 0
    {
      hide PrintMembers, PrintValue, PrintStr;
      ghost var p, gap := PrintValue(child.value, depth, fmt), MemberGap(child.next.Member?, fmt);
      MemberStep(child, depth, fmt, text, p);
      if fmt {
        Put(Tabs(depth));
      }
      ghost var t0 := text + Indent(depth, fmt);
      assert Done() == base + t0 by { Assoc(base, text, Indent(depth, fmt)); assert text + "" == text; }
      PrintName(child.name);
      Put(NameGap(fmt));
      PrintChild(child.value, depth, fmt);
      PutTerminated(MemberGap(child.next.Member?, fmt));
      text' := t0 + PrintStr(child.name) + NameGap(fmt) + p + gap;
      FourMore(base, t0, PrintStr(child.name), NameGap(fmt), p, gap);
    }

    /** print_object with a buffer. */
    method PrintObject(ms: Members, depth: nat, fmt: bool)
      requires Valid() && StorableMembers(ms) && IntMembers(ms)
      modifies this, buffer
      ensures Extends(PrintValue(Object(ms), depth, fmt))
      decreases ms, 1
    {
      hide PrintMembers;
      if ms.NoMember? {
        Append(PrintValue(Object(ms), depth, fmt), if fmt then depth + 4 else 3);
        return;
      }
      ghost var base, text, whole := Done(), "{" + OpenGap(fmt), "{" + OpenGap(fmt) + PrintMembers(ms, depth + 1, fmt);
      PutTerminated("{" + OpenGap(fmt));
      var child := ms;
      while child.Member?
        invariant Valid() && (buffer == old(buffer) || fresh(buffer))
        invariant Done() == base + text && text + MembersLeft(child, depth + 1, fmt) == whole
        invariant StorableMembers(child) && IntMembers(child) && (child == ms || child < ms)
        decreases child
      {
        text := PrintMember(child, depth + 1, fmt, base, text, whole);
        child := child.next;
      }
      Close(base, text, Indent(depth, fmt) + "}", if fmt then depth + 2 else 2);
      ObjectWhole(ms, depth, fmt);
      assert text == whole;
    }

    /** The closing bracket: ensure, bytes, terminator; the text from base on is then complete. */
    method Close(ghost base: string, ghost text: string, end: string, needed: nat)
      requires Valid() && Done() == base + text && |end| + 1 <= needed
      modifies this, buffer
      ensures Valid() && (buffer == old(buffer) || fresh(buffer)) && offset == old(offset)
      ensures Printed(|base|, text + end) && buffer[..|base|] == base
    {
      ghost var at, n := offset, |end|;
      Append(end, needed);
      ghost var full := buffer[..at + n];
      assert full[..at] == buffer[..at] && full[at..] == buffer[at..at + n];
      Glue(full, base, text, end);
      assert buffer[|base|..at + n] == full[|base|..] && buffer[..|base|] == full[..|base|];
    }
  }

  lemma Glue(full: string, base: string, text: string, end: string)
    requires |full| == |base| + |text| + |end|
    requires full[..|base| + |text|] == base + text && full[|base| + |text|..] == end
    ensures full[|base|..] == text + end && full[..|base|] == base
  {
    assert full == (base + text) + end;
    Assoc(base, text, end);
  }

  function ElemsLeft(es: Elems, depth: nat, fmt: bool): string {
    if es.Elem? then PrintElems(es, depth, fmt) else ""
  }

  function MembersLeft(ms: Members, depth: nat, fmt: bool): string {
    if ms.Member? then PrintMembers(ms, depth, fmt) else ""
  }

  lemma ObjectWhole(ms: Members, depth: nat, fmt: bool)
    requires ms.Member?
    ensures PrintValue(Object(ms), depth, fmt) == "{" + OpenGap(fmt) + PrintMembers(ms, depth + 1, fmt) + (Indent(depth, fmt) + "}")
  {
    hide PrintMembers;
    var a, m, i := OpenGap(fmt), PrintMembers(ms, depth + 1, fmt), Indent(depth, fmt);
    Assoc(a, m + i, "}");
    Assoc(m, i, "}");
    Assoc("{", a, m + (i + "}"));
    Assoc("{" + a, m, i + "}");
  }

  lemma FourMore(base: string, t: string, a: string, b: string, c: string, d: string)
    ensures (base + t) + a + b + c + d == base + (t + a + b + c + d)
  {
    Assoc(base, t, a);
    Assoc(base, t + a, b);
    Assoc(base, t + a + b, c);
    Assoc(base, t + a + b + c, d);
  }

  lemma MemberStep(ms: Members, depth: nat, fmt: bool, text: string, p: string)
    requires ms.Member? && p == PrintValue(ms.value, depth, fmt)
    ensures text + PrintMembers(ms, depth, fmt) ==
              (text + Indent(depth, fmt) + PrintStr(ms.name) + NameGap(fmt) + p + MemberGap(ms.next.Member?, fmt))
              + MembersLeft(ms.next, depth, fmt)
  {
    var a, b, c, e := Indent(depth, fmt), PrintStr(ms.name), NameGap(fmt), MemberGap(ms.next.Member?, fmt);
    var more := MembersLeft(ms.next, depth, fmt);
    assert PrintMembers(ms, depth, fmt) == a + (b + (c + (p + (e + more))));
    hide PrintMembers, PrintValue, PrintStr;
    Assoc(text, a, b + (c + (p + (e + more))));
    Assoc(text + a, b, c + (p + (e + more)));
    Assoc(text + a + b, c, p + (e + more));
    Assoc(text + a + b + c, p, e + more);
    Assoc(text + a + b + c + p, e, more);
  }

  /** cJSON_PrintBuffered: for any first size the text is the one printed without a buffer. */
  method PrintBuffered(item: Json, prebuffer: nat, fmt: bool) returns (out: array<char>)
    requires Storable(item) && Ints(item)
    ensures Holds(out, PrintValue(item, 0, fmt))
  {
    var p := new PrintBuffer(prebuffer);
    p.PrintItem(item, 0, fmt);
    ValueNoNul(item, 0, fmt);
    out := p.buffer;
    ghost var n := |PrintValue(item, 0, fmt)|;
    assert out[0..n] == out[..n];
  }

  lemma ElemStep(es: Elems, depth: nat, fmt: bool, text: string, p: string)
    requires es.Elem? && p == PrintValue(es.value, depth, fmt)
    ensures text + PrintElems(es, depth, fmt) ==
              (if es.next.Elem? then (text + p) + ElemGap(fmt) else text + p) + ElemsLeft(es.next, depth, fmt)
  {
    hide PrintValue;
    if es.next.Elem? {
      var q := PrintElems(es.next, depth, fmt);
      assert PrintElems(es, depth, fmt) == p + (ElemGap(fmt) + q);
      hide PrintElems;
      Assoc(text, p, ElemGap(fmt) + q);
      Assoc(text + p, ElemGap(fmt), q);
    } else {
      assert p + "" == p && (text + p) + "" == text + p;
    }
  }

  lemma Spliced(before: string, after: string, text: string, at: nat)
    requires at <= |before| && |after| == |before| + |text| && after[..|before|] == before && after[|before|..] == text
    ensures after[at..] == before[at..] + text && after[..at] == before[..at]
  {
  }

  lemma PlainEscape(c: char)
    requires |Escape(c)| == 1
    ensures Escape(c) == [c]
  {
  }

  lemma {:induction false} PlainEscaped(s: string)
    requires forall j :: 0 <= j < |s| ==> |Escape(s[j])| == 1
    ensures Escaped(s) == s
    decreases |s|
  {
    hide Escape;
    if s != [] {
      PlainEscaped(s[1..]);
      PlainEscape(s[0]);
    }
  }

  lemma NothingEscaped(s: string)
    ensures Escaped(s[..0]) == [] && s[..|s|] == s
  {
  }

  lemma {:induction false} EscapedJoins(a: string, b: string)
    ensures Escaped(a + b) == Escaped(a) + Escaped(b)
    decreases |a|
  {
    if a == [] {
      assert a + b == b;
    } else {
      assert (a + b)[1..] == a[1..] + b;
      EscapedJoins(a[1..], b);
    }
  }

  lemma EscapedSnoc(s: string, i: nat)
    requires i < |s|
    ensures Escaped(s[..i + 1]) == Escaped(s[..i]) + Escape(s[i])
  {
    assert s[..i + 1] == s[..i] + [s[i]] && [s[i]][1..] == [];
    EscapedJoins(s[..i], [s[i]]);
  }

  lemma EscapedGrows(s: string, i: nat)
    requires i <= |s|
    ensures |Escaped(s[..i])| <= |Escaped(s)|
  {
    assert s == s[..i] + s[i..];
    EscapedJoins(s[..i], s[i..]);
  }
}
