/** JSON Merge Patch: the recursive apply and the generator of cJSON_Utils.c on member lists, against
    the map-level definition of section 2 of RFC 7396. */
module JsonPatch {
  import opened JsonText

  datatype Option<T> = None | Some(value: T)

  // ----- values as nested maps

  datatype Val =
    | VNull
    | VFalse
    | VTrue
    | VNumber(d: real)
    | VStr(s: string)
    | VArray(items: seq<Val>)
    | VObject(m: map<string, Val>)

  function Meaning(v: Json): Val {
    match v
    case Null => VNull
    case False => VFalse
    case True => VTrue
    case Number(d) => VNumber(d)
    case Str(s) => VStr(s)
    case Array(es) => VArray(ItemsOf(es))
    case Object(ms) => VObject(MapOf(ms))
  }

  function ItemsOf(es: Elems): seq<Val> {
    if es.NoElem? then [] else [Meaning(es.value)] + ItemsOf(es.next)
  }

  function MapOf(ms: Members): map<string, Val> {
    if ms.NoMember? then map[] else MapOf(ms.next)[ms.name := Meaning(ms.value)]
  }

  /** The MergePatch function of section 2 of RFC 7396. */
  function MergeVal(target: Option<Val>, patch: Val): Val
    decreases patch, 1
  {
    if !patch.VObject? then patch
    else VObject(MergeMap(if target.Some? && target.value.VObject? then target.value.m else map[], patch))
  }

  function At<T>(m: map<string, T>, k: string): Option<T> { if k in m then Some(m[k]) else None }

  function MergeMap(t: map<string, Val>, patch: Val): map<string, Val>
    requires patch.VObject?
    decreases patch, 0
  {
    map k | k in t.Keys + patch.m.Keys && !(k in patch.m && patch.m[k] == VNull) ::
      if k in patch.m then MergeVal(At(t, k), patch.m[k]) else t[k]
  }

  // ----- key comparison

  function Lower(c: char): char { if 'A' <= c <= 'Z' then (c as int + 32) as char else c }

  function StrCmp(a: string, b: string): int
    decreases |a|
  {
    if a == [] then if b == [] then 0 else -(b[0] as int)
    else if b == [] then a[0] as int
    else if a[0] == b[0] then StrCmp(a[1..], b[1..])
    else a[0] as int - b[0] as int
  }

  function CaseCmp(a: string, b: string): int
    decreases |a|
  {
    if a == [] then if b == [] then 0 else -(Lower(b[0]) as int)
    else if b == [] then Lower(a[0]) as int
    else if Lower(a[0]) == Lower(b[0]) then CaseCmp(a[1..], b[1..])
    else Lower(a[0]) as int - Lower(b[0]) as int
  }

  lemma {:induction false} StrCmpDecides(a: string, b: string)
    requires CString(a) && CString(b)
    ensures StrCmp(a, b) == 0 <==> a == b
    ensures StrCmp(b, a) == -StrCmp(a, b)
    decreases |a|
  {
    if a != [] && b != [] && a[0] == b[0] {
      StrCmpDecides(a[1..], b[1..]);
      assert a == [a[0]] + a[1..] && b == [b[0]] + b[1..];
    }
  }

  lemma {:induction false} CaseCmpFlips(a: string, b: string)
    ensures CaseCmp(b, a) == -CaseCmp(a, b)
    decreases |a|
  {
    if a != [] && b != [] && Lower(a[0]) == Lower(b[0]) { CaseCmpFlips(a[1..], b[1..]); }
  }

  lemma {:induction false} LessIsTransitive(a: string, b: string, c: string)
    requires CString(a) && CString(b) && CString(c) && StrCmp(a, b) < 0 && StrCmp(b, c) < 0
    ensures StrCmp(a, c) < 0
    decreases |a|
  {
    if a != [] && b != [] && c != [] && a[0] == b[0] == c[0] { LessIsTransitive(a[1..], b[1..], c[1..]); }
  }

  /** A name with its capital letters made small. */
  function Lowered(s: string): (r: string)
    ensures |r| == |s| && forall i :: 0 <= i < |s| ==> r[i] == Lower(s[i])
  {
    if s == [] then [] else [Lower(s[0])] + Lowered(s[1..])
  }

  /** Comparing without regard to case is comparing the lowered names. */
  lemma {:induction false} CaseCmpLowers(a: string, b: string)
    ensures CaseCmp(a, b) == StrCmp(Lowered(a), Lowered(b))
    decreases |a|
  {
    if a != [] && b != [] && Lower(a[0]) == Lower(b[0]) {
      CaseCmpLowers(a[1..], b[1..]);
      assert Lowered(a)[1..] == Lowered(a[1..]) && Lowered(b)[1..] == Lowered(b[1..]);
    }
  }

  lemma CaseLessIsTransitive(a: string, b: string, c: string)
    requires CString(a) && CString(b) && CString(c) && CaseCmp(a, b) < 0 && CaseCmp(b, c) < 0
    ensures CaseCmp(a, c) < 0
  {
    CaseCmpLowers(a, b);
    CaseCmpLowers(b, c);
    CaseCmpLowers(a, c);
    LessIsTransitive(Lowered(a), Lowered(b), Lowered(c));
  }

  // ----- what the comparisons are

  const CAPITALS := "ABCDEFGHIJKLMNOPQRSTUVWXYZ"
  const SMALL := "abcdefghijklmnopqrstuvwxyz"

  /** Each capital letter has its small one, and every other byte stays. */
  lemma LowerIs(c: char)
    ensures c !in CAPITALS ==> Lower(c) == c
    ensures forall i :: 0 <= i < 26 && c == CAPITALS[i] ==> Lower(c) == SMALL[i]
  {
    if 'A' <= c <= 'Z' {
      var i := c as int - 'A' as int;
      LetterAt(i);
      assert CAPITALS[i] == c;
    }
    forall i | 0 <= i < 26 && c == CAPITALS[i] ensures Lower(c) == SMALL[i] { LetterAt(i); }
  }

  lemma LetterAt(i: int)
    requires 0 <= i < 26
    ensures CAPITALS[i] as int == 'A' as int + i && SMALL[i] as int == 'a' as int + i
  {
    if i < 7 { assert i in {0, 1, 2, 3, 4, 5, 6}; }
    else if i < 14 { assert i in {7, 8, 9, 10, 11, 12, 13}; }
    else if i < 20 { assert i in {14, 15, 16, 17, 18, 19}; }
    else { assert i in {20, 21, 22, 23, 24, 25}; }
  }

  /** a comes first: it ends where b goes on, or has the smaller byte where they first differ. */
  ghost predicate Precedes(a: string, b: string) {
    exists k :: 0 <= k <= |a| && k < |b| && a[..k] == b[..k] && (k == |a| || a[k] < b[k])
  }

  /** strcmp is below 0 exactly for a string that comes first. */
  lemma {:induction false} StrCmpIs(a: string, b: string)
    requires CString(a) && CString(b)
    ensures StrCmp(a, b) < 0 <==> Precedes(a, b)
    decreases |a|
  {
    if a == [] || b == [] || a[0] != b[0] {
      if StrCmp(a, b) < 0 { assert a[..0] == b[..0]; }
      forall k | 0 < k <= |a| && k < |b| ensures a[..k] != b[..k] {
        assert a[..k][0] == a[0] && b[..k][0] == b[0];
      }
    } else {
      StrCmpIs(a[1..], b[1..]);
      PrecedesBehind(a, b);
    }
  }

  lemma PrecedesBehind(a: string, b: string)
    requires a != [] && b != [] && a[0] == b[0]
    ensures Precedes(a, b) <==> Precedes(a[1..], b[1..])
  {
    var c, d := a[1..], b[1..];
    if k :| 0 <= k <= |a| && k < |b| && a[..k] == b[..k] && (k == |a| || a[k] < b[k]) {
      assert k > 0 && c[..k - 1] == a[..k][1..] && d[..k - 1] == b[..k][1..];
    }
    if k :| 0 <= k <= |c| && k < |d| && c[..k] == d[..k] && (k == |c| || c[k] < d[k]) {
      assert a[..k + 1] == [a[0]] + c[..k] && b[..k + 1] == [b[0]] + d[..k];
    }
  }

  /** Names match without regard to case if they differ at most in the case of letters. */
  lemma CaseCmpIs(a: string, b: string)
    requires CString(a) && CString(b)
    ensures CaseCmp(a, b) == 0 <==> Lowered(a) == Lowered(b)
    ensures CaseCmp(a, b) < 0 <==> Precedes(Lowered(a), Lowered(b))
  {
    CaseCmpLowers(a, b);
    StrCmpDecides(Lowered(a), Lowered(b));
    StrCmpIs(Lowered(a), Lowered(b));
  }

  // ----- the names in use

  /** Looking a name up without regard to case finds that name. */
  ghost predicate Distinct(K: iset<string>) {
    && (forall a | a in K :: CString(a))
    && forall a, b | a in K && b in K :: CaseCmp(a, b) == 0 ==> a == b
  }

  /** Besides, the names have the same order with and without regard to case. */
  ghost predicate Ordered(K: iset<string>) {
    Distinct(K) && forall a, b | a in K && b in K :: StrCmp(a, b) < 0 ==> CaseCmp(a, b) < 0
  }

  type Keys = K: iset<string> | Distinct(K) ghost witness iset{}

  type OrderedKeys = K: iset<string> | Ordered(K) ghost witness iset{}

  lemma NamesMatch(K: Keys, a: string, b: string)
    requires a in K && b in K
    ensures CaseCmp(a, b) == 0 <==> a == b
  {
    CaseCmpFlips(a, a);
  }

  lemma NamesCompare(K: OrderedKeys, a: string, b: string)
    requires a in K && b in K
    ensures CaseCmp(a, b) < 0 <==> StrCmp(a, b) < 0
    ensures CaseCmp(a, b) == 0 <==> a == b
    ensures StrCmp(a, b) == 0 <==> a == b
    ensures StrCmp(b, a) == -StrCmp(a, b)
  {
    CaseCmpFlips(a, a);
    CaseCmpFlips(a, b);
    StrCmpDecides(a, b);
  }

  /** A name without capital letters. */
  predicate Plain(s: string) { CString(s) && forall i :: 0 <= i < |s| ==> Lower(s[i]) == s[i] }

  lemma {:induction false} PlainCompares(a: string, b: string)
    requires Plain(a) && Plain(b)
    ensures CaseCmp(a, b) == StrCmp(a, b)
    decreases |a|
  {
    if a != [] && b != [] && a[0] == b[0] { PlainCompares(a[1..], b[1..]); }
  }

  lemma PlainNamesAreOrdered()
    ensures Ordered(iset s | Plain(s))
  {
    forall a, b | Plain(a) && Plain(b) ensures CaseCmp(a, b) == StrCmp(a, b) && (StrCmp(a, b) == 0 <==> a == b) {
      PlainCompares(a, b);
      StrCmpDecides(a, b);
    }
  }

  // ----- values of C strings and of member lists with unique names from a set, at every level

  function Names(ms: Members): set<string> {
    if ms.NoMember? then {} else Names(ms.next) + {ms.name}
  }

  ghost predicate WellKeyed(K: iset<string>, v: Json) {
    match v
    case Str(s) => CString(s)
    case Array(es) => WellKeyedElems(K, es)
    case Object(ms) => WellKeyedMembers(K, ms)
    case _ => true
  }

  ghost predicate WellKeyedElems(K: iset<string>, es: Elems) { es.Elem? ==> WellKeyed(K, es.value) && WellKeyedElems(K, es.next) }

  ghost predicate WellKeyedMembers(K: iset<string>, ms: Members) {
    ms.Member? ==> ms.name in K && ms.name !in Names(ms.next) && WellKeyed(K, ms.value) && WellKeyedMembers(K, ms.next)
  }

  lemma {:induction false} NamesAreKeys(ms: Members)
    ensures MapOf(ms).Keys == Names(ms)
  {
    if ms.Member? { NamesAreKeys(ms.next); }
  }

  // ----- list operations of cJSON.c

  function Find(ms: Members, name: string): Option<Json> {
    if ms.NoMember? then None else if CaseCmp(ms.name, name) == 0 then Some(ms.value) else Find(ms.next, name)
  }

  /** cJSON_DetachItemFromObject: the first member whose name matches goes. */
  function Detach(ms: Members, name: string): Members {
    if ms.NoMember? then ms
    else if CaseCmp(ms.name, name) == 0 then ms.next
    else Member(ms.name, ms.value, Detach(ms.next, name))
  }

  /** cJSON_AddItemToObject: at the end. */
  function Add(ms: Members, name: string, v: Json): Members {
    if ms.NoMember? then Member(name, v, NoMember) else Member(ms.name, ms.value, Add(ms.next, name, v))
  }

  lemma {:induction false} DetachLaw(K: Keys, ms: Members, name: string)
    requires WellKeyedMembers(K, ms) && name in K
    ensures WellKeyedMembers(K, Detach(ms, name)) && Names(Detach(ms, name)) == Names(ms) - {name}
    ensures MapOf(Detach(ms, name)) == MapOf(ms) - {name}
    ensures match Find(ms, name)
            case None => name !in MapOf(ms)
            case Some(v) => name in MapOf(ms) && MapOf(ms)[name] == Meaning(v) && WellKeyed(K, v)
  {
    if ms.Member? {
      NamesMatch(K, ms.name, name);
      NamesAreKeys(ms.next);
      DetachLaw(K, ms.next, name);
    }
  }

  lemma {:induction false} AddLaw(K: iset<string>, ms: Members, name: string, v: Json)
    requires WellKeyedMembers(K, ms) && name in K && name !in Names(ms) && WellKeyed(K, v)
    ensures WellKeyedMembers(K, Add(ms, name, v)) && Names(Add(ms, name, v)) == Names(ms) + {name}
    ensures MapOf(Add(ms, name, v)) == MapOf(ms)[name := Meaning(v)]
  {
    hide Meaning;
    if ms.Member? { AddLaw(K, ms.next, name, v); }
  }

  // ----- applying a patch

  /** cJSONUtils_MergePatch */
  function MergePatch(target: Option<Json>, patch: Json): Json
    decreases patch
  {
    if !patch.Object? then patch
    else Object(ApplyMembers(if target.Some? && target.value.Object? then target.value.members else NoMember, patch.members))
  }

  function ApplyMembers(t: Members, p: Members): Members
    decreases p
  {
    if p.NoMember? then t
    else if p.value.Null? then ApplyMembers(Detach(t, p.name), p.next)
    else ApplyMembers(Add(Detach(t, p.name), p.name, MergePatch(Find(t, p.name), p.value)), p.next)
  }

  function OptMeaning(t: Option<Json>): Option<Val> { if t.Some? then Some(Meaning(t.value)) else None }

  /** Applying a patch means what RFC 7396 says. */
  lemma {:induction false} MergePatchRefines(K: Keys, target: Option<Json>, patch: Json)
    requires WellKeyed(K, patch) && (target.Some? ==> WellKeyed(K, target.value))
    ensures WellKeyed(K, MergePatch(target, patch))
    ensures Meaning(MergePatch(target, patch)) == MergeVal(OptMeaning(target), Meaning(patch))
    decreases patch
  {
    if patch.Object? {
      ApplyRefines(K, if target.Some? && target.value.Object? then target.value.members else NoMember, patch.members);
    }
  }

  lemma {:induction false} ApplyRefines(K: Keys, t: Members, p: Members)
    requires WellKeyedMembers(K, t) && WellKeyedMembers(K, p)
    ensures WellKeyedMembers(K, ApplyMembers(t, p))
    ensures MapOf(ApplyMembers(t, p)) == MergeMap(MapOf(t), VObject(MapOf(p)))
    decreases p
  {
    hide MergeVal, Distinct, CaseCmp, WellKeyed, Names;
    if p.Member? {
      DetachLaw(K, t, p.name);
      NamesAreKeys(p.next);
      var t' := Detach(t, p.name);
      if !p.value.Null? {
        MergePatchRefines(K, Find(t, p.name), p.value);
        AddLaw(K, t', p.name, MergePatch(Find(t, p.name), p.value));
        t' := Add(t', p.name, MergePatch(Find(t, p.name), p.value));
      }
      ApplyRefines(K, t', p.next);
      OneThenRest(MapOf(t), MapOf(t'), MapOf(p.next), p.name, Meaning(p.value));
    }
  }

  /** Merging one member first and the others after is merging them together. */
  lemma OneThenRest(t: map<string, Val>, t': map<string, Val>, p: map<string, Val>, name: string, v: Val)
    requires name !in p
    requires t' == if v == VNull then t - {name} else t[name := MergeVal(At(t, name), v)]
    ensures MergeMap(t', VObject(p)) == MergeMap(t, VObject(p[name := v]))
  {
    hide MergeVal;
  }

  // ----- sorting

  function Length(ms: Members): nat { if ms.NoMember? then 0 else 1 + Length(ms.next) }

  function Take(ms: Members, n: nat): Members {
    if n == 0 || ms.NoMember? then NoMember else Member(ms.name, ms.value, Take(ms.next, n - 1))
  }

  function Drop(ms: Members, n: nat): Members {
    if n == 0 || ms.NoMember? then ms else Drop(ms.next, n - 1)
  }

  /** The test that leaves a sorted list alone. */
  predicate IsSorted(ms: Members) {
    ms.Member? && ms.next.Member? ==> CaseCmp(ms.name, ms.next.name) < 0 && IsSorted(ms.next)
  }

  function Merged(a: Members, b: Members): Members
    decreases Length(a) + Length(b)
  {
    if a.NoMember? then b
    else if b.NoMember? then a
    else if CaseCmp(a.name, b.name) < 0 then Member(a.name, a.value, Merged(a.next, b))
    else Member(b.name, b.value, Merged(a, b.next))
  }

  lemma {:induction false} SplitLengths(ms: Members, n: nat)
    ensures Length(Take(ms, n)) == (if n <= Length(ms) then n else Length(ms))
    ensures Length(Drop(ms, n)) == (if n <= Length(ms) then Length(ms) - n else 0)
    decreases ms
  {
    if n > 0 && ms.Member? { SplitLengths(ms.next, n - 1); }
  }

  /** cJSONUtils_SortList */
  function Sorted(ms: Members): Members
    decreases Length(ms)
  {
    if Length(ms) < 2 || IsSorted(ms) then ms
    else
      var half := (Length(ms) + 1) / 2;
      SplitLengths(ms, half);
      Merged(Sorted(Take(ms, half)), Sorted(Drop(ms, half)))
  }

  /** In order without regard to case. */
  ghost predicate Climbing(ms: Members) {
    ms.Member? ==> (forall k | k in Names(ms.next) :: CaseCmp(ms.name, k) < 0) && Climbing(ms.next)
  }

  ghost predicate Ascending(ms: Members) {
    ms.Member? ==> (forall k | k in Names(ms.next) :: StrCmp(ms.name, k) < 0) && Ascending(ms.next)
  }

  /** Where the two orders agree on the names, a list that is in one is in the other. */
  lemma {:induction false} ClimbingAscends(K: OrderedKeys, ms: Members)
    requires WellKeyedMembers(K, ms) && Climbing(ms)
    ensures Ascending(ms)
  {
    if ms.Member? {
      ClimbingAscends(K, ms.next);
      forall k | k in Names(ms.next) ensures StrCmp(ms.name, k) < 0 {
        KnownName(K, ms.next, k);
        NamesCompare(K, ms.name, k);
      }
    }
  }

  lemma {:induction false} SplitLaw(K: iset<string>, ms: Members, n: nat)
    requires WellKeyedMembers(K, ms)
    ensures WellKeyedMembers(K, Take(ms, n)) && WellKeyedMembers(K, Drop(ms, n))
    ensures Names(Take(ms, n)) !! Names(Drop(ms, n)) && Names(Take(ms, n)) + Names(Drop(ms, n)) == Names(ms)
    ensures MapOf(Take(ms, n)) + MapOf(Drop(ms, n)) == MapOf(ms)
    decreases ms
  {
    NamesAreKeys(ms);
    if n > 0 && ms.Member? {
      SplitLaw(K, ms.next, n - 1);
      NamesAreKeys(Drop(ms, n));
      NamesAreKeys(Take(ms.next, n - 1));
    }
  }

  lemma {:induction false} KnownName(K: iset<string>, ms: Members, k: string)
    requires WellKeyedMembers(K, ms) && k in Names(ms)
    ensures k in K
  {
    if k != ms.name { KnownName(K, ms.next, k); }
  }

  lemma {:induction false} SortedIsClimbing(K: Keys, ms: Members)
    requires WellKeyedMembers(K, ms) && IsSorted(ms)
    ensures Climbing(ms)
  {
    if ms.Member? && ms.next.Member? {
      SortedIsClimbing(K, ms.next);
      forall k | k in Names(ms.next) ensures CaseCmp(ms.name, k) < 0 {
        KnownName(K, ms.next, k);
        if k != ms.next.name { CaseLessIsTransitive(ms.name, ms.next.name, k); }
      }
    }
  }

  lemma {:induction false} MergedLaw(K: iset<string>, a: Members, b: Members)
    requires WellKeyedMembers(K, a) && WellKeyedMembers(K, b) && Names(a) !! Names(b)
    ensures WellKeyedMembers(K, Merged(a, b)) && Names(Merged(a, b)) == Names(a) + Names(b)
    ensures MapOf(Merged(a, b)) == MapOf(a) + MapOf(b)
    decreases Length(a) + Length(b)
  {
    hide Meaning, CaseCmp, WellKeyed;
    NamesAreKeys(a);
    NamesAreKeys(b);
    if a.Member? && b.Member? {
      if CaseCmp(a.name, b.name) < 0 { MergedLaw(K, a.next, b); NamesAreKeys(a.next); }
      else { MergedLaw(K, a, b.next); NamesAreKeys(b.next); }
    }
  }

  lemma {:induction false} MergedClimbs(K: Keys, a: Members, b: Members)
    requires WellKeyedMembers(K, a) && WellKeyedMembers(K, b) && Names(a) !! Names(b) && Climbing(a) && Climbing(b)
    ensures Climbing(Merged(a, b))
    decreases Length(a) + Length(b)
  {
    if a.Member? && b.Member? {
      NamesMatch(K, a.name, b.name);
      CaseCmpFlips(a.name, b.name);
      var first, rest, other := a, a.next, b;
      if CaseCmp(a.name, b.name) < 0 {
        MergedClimbs(K, a.next, b);
        MergedLaw(K, a.next, b);
      } else {
        MergedClimbs(K, a, b.next);
        MergedLaw(K, a, b.next);
        first, rest, other := b, b.next, a;
      }
      forall k | k in Names(rest) + Names(other) ensures CaseCmp(first.name, k) < 0 {
        if k in Names(other) && k != other.name {
          KnownName(K, other, k);
          CaseLessIsTransitive(first.name, other.name, k);
        }
      }
    }
  }

  /** Sorting keeps the members, whatever their names. */
  lemma {:induction false} SortedKeeps(K: iset<string>, ms: Members)
    requires WellKeyedMembers(K, ms)
    ensures WellKeyedMembers(K, Sorted(ms)) && Names(Sorted(ms)) == Names(ms) && MapOf(Sorted(ms)) == MapOf(ms)
    decreases Length(ms)
  {
    hide WellKeyedMembers, Names, MapOf;
    if Length(ms) >= 2 && !IsSorted(ms) {
      var half := (Length(ms) + 1) / 2;
      SplitLengths(ms, half);
      SplitLaw(K, ms, half);
      SortedKeeps(K, Take(ms, half));
      SortedKeeps(K, Drop(ms, half));
      MergedLaw(K, Sorted(Take(ms, half)), Sorted(Drop(ms, half)));
    }
  }

  /** Sorting keeps the members and puts names that do not match one another in order. */
  lemma {:induction false} SortedLaw(K: Keys, ms: Members)
    requires WellKeyedMembers(K, ms)
    ensures WellKeyedMembers(K, Sorted(ms)) && Names(Sorted(ms)) == Names(ms)
    ensures MapOf(Sorted(ms)) == MapOf(ms) && Climbing(Sorted(ms))
    decreases Length(ms)
  {
    SortedKeeps(K, ms);
    if Length(ms) < 2 || IsSorted(ms) {
      if Length(ms) == 1 { assert Length(ms.next) == 0; }
      SortedIsClimbing(K, ms);
    } else {
      var half := (Length(ms) + 1) / 2;
      SplitLengths(ms, half);
      SplitLaw(K, ms, half);
      SortedLaw(K, Take(ms, half));
      SortedLaw(K, Drop(ms, half));
      MergedClimbs(K, Sorted(Take(ms, half)), Sorted(Drop(ms, half)));
    }
  }

  // ----- comparison and the patch generator

  function Size(v: Json): nat {
    match v
    case Array(es) => 1 + SizeElems(es)
    case Object(ms) => 1 + SizeMembers(ms)
    case _ => 1
  }

  function SizeElems(es: Elems): nat { if es.NoElem? then 0 else 1 + Size(es.value) + SizeElems(es.next) }

  function SizeMembers(ms: Members): nat { if ms.NoMember? then 0 else 1 + Size(ms.value) + SizeMembers(ms.next) }

  lemma {:induction false} SplitSize(ms: Members, n: nat)
    ensures SizeMembers(Take(ms, n)) + SizeMembers(Drop(ms, n)) == SizeMembers(ms)
    decreases ms
  {
    if n > 0 && ms.Member? { SplitSize(ms.next, n - 1); }
  }

  lemma {:induction false} MergedSize(a: Members, b: Members)
    ensures SizeMembers(Merged(a, b)) == SizeMembers(a) + SizeMembers(b)
    decreases Length(a) + Length(b)
  {
    if a.Member? && b.Member? {
      if CaseCmp(a.name, b.name) < 0 { MergedSize(a.next, b); } else { MergedSize(a, b.next); }
    }
  }

  lemma {:induction false} SortedSize(ms: Members)
    ensures SizeMembers(Sorted(ms)) == SizeMembers(ms)
    decreases Length(ms)
  {
    hide WellKeyedMembers, Names, MapOf;
    if Length(ms) >= 2 && !IsSorted(ms) {
      var half := (Length(ms) + 1) / 2;
      SplitLengths(ms, half);
      SplitSize(ms, half);
      SortedSize(Take(ms, half));
      SortedSize(Drop(ms, half));
      MergedSize(Sorted(Take(ms, half)), Sorted(Drop(ms, half)));
    }
  }

  /** cJSONUtils_Compare returns 0. */
  predicate Agree(a: Json, b: Json)
    decreases Size(a)
  {
    match (a, b)
    case (Number(m), Number(n)) => m == n
    case (Str(s), Str(t)) => StrCmp(s, t) == 0
    case (Array(es), Array(fs)) => AgreeElems(es, fs)
    case (Object(ms), Object(ns)) =>
      SortedSize(ms);
      AgreeMembers(Sorted(ms), Sorted(ns))
    case (Null, Null) => true
    case (False, False) => true
    case (True, True) => true
    case _ => false
  }

  predicate AgreeElems(a: Elems, b: Elems)
    decreases SizeElems(a)
  {
    if a.NoElem? || b.NoElem? then a.NoElem? && b.NoElem?
    else Agree(a.value, b.value) && AgreeElems(a.next, b.next)
  }

  predicate AgreeMembers(a: Members, b: Members)
    decreases SizeMembers(a)
  {
    if a.NoMember? || b.NoMember? then a.NoMember? && b.NoMember?
    else CaseCmp(a.name, b.name) == 0 && Agree(a.value, b.value) && AgreeMembers(a.next, b.next)
  }

  /** cJSONUtils_GenerateMergePatch; None where it returns a null pointer. */
  function Generate(from: Json, to: Json): Option<Json>
    decreases Size(from) + Size(to)
  {
    if !to.Object? || !from.Object? then Some(to)
    else
      SortedSize(from.members);
      SortedSize(to.members);
      var patch := Diff(Sorted(from.members), Sorted(to.members));
      if patch.NoMember? then None else Some(Object(patch))
  }

  function Diff(from: Members, to: Members): Members
    decreases SizeMembers(from) + SizeMembers(to)
  {
    if from.NoMember? && to.NoMember? then NoMember
    else
      var compare := if from.Member? then (if to.Member? then StrCmp(from.name, to.name) else -1) else 1;
      if compare < 0 then Member(from.name, Null, Diff(from.next, to))
      else if compare > 0 then Member(to.name, to.value, Diff(from, to.next))
      else if Agree(from.value, to.value) then Diff(from.next, to.next)
      else
        match Generate(from.value, to.value)
        case None => Diff(from.next, to.next)
        case Some(p) => Member(to.name, p, Diff(from.next, to.next))
  }

  // ----- the comparison decides equality of meanings

  lemma {:induction false} AgreeDecides(K: Keys, a: Json, b: Json)
    requires WellKeyed(K, a) && WellKeyed(K, b)
    ensures Agree(a, b) <==> Meaning(a) == Meaning(b)
    decreases Size(a)
  {
    match (a, b) {
      case (Str(s), Str(t)) => StrCmpDecides(s, t);
      case (Array(es), Array(fs)) => AgreeElemsDecides(K, es, fs);
      case (Object(ms), Object(ns)) =>
        SortedSize(ms);
        SortedLaw(K, ms);
        SortedLaw(K, ns);
        AgreeMembersDecides(K, Sorted(ms), Sorted(ns));
      case _ =>
    }
  }

  lemma {:induction false} AgreeElemsDecides(K: Keys, a: Elems, b: Elems)
    requires WellKeyedElems(K, a) && WellKeyedElems(K, b)
    ensures AgreeElems(a, b) <==> ItemsOf(a) == ItemsOf(b)
    decreases SizeElems(a)
  {
    if a.Elem? && b.Elem? {
      AgreeDecides(K, a.value, b.value);
      AgreeElemsDecides(K, a.next, b.next);
      assert ItemsOf(a)[1..] == ItemsOf(a.next) && ItemsOf(b)[1..] == ItemsOf(b.next);
      assert ItemsOf(a)[0] == Meaning(a.value) && ItemsOf(b)[0] == Meaning(b.value);
    }
  }

  lemma FirstMatchesLeast(a: Members, k: string)
    requires a.Member? && Climbing(a) && k in Names(a)
    ensures k == a.name || CaseCmp(a.name, k) < 0
  {
  }

  lemma FirstIsLeast(a: Members, k: string)
    requires a.Member? && Ascending(a) && k in Names(a)
    ensures k == a.name || StrCmp(a.name, k) < 0
  {
  }

  /** Two ascending lists with the same names begin with the same one. */
  lemma SameFirst(K: Keys, a: Members, b: Members)
    requires a.Member? && b.Member? && WellKeyedMembers(K, a) && WellKeyedMembers(K, b) && Climbing(a) && Climbing(b)
    requires Names(a) == Names(b)
    ensures a.name == b.name
  {
    CaseCmpFlips(a.name, b.name);
    FirstMatchesLeast(a, b.name);
    FirstMatchesLeast(b, a.name);
  }

  lemma {:induction false} AgreeMembersDecides(K: Keys, a: Members, b: Members)
    requires WellKeyedMembers(K, a) && WellKeyedMembers(K, b) && Climbing(a) && Climbing(b)
    ensures AgreeMembers(a, b) <==> MapOf(a) == MapOf(b)
    decreases SizeMembers(a)
  {
    hide CaseCmp;
    NamesAreKeys(a);
    NamesAreKeys(b);
    if a.Member? && b.Member? {
      NamesAreKeys(a.next);
      NamesAreKeys(b.next);
      NamesMatch(K, a.name, b.name);
      AgreeDecides(K, a.value, b.value);
      AgreeMembersDecides(K, a.next, b.next);
      if MapOf(a) == MapOf(b) {
        SameFirst(K, a, b);
        assert MapOf(a)[a.name] == Meaning(a.value) && MapOf(b)[a.name] == Meaning(b.value);
        assert MapOf(a.next) == MapOf(a) - {a.name} && MapOf(b.next) == MapOf(b) - {a.name};
      }
    } else if a.Member? {
      assert a.name in MapOf(a);
    } else if b.Member? {
      assert b.name in MapOf(b);
    }
  }

  // ----- the generated patch restores its target

  /** No member of an object, or of an object inside it, is null; arrays are not looked into. */
  predicate NoNulls(v: Json) { v.Object? ==> NoNullMembers(v.members) }

  predicate NoNullMembers(ms: Members) {
    ms.Member? ==> !ms.value.Null? && NoNulls(ms.value) && NoNullMembers(ms.next)
  }

  function With(m: map<string, Val>, k: string, v: Option<Val>): map<string, Val> {
    if v.Some? then m[k := v.value] else m
  }

  /** What merging does to one member. */
  function MergeOne(t: Option<Val>, p: Option<Val>): Option<Val> {
    if p.None? then t else if p.value == VNull then None else Some(MergeVal(t, p.value))
  }

  lemma MergeMember(f: map<string, Val>, p: map<string, Val>, t: map<string, Val>, k: string,
                    fv: Option<Val>, pv: Option<Val>, tv: Option<Val>)
    requires k !in f && k !in p && k !in t
    requires MergeMap(f, VObject(p)) == t && MergeOne(fv, pv) == tv
    ensures MergeMap(With(f, k, fv), VObject(With(p, k, pv))) == With(t, k, tv)
  {
    hide MergeVal, MergeMap, MergeOne;
    var f', p' := With(f, k, fv), With(p, k, pv);
    var r, want := MergeMap(f', VObject(p')), With(t, k, tv);
    forall x ensures At(r, x) == At(want, x) {
      MergeAt(f', p', x);
      MergeAt(f, p, x);
      assert x != k ==> At(f', x) == At(f, x) && At(p', x) == At(p, x) && At(want, x) == At(t, x);
    }
    SameAt(r, want);
  }

  /** Merging goes member by member. */
  lemma MergeAt(t: map<string, Val>, p: map<string, Val>, x: string)
    ensures At(MergeMap(t, VObject(p)), x) == MergeOne(At(t, x), At(p, x))
  {
    hide MergeVal;
  }

  lemma SameAt(m: map<string, Val>, n: map<string, Val>)
    requires forall x :: At(m, x) == At(n, x)
    ensures m == n
  {
    forall x ensures x in m <==> x in n { assert At(m, x) == At(n, x); }
    forall x | x in m ensures m[x] == n[x] { assert At(m, x) == At(n, x); }
  }

  /** Merged onto nothing, a value without null members is itself; with one it is not. */
  lemma {:induction false} MergeFresh(K: iset<string>, v: Json, target: Option<Val>)
    requires WellKeyed(K, v) && (target.Some? && target.value.VObject? ==> target.value.m == map[])
    ensures MergeVal(target, Meaning(v)) == Meaning(v) <==> NoNulls(v)
    decreases v
  {
    if v.Object? { MergeFreshMembers(K, v.members); }
  }

  lemma AtNothing(m: map<string, Val>, k: string)
    requires k !in m
    ensures At(m, k) == None
  {
  }

  lemma MergeOntoNothing(p: map<string, Val>, name: string, v: Val)
    requires name !in p
    ensures var r := MergeMap(map[], VObject(p));
      name !in r && MergeMap(map[], VObject(p[name := v])) == if v == VNull then r else r[name := MergeVal(None, v)]
  {
    hide MergeVal, At;
    var e: map<string, Val> := map[];
    assert At(e, name) == None by { AtNothing(e, name); }
    var r, q := MergeMap(e, VObject(p)), MergeMap(e, VObject(p[name := v]));
    var want := if v == VNull then r else r[name := MergeVal(None, v)];
    assert q.Keys == want.Keys;
    assert forall x | x in want :: q[x] == want[x];
  }

  lemma {:induction false} MergeFreshMembers(K: iset<string>, ms: Members)
    requires WellKeyedMembers(K, ms)
    ensures MergeMap(map[], VObject(MapOf(ms))) == MapOf(ms) <==> NoNullMembers(ms)
    decreases ms
  {
    hide MergeVal;
    if ms.Member? {
      NamesAreKeys(ms.next);
      MergeFresh(K, ms.value, None);
      MergeFreshMembers(K, ms.next);
      MergeOntoNothing(MapOf(ms.next), ms.name, Meaning(ms.value));
      var m, r := MapOf(ms), MergeMap(map[], VObject(MapOf(ms)));
      hide MergeMap, MergeVal, Meaning, NoNulls;
      if r == m {
        assert ms.name in r && r[ms.name] == m[ms.name];
        assert MergeMap(map[], VObject(MapOf(ms.next))) == r - {ms.name};
      }
    }
  }

  lemma NotAmong(K: OrderedKeys, k: string, ms: Members)
    requires k in K && WellKeyedMembers(K, ms) && Ascending(ms) && (ms.Member? ==> StrCmp(k, ms.name) < 0)
    ensures k !in Names(ms)
  {
    if k in Names(ms) {
      NamesCompare(K, k, ms.name);
      FirstIsLeast(ms, k);
    }
  }

  /** A generated patch turns `from` into `to`, and there is none only where the two mean the same. */
  lemma {:induction false} GenerateLaw(K: OrderedKeys, from: Json, to: Json)
    requires WellKeyed(K, from) && WellKeyed(K, to) && NoNulls(to)
    ensures match Generate(from, to)
            case None => Meaning(from) == Meaning(to)
            case Some(p) =>
              && WellKeyed(K, p) && (p.Null? ==> to.Null?)
              && MergeVal(Some(Meaning(from)), Meaning(p)) == Meaning(to)
    decreases Size(from) + Size(to)
  {
    if to.Object? && from.Object? {
      var f, t := from.members, to.members;
      SortedSize(f);
      SortedSize(t);
      SortedLaw(K, f);
      SortedLaw(K, t);
      ClimbingAscends(K, Sorted(f));
      ClimbingAscends(K, Sorted(t));
      MergeFreshMembers(K, t);
      MergeFreshMembers(K, Sorted(t));
      DiffLaw(K, Sorted(f), Sorted(t));
      hide MergeMap;
      if Diff(Sorted(f), Sorted(t)).NoMember? { MergeNothing(MapOf(f)); }
    } else if to.Object? {
      MergeFresh(K, to, Some(Meaning(from)));
    }
  }

  lemma MergeNothing(m: map<string, Val>)
    ensures MergeMap(m, VObject(map[])) == m
  {
  }

  lemma {:induction false} DiffLaw(K: OrderedKeys, f: Members, t: Members)
    requires WellKeyedMembers(K, f) && WellKeyedMembers(K, t) && Ascending(f) && Ascending(t) && NoNullMembers(t)
    ensures WellKeyedMembers(K, Diff(f, t)) && Names(Diff(f, t)) <= Names(f) + Names(t)
    ensures MergeMap(MapOf(f), VObject(MapOf(Diff(f, t)))) == MapOf(t)
    decreases SizeMembers(f) + SizeMembers(t)
  {
    NamesAreKeys(f);
    NamesAreKeys(t);
    if f.Member? && (t.Member? ==> StrCmp(f.name, t.name) < 0) {
      DiffLaw(K, f.next, t);
      NotAmong(K, f.name, t);
      DiffStep(K, f.next, t, Diff(f.next, t), f.name, Some(f.value), Some(Null), None);
    } else if t.Member? && (f.Member? ==> StrCmp(f.name, t.name) > 0) {
      if f.Member? { NamesCompare(K, f.name, t.name); }
      DiffLaw(K, f, t.next);
      NotAmong(K, t.name, f);
      MergeFresh(K, t.value, None);
      DiffStep(K, f, t.next, Diff(f, t.next), t.name, None, Some(t.value), Some(t.value));
    } else if f.Member? {
      NamesCompare(K, f.name, t.name);
      DiffLaw(K, f.next, t.next);
      AgreeDecides(K, f.value, t.value);
      GenerateLaw(K, f.value, t.value);
      DiffStep(K, f.next, t.next, Diff(f.next, t.next), t.name, Some(f.value),
               if Agree(f.value, t.value) then None else Generate(f.value, t.value), Some(t.value));
    }
  }

  function Before(name: string, v: Option<Json>, rest: Members): Members {
    if v.None? then rest else Member(name, v.value, rest)
  }

  /** One more member in front of the two lists and of the patch. */
  lemma DiffStep(K: iset<string>, f: Members, t: Members, p: Members, name: string, fv: Option<Json>, pv: Option<Json>, tv: Option<Json>)
    requires WellKeyedMembers(K, p) && Names(p) <= Names(f) + Names(t)
    requires name in K && name !in Names(f) && name !in Names(t)
    requires MergeMap(MapOf(f), VObject(MapOf(p))) == MapOf(t)
    requires pv.Some? ==> WellKeyed(K, pv.value) && (fv.Some? || tv.Some?)
    requires MergeOne(OptMeaning(fv), OptMeaning(pv)) == OptMeaning(tv)
    ensures WellKeyedMembers(K, Before(name, pv, p))
    ensures Names(Before(name, pv, p)) <= Names(Before(name, fv, f)) + Names(Before(name, tv, t))
    ensures MergeMap(MapOf(Before(name, fv, f)), VObject(MapOf(Before(name, pv, p)))) == MapOf(Before(name, tv, t))
  {
    hide MergeMap, WellKeyed, MergeOne;
    NamesAreKeys(f);
    NamesAreKeys(t);
    NamesAreKeys(p);
    MergeMember(MapOf(f), MapOf(p), MapOf(t), name, OptMeaning(fv), OptMeaning(pv), OptMeaning(tv));
    hide MergeMap, MergeOne;
    assert MapOf(Before(name, fv, f)) == With(MapOf(f), name, OptMeaning(fv));
    assert MapOf(Before(name, pv, p)) == With(MapOf(p), name, OptMeaning(pv));
    assert MapOf(Before(name, tv, t)) == With(MapOf(t), name, OptMeaning(tv));
  }

  /** A generated patch for two objects speaks of exactly the members that differ, and there is none exactly where
      the two mean the same. */
  lemma {:induction false} GeneratesDifferences(K: OrderedKeys, from: Json, to: Json)
    requires WellKeyed(K, from) && WellKeyed(K, to) && from.Object? && to.Object?
    ensures Generate(from, to) == None <==> Meaning(from) == Meaning(to)
    ensures Generate(from, to) != None ==> Generate(from, to).value.Object?
    ensures forall k :: Generate(from, to) != None ==>
              (k in MapOf(Generate(from, to).value.members) <==> At(MapOf(from.members), k) != At(MapOf(to.members), k))
    decreases Size(from) + Size(to), 1
  {
    var f, t := from.members, to.members;
    SortedSize(f);
    SortedSize(t);
    SortedLaw(K, f);
    SortedLaw(K, t);
    ClimbingAscends(K, Sorted(f));
    ClimbingAscends(K, Sorted(t));
    DiffMentions(K, Sorted(f), Sorted(t));
    var p := Diff(Sorted(f), Sorted(t));
    if p.NoMember? {
      SameAt(MapOf(f), MapOf(t));
    } else {
      assert p.name in MapOf(p);
    }
  }

  /** One more member in front, in the patch exactly if it differs. */
  lemma MentionStep(f: Members, t: Members, p: Members, name: string, fv: Option<Json>, pv: Option<Json>, tv: Option<Json>)
    requires name !in MapOf(f) && name !in MapOf(t) && (pv.Some? <==> OptMeaning(fv) != OptMeaning(tv))
    requires forall k :: k in MapOf(p) <==> At(MapOf(f), k) != At(MapOf(t), k)
    ensures forall k :: k in MapOf(Before(name, pv, p)) <==>
              At(MapOf(Before(name, fv, f)), k) != At(MapOf(Before(name, tv, t)), k)
  {
    hide Meaning, MapOf, Before;
    BeforeIs(name, fv, f);
    BeforeIs(name, tv, t);
    BeforeIs(name, pv, p);
    forall k ensures k in MapOf(Before(name, pv, p)) <==> At(MapOf(Before(name, fv, f)), k) != At(MapOf(Before(name, tv, t)), k) {
      assert k == name || (k in MapOf(p) <==> At(MapOf(f), k) != At(MapOf(t), k));
    }
  }

  lemma BeforeIs(name: string, v: Option<Json>, ms: Members)
    ensures MapOf(Before(name, v, ms)) == With(MapOf(ms), name, OptMeaning(v))
  {
    hide Meaning;
  }

  lemma {:induction false} DiffMentions(K: OrderedKeys, f: Members, t: Members)
    requires WellKeyedMembers(K, f) && WellKeyedMembers(K, t) && Ascending(f) && Ascending(t)
    ensures forall k :: k in MapOf(Diff(f, t)) <==> At(MapOf(f), k) != At(MapOf(t), k)
    decreases SizeMembers(f) + SizeMembers(t), 0
  {
    hide Meaning, MapOf, At, Agree, Generate;
    NamesAreKeys(f);
    NamesAreKeys(t);
    if f.Member? && (t.Member? ==> StrCmp(f.name, t.name) < 0) {
      NamesAreKeys(f.next);
      DiffMentions(K, f.next, t);
      NotAmong(K, f.name, t);
      MentionStep(f.next, t, Diff(f.next, t), f.name, Some(f.value), Some(Null), None);
      assert Diff(f, t) == Before(f.name, Some(Null), Diff(f.next, t)) && f == Before(f.name, Some(f.value), f.next);
      assert t == Before(f.name, None, t);
    } else if t.Member? && (f.Member? ==> StrCmp(f.name, t.name) > 0) {
      if f.Member? { NamesCompare(K, f.name, t.name); }
      NamesAreKeys(t.next);
      DiffMentions(K, f, t.next);
      NotAmong(K, t.name, f);
      MentionStep(f, t.next, Diff(f, t.next), t.name, None, Some(t.value), Some(t.value));
      assert Diff(f, t) == Before(t.name, Some(t.value), Diff(f, t.next)) && f == Before(t.name, None, f);
      assert t == Before(t.name, Some(t.value), t.next);
    } else if f.Member? {
      NamesAreKeys(f.next);
      NamesAreKeys(t.next);
      NamesCompare(K, f.name, t.name);
      DiffMentions(K, f.next, t.next);
      AgreeDecides(K, f.value, t.value);
      if f.value.Object? && t.value.Object? { GeneratesDifferences(K, f.value, t.value); } else { GeneratesTarget(f.value, t.value); }
      var pv := if Agree(f.value, t.value) then None else Generate(f.value, t.value);
      MentionStep(f.next, t.next, Diff(f.next, t.next), t.name, Some(f.value), pv, Some(t.value));
      assert Diff(f, t) == Before(t.name, pv, Diff(f.next, t.next));
      assert f == Before(t.name, Some(f.value), f.next) && t == Before(t.name, Some(t.value), t.next);
    } else {
      NothingMentioned();
    }
  }

  lemma GeneratesTarget(from: Json, to: Json)
    requires !from.Object? || !to.Object?
    ensures Generate(from, to) == Some(to)
  {
  }

  lemma NothingMentioned()
    ensures MapOf(NoMember) == map[]
  {
  }

  /** `from` with the patch from it to `to` applied, or as it was where there is no patch. */
  function Restored(from: Json, to: Json): Json {
    match Generate(from, to)
    case None => from
    case Some(p) => MergePatch(Some(from), p)
  }

  lemma PatchRestores(K: OrderedKeys, from: Json, to: Json)
    requires WellKeyed(K, from) && WellKeyed(K, to) && NoNulls(to)
    ensures WellKeyed(K, Restored(from, to)) && Meaning(Restored(from, to)) == Meaning(to)
  {
    GenerateLaw(K, from, to);
    hide Generate, Meaning, MergeVal, MergePatch;
    match Generate(from, to) {
      case None =>
      case Some(p) => MergePatchRefines(K, Some(from), p);
    }
  }

  /** A target is restored from every starting value exactly when it has no null members. */
  lemma RestoresExactly(K: OrderedKeys, to: Json)
    requires WellKeyed(K, to)
    ensures NoNulls(to) <==> forall from | WellKeyed(K, from) :: Meaning(Restored(from, to)) == Meaning(to)
  {
    forall from | WellKeyed(K, from) && NoNulls(to) ensures Meaning(Restored(from, to)) == Meaning(to) {
      PatchRestores(K, from, to);
    }
    MergePatchRefines(K, Some(Null), to);
    MergeFresh(K, to, Some(VNull));
    assert WellKeyed(K, Null) && (Meaning(Restored(Null, to)) == Meaning(to) <==> NoNulls(to));
  }

  // ----- which names may be used

  function One(name: string, v: Json): Json { Object(Member(name, v, NoMember)) }

  lemma OneIsKeyed(K: iset<string>, name: string, v: Json)
    requires name in K && WellKeyed(K, v)
    ensures WellKeyed(K, One(name, v)) && (NoNulls(One(name, v)) <==> !v.Null? && NoNulls(v))
  {
    assert WellKeyedMembers(K, NoMember) && NoNullMembers(NoMember);
  }

  lemma EmptyDiffers(ms: Members)
    requires ms.Member?
    ensures Meaning(Object(NoMember)) != Meaning(Object(ms))
  {
    assert ms.name in MapOf(ms);
  }

  /** Names that match without regard to case are confused by the apply. */
  lemma MatchIsConfused(a: string, b: string)
    requires a != b && CaseCmp(a, b) == 0
    ensures Meaning(MergePatch(Some(One(a, True)), One(b, Null))) != MergeVal(Some(Meaning(One(a, True))), Meaning(One(b, Null)))
  {
    var t, p := Member(a, True, NoMember), Member(b, Null, NoMember);
    assert MapOf(t) == map[a := VTrue] by { assert MapOf(t.next) == map[]; }
    assert MapOf(p) == map[b := VNull] by { assert MapOf(p.next) == map[]; }
    assert ApplyMembers(t, p) == Detach(t, b) == NoMember;
    assert a in MergeMap(MapOf(t), VObject(MapOf(p)));
  }

  /** Applying a patch means what RFC 7396 says on all values over a set of names exactly when no two of
      them match without regard to case. */
  lemma MergeRefinesExactly(K: iset<string>)
    requires forall a | a in K :: CString(a)
    ensures Distinct(K) <==>
            forall t, p | WellKeyed(K, t) && WellKeyed(K, p) :: Meaning(MergePatch(Some(t), p)) == MergeVal(Some(Meaning(t)), Meaning(p))
  {
    hide Meaning, MergeVal, MergePatch, WellKeyed;
    if Distinct(K) {
      forall t, p | WellKeyed(K, t) && WellKeyed(K, p)
        ensures Meaning(MergePatch(Some(t), p)) == MergeVal(Some(Meaning(t)), Meaning(p))
      {
        MergePatchRefines(K, Some(t), p);
      }
    } else {
      var t, p := ConfusedPair(K);
      assert Meaning(MergePatch(Some(t), p)) != MergeVal(Some(Meaning(t)), Meaning(p));
    }
  }

  lemma ConfusedPair(K: iset<string>) returns (t: Json, p: Json)
    requires (forall a | a in K :: CString(a)) && !Distinct(K)
    ensures WellKeyed(K, t) && WellKeyed(K, p) && Meaning(MergePatch(Some(t), p)) != MergeVal(Some(Meaning(t)), Meaning(p))
  {
    hide Meaning, MergeVal, MergePatch;
    var a, b :| a in K && b in K && CaseCmp(a, b) == 0 && a != b;
    t, p := One(a, True), One(b, Null);
    MatchIsConfused(a, b);
    OneIsKeyed(K, a, True);
    OneIsKeyed(K, b, Null);
  }

  /** The comparison decides equality on all values over a set of names exactly when no two of them match
      without regard to case. */
  lemma AgreeDecidesExactly(K: iset<string>)
    requires forall a | a in K :: CString(a)
    ensures Distinct(K) <==>
            forall v, w | WellKeyed(K, v) && WellKeyed(K, w) :: Agree(v, w) <==> Meaning(v) == Meaning(w)
  {
    hide Agree, Meaning, WellKeyed;
    if Distinct(K) {
      forall v, w | WellKeyed(K, v) && WellKeyed(K, w) ensures Agree(v, w) <==> Meaning(v) == Meaning(w) {
        AgreeDecides(K, v, w);
      }
    } else {
      var v, w := MistakenPair(K);
      assert Agree(v, w) && Meaning(v) != Meaning(w);
    }
  }

  lemma MistakenPair(K: iset<string>) returns (v: Json, w: Json)
    requires (forall a | a in K :: CString(a)) && !Distinct(K)
    ensures WellKeyed(K, v) && WellKeyed(K, w) && Agree(v, w) && Meaning(v) != Meaning(w)
  {
    hide Meaning, Agree;
    var a, b :| a in K && b in K && CaseCmp(a, b) == 0 && a != b;
    v, w := One(a, True), One(b, True);
    OneIsKeyed(K, a, True);
    OneIsKeyed(K, b, True);
    OneDiffers(a, b);
    OneAgrees(a, b);
  }

  lemma OneAgrees(a: string, b: string)
    requires CaseCmp(a, b) == 0
    ensures Agree(One(a, True), One(b, True))
  {
    var f, t := Member(a, True, NoMember), Member(b, True, NoMember);
    assert Length(f) == 1 && Length(t) == 1;
    assert Sorted(f) == f && Sorted(t) == t;
    assert Agree(True, True) && AgreeMembers(NoMember, NoMember);
    assert AgreeMembers(f, t);
  }

  lemma OneDiffers(a: string, b: string)
    requires a != b
    ensures Meaning(One(a, True)) != Meaning(One(b, True))
  {
    var m, n := MapOf(Member(a, True, NoMember)), MapOf(Member(b, True, NoMember));
    assert MapOf(NoMember) == map[];
    assert a in m && a !in n;
  }

  /** The generator loses a member between names that match without regard to case. */
  lemma MatchIsLost(a: string, b: string)
    requires CString(a) && CString(b) && CaseCmp(a, b) == 0 && StrCmp(a, b) > 0
    ensures Restored(One(a, True), One(b, True)) == Object(NoMember)
  {
    CaseCmpFlips(a, b);
    CaseCmpFlips(b, b);
    var f, t := Member(a, True, NoMember), Member(b, True, NoMember);
    assert Diff(f, NoMember) == Member(a, Null, NoMember);
    assert Diff(f, t) == Member(b, True, Member(a, Null, NoMember));
    assert Generate(Object(f), Object(t)) == Some(Object(Member(b, True, Member(a, Null, NoMember))));
    assert ApplyMembers(t, Member(a, Null, NoMember)) == NoMember;
    assert ApplyMembers(f, Member(b, True, Member(a, Null, NoMember))) == NoMember;
  }

  /** And where the two orders differ: with a for "_" and b for "Z" it takes Z out of {"_": true, "Z": true}
      on the way to {"Z": true}. */
  lemma DisorderIsLost(a: string, b: string)
    requires CString(a) && CString(b) && CaseCmp(a, b) < 0 < StrCmp(a, b)
    ensures Restored(Object(Member(a, True, Member(b, True, NoMember))), One(b, True)) == Object(NoMember)
  {
    CaseCmpFlips(a, b);
    CaseCmpFlips(a, a);
    CaseCmpFlips(b, b);
    var t := Member(b, True, NoMember);
    var f := Member(a, True, t);
    var nulls := Member(a, Null, Member(b, Null, NoMember));
    assert Diff(t, NoMember) == Member(b, Null, NoMember);
    assert Diff(f, NoMember) == nulls;
    assert Diff(f, t) == Member(b, True, nulls);
    assert IsSorted(t) && IsSorted(f);
    assert Generate(Object(f), Object(t)) == Some(Object(Member(b, True, nulls)));
    assert Detach(t, b) == NoMember && Add(NoMember, b, True) == t;
    assert Detach(f, b) == Member(a, True, NoMember) && Add(Detach(f, b), b, True) == f;
    assert ApplyMembers(t, Member(b, Null, NoMember)) == NoMember;
    assert ApplyMembers(f, nulls) == NoMember;
    assert ApplyMembers(f, Member(b, True, nulls)) == NoMember;
  }

  lemma CapitalsFail()
    ensures var t := Member("Z", True, NoMember);
      Restored(Object(Member("_", True, t)), Object(t)) == Object(NoMember)
  {
    DisorderIsLost("_", "Z");
  }

  /** The generated patches restore all targets without nulls over a set of names exactly when the names
      have the same order with and without regard to case. */
  lemma NamesRestoreExactly(K: iset<string>)
    requires forall a | a in K :: CString(a)
    ensures Ordered(K) <==>
            forall from, to | WellKeyed(K, from) && WellKeyed(K, to) && NoNulls(to) :: Meaning(Restored(from, to)) == Meaning(to)
  {
    if Ordered(K) {
      forall from, to | WellKeyed(K, from) && WellKeyed(K, to) && NoNulls(to)
        ensures Meaning(Restored(from, to)) == Meaning(to)
      {
        PatchRestores(K, from, to);
      }
    } else {
      var from, to := LostTarget(K);
      assert Meaning(Restored(from, to)) != Meaning(to);
    }
  }

  lemma LostTarget(K: iset<string>) returns (from: Json, to: Json)
    requires (forall a | a in K :: CString(a)) && !Ordered(K)
    ensures WellKeyed(K, from) && WellKeyed(K, to) && NoNulls(to) && Meaning(Restored(from, to)) != Meaning(to)
  {
    hide Restored, Meaning;
    if Distinct(K) {
      var b, a :| b in K && a in K && StrCmp(b, a) < 0 && CaseCmp(b, a) >= 0;
      CaseCmpFlips(a, b);
      StrCmpDecides(a, b);
      DisorderIsLost(a, b);
      from, to := Object(Member(a, True, Member(b, True, NoMember))), One(b, True);
      OneIsKeyed(K, b, True);
      EmptyDiffers(to.members);
    } else {
      var a, b :| a in K && b in K && CaseCmp(a, b) == 0 && a != b;
      CaseCmpFlips(a, b);
      StrCmpDecides(a, b);
      if StrCmp(a, b) < 0 { a, b := b, a; }
      MatchIsLost(a, b);
      from, to := One(a, True), One(b, True);
      OneIsKeyed(K, a, True);
      OneIsKeyed(K, b, True);
      EmptyDiffers(to.members);
    }
  }
}
