/** The loops of cJSON_Utils.c over child lists, against the list functions of JsonPatch. A list
    pointer is the rest of the list from there; JsonList has the sort and the detaching on real ones. */
module JsonPatchOps {
  import opened JsonText
  import opened JsonPatch

  // ----- comparing

  /** cJSONUtils_Compare: 0 for equal values, otherwise a code for the first difference. */
  method Compare(a: Json, b: Json) returns (err: int)
    ensures err == 0 <==> Agree(a, b)
    decreases Size(a), 1
  {
    match (a, b) {
      case (Number(m), Number(n)) => return if m != n then -2 else 0;
      case (Str(s), Str(t)) => return if StrCmp(s, t) != 0 then -3 else 0;
      case (Array(es), Array(fs)) =>
        var x, y := es, fs;
        while x.Elem? && y.Elem?
          invariant AgreeElems(x, y) == AgreeElems(es, fs) && SizeElems(x) <= SizeElems(es)
          decreases x
        {
          err := Compare(x.value, y.value);
          if err != 0 {
            return;
          }
          x, y := x.next, y.next;
        }
        return if x.Elem? || y.Elem? then -4 else 0;
      case (Object(ms), Object(ns)) =>
        SortedSize(ms);
        err := CompareMembers(Sorted(ms), Sorted(ns));
        return;
      case (Null, Null) => return 0;
      case (False, False) => return 0;
      case (True, True) => return 0;
      case _ => return -1;
    }
  }

  method CompareMembers(a: Members, b: Members) returns (err: int)
    ensures err == 0 <==> AgreeMembers(a, b)
    decreases SizeMembers(a) + 1, 0
  {
    var x, y := a, b;
    while x.Member? && y.Member?
      invariant AgreeMembers(x, y) == AgreeMembers(a, b) && SizeMembers(x) <= SizeMembers(a)
      decreases x
    {
      if CaseCmp(x.name, y.name) != 0 {
        return -6;
      }
      err := Compare(x.value, y.value);
      if err != 0 {
        return;
      }
      x, y := x.next, y.next;
    }
    return if x.Member? || y.Member? then -5 else 0;
  }

  // ----- applying a patch

  /** cJSONUtils_MergePatch */
  method ApplyPatch(target: Option<Json>, patch: Json) returns (r: Json)
    ensures r == MergePatch(target, patch)
    decreases Size(patch)
  {
    if !patch.Object? {
      return patch;
    }
    var t := if target.Some? && target.value.Object? then target.value.members else NoMember;
    var p := patch.members;
    while p.Member?
      invariant Object(ApplyMembers(t, p)) == MergePatch(target, patch) && SizeMembers(p) < Size(patch)
      decreases p
    {
      if p.value.Null? {
        t := Detach(t, p.name);
      } else {
        var replaceme := Find(t, p.name);
        t := Detach(t, p.name);
        var merged := ApplyPatch(replaceme, p.value);
        t := Add(t, p.name, merged);
      }
      p := p.next;
    }
    return Object(t);
  }

  // ----- generating a patch

  lemma {:induction false} AddJoins(ms: Members, name: string, v: Json)
    ensures Add(ms, name, v) == JoinMembers(ms, Member(name, v, NoMember))
  {
    if ms.Member? { AddJoins(ms.next, name, v); }
  }

  /** What a patch that has come to be ms grows to when rest still follows. */
  lemma AddOne(ms: Members, name: string, v: Json, rest: Members)
    ensures JoinMembers(Add(ms, name, v), rest) == JoinMembers(ms, Member(name, v, rest))
  {
    AddJoins(ms, name, v);
    MembersAssoc(ms, Member(name, v, NoMember), rest);
    JoinOneMember(name, v, rest);
  }

  /** cJSONUtils_GenerateMergePatch; None where it returns a null pointer. */
  method GeneratePatch(from: Json, to: Json) returns (r: Option<Json>)
    ensures r == Generate(from, to)
    decreases Size(from) + Size(to)
  {
    if !to.Object? || !from.Object? {
      return Some(to);
    }
    SortedSize(from.members);
    SortedSize(to.members);
    var f0, t0 := Sorted(from.members), Sorted(to.members);
    var f, t, patch := f0, t0, NoMember;
    while f.Member? || t.Member?
      invariant JoinMembers(patch, Diff(f, t)) == Diff(f0, t0)
      invariant SizeMembers(f) < Size(from) && SizeMembers(t) < Size(to)
      decreases SizeMembers(f) + SizeMembers(t)
    {
      var compare := if f.Member? then (if t.Member? then StrCmp(f.name, t.name) else -1) else 1;
      if compare < 0 {
        AddOne(patch, f.name, Null, Diff(f.next, t));
        patch := Add(patch, f.name, Null);
        f := f.next;
      } else if compare > 0 {
        AddOne(patch, t.name, t.value, Diff(f, t.next));
        patch := Add(patch, t.name, t.value);
        t := t.next;
      } else {
        var err := Compare(f.value, t.value);
        if err != 0 {
          var p := GeneratePatch(f.value, t.value);
          if p.Some? {
            AddOne(patch, t.name, p.value, Diff(f.next, t.next));
            patch := Add(patch, t.name, p.value);
          }
        }
        f, t := f.next, t.next;
      }
    }
    MembersEnd(patch);
    if patch.NoMember? {
      return None;
    }
    return Some(Object(patch));
  }
}
