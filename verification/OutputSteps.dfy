/** The steps of ntg_output_chain on the state of OutputState, and what each of them keeps. */
module OutputSteps {
  import opened OutputState

  /** sent and q belong to the output filter: the bytes that left, and the chains it still holds. The
      rest is the context: input is ctx->in, out the chain under construction. */
  datatype State = State(c: Contents, sent: seq<Byte>, q: seq<Buf>, busy: seq<Buf>, free: seq<Buf>, out: seq<Buf>,
                         input: seq<Buf>, made: nat, submitted: seq<Byte>)

  /** Every buffer waits in one place, and only the context's own buffers are copied into. */
  ghost predicate Lines(st: State) {
    && NoDup(st.q + st.out + st.input)
    && (forall b :: b in st.q + st.out + st.input ==> b in st.c)
    && (forall b :: b in st.input ==> !b.own)
  }

  /** Own buffers on their way hold bytes; those that the filter holds are known to be busy. */
  ghost predicate Lent(st: State) {
    && (forall b :: b in st.q && b.own ==> b in st.busy && Content(st.c, b) != [])
    && (forall b :: b in st.out && b.own ==> b !in st.busy && b !in st.free && Content(st.c, b) != [])
  }

  /** Free buffers are empty and nobody's; none is lost, and no more than num were ever made. */
  ghost predicate Pooled(st: State, num: nat) {
    && NoDup(st.free) && NoDup(Own(st.busy))
    && (forall b :: b in st.busy ==> b in st.c)
    && (forall b :: b in st.free ==> b.own && b in st.c && Content(st.c, b) == [] && b !in st.busy)
    && |st.free| + |Own(st.busy)| + |Own(st.out)| == st.made <= num
  }

  /** What was submitted has left, or is held by the filter, or is still to come, in this order. */
  ghost predicate Stream(st: State) {
    st.submitted == st.sent + (Flat(st.c, st.q) + (Flat(st.c, st.out) + Flat(st.c, st.input)))
  }

  ghost predicate Sound(st: State, num: nat) { Lines(st) && Lent(st) && Pooled(st, num) && Stream(st) }

  /** A free buffer holds no byte and waits nowhere, so it can be written to. */
  lemma FreeIsIdle(st: State, num: nat, b: Buf)
    requires Sound(st, num) && b in st.free
    ensures Content(st.c, b) == [] && b !in st.q + st.out + st.input && b !in st.busy
  {
  }

  // ----- passing a buffer on as it is, or dropping an empty one

  function AsIs(st: State): State
    requires st.input != []
  {
    st.(out := st.out + [st.input[0]], input := st.input[1..])
  }

  lemma AsIsKeeps(st: State, num: nat)
    requires Sound(st, num) && st.input != []
    ensures Sound(AsIs(st), num)
  {
    hide Flat;
    var w, b := AsIs(st), st.input[0];
    assert w.q + w.out + w.input == st.q + st.out + st.input;
    FlatJoins(st.c, st.out, [b]);
    FlatJoins(st.c, [b], st.input[1..]);
    assert [b] + st.input[1..] == st.input;
    OwnJoins(st.out, [b]);
    FlatRegroup(st, Flat(st.c, [b]), Flat(st.c, w.input));
  }

  lemma FlatRegroup(st: State, x: seq<Byte>, y: seq<Byte>)
    ensures Flat(st.c, st.out) + (x + y) == (Flat(st.c, st.out) + x) + y
  {
  }

  function Skipped(st: State): State
    requires st.input != []
  {
    st.(input := st.input[1..])
  }

  lemma SkipKeeps(st: State, num: nat)
    requires Sound(st, num) && st.input != [] && Content(st.c, st.input[0]) == []
    ensures Sound(Skipped(st), num)
  {
    hide Own, Content;
    var w := Skipped(st);
    assert forall b :: b in w.q + w.out + w.input ==> b in st.q + st.out + st.input;
    DropInMiddle(st.q + st.out, st.input);
  }

  lemma DropInMiddle(s: seq<Buf>, t: seq<Buf>)
    requires NoDup(s + t) && t != []
    ensures NoDup(s + t[1..])
  {
    var u, w := s + t, s + t[1..];
    forall i, j | 0 <= i < j < |w| ensures w[i] != w[j] {
      assert w[i] == u[if i < |s| then i else i + 1] && w[j] == u[if j < |s| then j else j + 1];
    }
  }

  // ----- copying bytes of the first input buffer into an own one

  /** dst has been taken from the free list, or newly made, before. */
  function Filled(st: State, dst: Buf, n: nat): State
    requires st.input != [] && n <= |Content(st.c, st.input[0])|
  {
    var src, s := st.input[0], Content(st.c, st.input[0]);
    st.(c := st.c[dst := s[..n]][src := s[n..]], out := st.out + [dst],
        input := if n == |s| then st.input[1..] else st.input)
  }

  /** dst is in the context's hands: made by it, and neither free nor busy nor on its way. */
  ghost predicate InHand(st: State, num: nat, dst: Buf) {
    && Lines(st) && Lent(st) && Stream(st)
    && NoDup(st.free) && NoDup(Own(st.busy))
    && (forall b :: b in st.busy ==> b in st.c)
    && (forall b :: b in st.free ==> b.own && b in st.c && Content(st.c, b) == [] && b !in st.busy)
    && |st.free| + |Own(st.busy)| + |Own(st.out)| + 1 == st.made <= num
    && dst.own && dst !in st.q + st.out + st.input && dst !in st.busy && dst !in st.free
  }

  function Taken(st: State): State
    requires st.free != []
  {
    st.(free := st.free[1..])
  }

  lemma TakingIsSafe(st: State, num: nat)
    requires Sound(st, num) && st.free != []
    ensures InHand(Taken(st), num, st.free[0])
  {
    FreeIsIdle(st, num, st.free[0]);
  }

  function Made(st: State, dst: Buf): State {
    st.(c := st.c[dst := []], made := st.made + 1)
  }

  lemma MakingIsSafe(st: State, num: nat, dst: Buf)
    requires Sound(st, num) && st.made < num && dst.own && dst !in st.c && dst !in st.busy
    ensures InHand(Made(st, dst), num, dst)
  {
    hide Own, Flat;
    var w := Made(st, dst);
    FlatFrame(st.c, w.c, st.q);
    FlatFrame(st.c, w.c, st.out);
    FlatFrame(st.c, w.c, st.input);
  }

  lemma InsertInMiddle(s: seq<Buf>, t: seq<Buf>, b: Buf)
    requires NoDup(s + t) && b !in s + t
    ensures NoDup(s + [b] + t)
  {
    var u, w := s + t, s + [b] + t;
    forall i, j | 0 <= i < j < |w| ensures w[i] != w[j] {
      if i != |s| { assert w[i] == u[if i < |s| then i else i - 1]; }
      if j != |s| { assert w[j] == u[if j < |s| then j else j - 1]; }
    }
  }

  lemma FillLines(st: State, num: nat, dst: Buf, n: nat)
    requires InHand(st, num, dst) && st.input != [] && 0 < n <= |Content(st.c, st.input[0])|
    ensures Lines(Filled(st, dst, n))
  {
    var w, s := Filled(st, dst, n), st.q + st.out;
    InsertInMiddle(s, st.input, dst);
    assert w.q + w.out == s + [dst];
    if w.input != st.input { DropInMiddle(s + [dst], st.input); }
    assert forall b :: b in w.q + w.out + w.input ==> b == dst || b in st.q + st.out + st.input;
  }

  /** The buffers of the two other lines keep their bytes. */
  lemma FillFrame(st: State, num: nat, dst: Buf, n: nat, b: Buf)
    requires InHand(st, num, dst) && st.input != [] && 0 < n <= |Content(st.c, st.input[0])|
    requires b in st.q || b in st.out || b in st.input[1..] || b in st.free
    ensures Content(Filled(st, dst, n).c, b) == Content(st.c, b)
  {
    var all := st.q + st.out + st.input;
    assert all[|st.q| + |st.out|] == st.input[0];
    if b in st.q {
      var i :| 0 <= i < |st.q| && st.q[i] == b;
      assert all[i] == b;
    } else if b in st.out {
      var i :| 0 <= i < |st.out| && st.out[i] == b;
      assert all[|st.q| + i] == b;
    } else if b in st.input[1..] {
      var i :| 0 <= i < |st.input| - 1 && st.input[1..][i] == b;
      assert all[|st.q| + |st.out| + 1 + i] == b;
    }
  }

  lemma FillStream(st: State, num: nat, dst: Buf, n: nat)
    requires InHand(st, num, dst) && st.input != [] && 0 < n <= |Content(st.c, st.input[0])|
    ensures Stream(Filled(st, dst, n))
  {
    var w, src, s := Filled(st, dst, n), st.input[0], Content(st.c, st.input[0]);
    var rest := st.input[1..];
    forall b | b in st.q || b in st.out || b in rest ensures Content(w.c, b) == Content(st.c, b) { FillFrame(st, num, dst, n, b); }
    FlatFrame(st.c, w.c, st.q);
    FlatFrame(st.c, w.c, st.out);
    FlatFrame(st.c, w.c, rest);
    FlatJoins(w.c, st.out, [dst]);
    OneFlat(w.c, dst);
    assert Flat(st.c, st.input) == s + Flat(st.c, rest);
    assert Flat(w.c, w.input) == s[n..] + Flat(st.c, rest);
    Cut(Flat(st.c, st.out), s, n, Flat(st.c, rest));
  }

  lemma OneFlat(c: Contents, b: Buf)
    ensures Flat(c, [b]) == Content(c, b)
  {
    assert Flat(c, [b][1..]) == [];
  }

  lemma Cut(a: seq<Byte>, s: seq<Byte>, n: nat, z: seq<Byte>)
    requires n <= |s|
    ensures (a + s[..n]) + (s[n..] + z) == a + (s + z)
  {
  }

  lemma FillKeeps(st: State, num: nat, dst: Buf, n: nat)
    requires InHand(st, num, dst) && st.input != [] && 0 < n <= |Content(st.c, st.input[0])|
    ensures Sound(Filled(st, dst, n), num)
  {
    FillLines(st, num, dst, n);
    FillStream(st, num, dst, n);
    var w := Filled(st, dst, n);
    forall b | b in st.q || b in st.out || b in st.free ensures Content(w.c, b) == Content(st.c, b) { FillFrame(st, num, dst, n, b); }
    OwnJoins(st.out, [dst]);
  }

  // ----- handing the chain under construction to the filter

  /** The filter takes over the chain and lets k bytes of all it holds leave. */
  function Handed(st: State, k: nat): State {
    var d := Drain(st.c, st.q + st.out, k);
    st.(c := d.c, sent := st.sent + d.bytes, q := d.q, busy := st.busy + st.out, out := [])
  }

  lemma {:induction false} OwnNoDup(s: seq<Buf>)
    requires NoDup(s)
    ensures NoDup(Own(s))
    decreases |s|
  {
    if s != [] {
      OwnNoDup(s[1..]);
      OwnIn(s[1..], s[0]);
    }
  }

  lemma NoDupJoins(s: seq<Buf>, t: seq<Buf>)
    requires NoDup(s) && NoDup(t) && forall b :: b in t ==> b !in s
    ensures NoDup(s + t)
  {
    forall i, j | 0 <= i < j < |s + t| ensures (s + t)[i] != (s + t)[j] {
      if i < |s| <= j { assert t[j - |s|] in t && s[i] in s; }
    }
  }

  lemma HandLines(st: State, num: nat, k: nat)
    requires Lines(st)
    ensures Lines(Handed(st, k))
  {
    hide Own, Flat, Content;
    var w, line := Handed(st, k), st.q + st.out;
    DrainSuffix(st.c, line, k);
    DrainKeepsKeys(st.c, line, k);
    assert w.q + w.out + w.input == (line + st.input)[|line| - |w.q|..];
  }

  lemma HandLent(st: State, num: nat, k: nat)
    requires Lines(st) && Lent(st)
    ensures Lent(Handed(st, k))
  {
    hide Own, Flat, Content, Drain;
    var w, line := Handed(st, k), st.q + st.out;
    assert NoDup(line) by { assert forall i :: 0 <= i < |line| ==> (line + st.input)[i] == line[i]; }
    DrainSuffix(st.c, line, k);
    forall b | b in w.q && b.own ensures b in w.busy && Content(w.c, b) != [] {
      assert b in line;
      DrainLeaves(st.c, line, k, b);
    }
  }

  lemma HandPool(st: State, num: nat, k: nat)
    requires Sound(st, num)
    ensures Pooled(Handed(st, k), num)
  {
    var w, line := Handed(st, k), st.q + st.out;
    DrainKeepsKeys(st.c, line, k);
    forall b | b in st.free ensures Content(w.c, b) == [] && b !in w.busy {
      FreeIsIdle(st, num, b);
      DrainFrame(st.c, line, k, b);
    }
    OwnJoins(st.busy, st.out);
    var all := line + st.input;
    assert NoDup(st.out) by { assert forall i :: 0 <= i < |st.out| ==> all[|st.q| + i] == st.out[i]; }
    OwnNoDup(st.out);
    forall b | b in Own(st.out) ensures b !in Own(st.busy) {
      OwnIn(st.out, b);
      OwnIn(st.busy, b);
    }
    NoDupJoins(Own(st.busy), Own(st.out));
    assert forall b :: b in w.busy ==> b in st.busy || b in all;
  }

  lemma InputUntouched(st: State, k: nat)
    requires Lines(st)
    ensures Flat(Handed(st, k).c, st.input) == Flat(st.c, st.input)
  {
    var w, line := Handed(st, k), st.q + st.out;
    var all := line + st.input;
    forall b | b in st.input ensures Content(w.c, b) == Content(st.c, b) {
      var i :| 0 <= i < |st.input| && st.input[i] == b;
      assert all[|line| + i] == b;
      forall j | 0 <= j < |line| ensures line[j] != b { assert all[j] == line[j]; }
      DrainFrame(st.c, line, k, b);
    }
    FlatFrame(st.c, w.c, st.input);
  }

  lemma HandStream(st: State, num: nat, k: nat)
    requires Lines(st) && Stream(st)
    ensures Stream(Handed(st, k))
  {
    var w, line := Handed(st, k), st.q + st.out;
    var all := line + st.input;
    assert NoDup(line) by { assert forall i :: 0 <= i < |line| ==> all[i] == line[i]; }
    DrainStream(st.c, line, k);
    InputUntouched(st, k);
    FlatJoins(st.c, st.q, st.out);
    var d := Drain(st.c, line, k);
    Leave(st.sent, d.bytes, Flat(w.c, w.q), Flat(st.c, st.q), Flat(st.c, st.out), Flat(st.c, st.input));
    assert Flat(w.c, w.out) == [];
  }

  lemma Leave(sent: seq<Byte>, bytes: seq<Byte>, held: seq<Byte>, q: seq<Byte>, o: seq<Byte>, i: seq<Byte>)
    requires bytes + held == q + o
    ensures sent + (q + (o + i)) == (sent + bytes) + (held + ([] + i))
  {
    assert sent + (q + (o + i)) == sent + ((q + o) + i);
    assert (sent + bytes) + (held + ([] + i)) == sent + ((bytes + held) + i);
  }

  lemma HandKeeps(st: State, num: nat, k: nat)
    requires Sound(st, num)
    ensures Sound(Handed(st, k), num)
  {
    hide Handed, Lines, Lent, Pooled, Stream;
    HandLines(st, num, k);
    HandLent(st, num, k);
    HandPool(st, num, k);
    HandStream(st, num, k);
  }

  /** After the filter's call, with or without the chain noted as busy. */
  function Called(st: State, k: nat, noted: bool): State {
    if noted then Handed(st, k) else Handed(st, k).(busy := st.busy)
  }

  /** A single foreign buffer can be handed on without being noted as busy. */
  lemma DirectKeeps(st: State, num: nat, k: nat)
    requires Sound(st, num) && (forall b :: b in st.out ==> !b.own)
    ensures Sound(Called(st, k, false), num)
  {
    var w := Handed(st, k);
    HandKeeps(st, num, k);
    OwnJoins(st.busy, st.out);
    NoneOwn(st.out);
    assert Own(w.busy) == Own(st.busy);
    assert forall b :: b in w.q && b.own ==> b in w.busy && b !in st.out;
  }

  lemma {:induction false} NoneOwn(s: seq<Buf>)
    requires forall b :: b in s ==> !b.own
    ensures Own(s) == []
    decreases |s|
  {
    if s != [] { NoneOwn(s[1..]); }
  }

  // ----- getting back the buffers at the front of busy that have been sent

  function Released(st: State): State
    requires st.busy != []
  {
    st.(busy := st.busy[1..], free := if st.busy[0].own then [st.busy[0]] + st.free else st.free)
  }

  /** The free list once the own buffers among sent have been put in front of it, one by one. */
  function Recycled(sent: seq<Buf>, free: seq<Buf>): seq<Buf> {
    if sent == [] then free else Recycled(sent[1..], if sent[0].own then [sent[0]] + free else free)
  }

  lemma {:induction false} RecycledSnoc(sent: seq<Buf>, b: Buf, free: seq<Buf>)
    ensures Recycled(sent + [b], free) == (if b.own then [b] else []) + Recycled(sent, free)
    decreases |sent|
  {
    if sent == [] {
      assert ([] + [b])[1..] == [];
    } else {
      assert (sent + [b])[1..] == sent[1..] + [b];
      RecycledSnoc(sent[1..], b, if sent[0].own then [sent[0]] + free else free);
    }
  }

  /** Exactly the own buffers among sent become free. */
  lemma {:induction false} RecycledIs(sent: seq<Buf>, free: seq<Buf>, b: Buf)
    ensures b in Recycled(sent, free) <==> b in free || (b in sent && b.own)
    decreases |sent|
  {
    if sent != [] { RecycledIs(sent[1..], if sent[0].own then [sent[0]] + free else free, b); }
  }

  /** The one that was sent last is taken first. */
  lemma {:induction false} RecycledOrder(sent: seq<Buf>, free: seq<Buf>)
    ensures var n, r := |Own(sent)|, Recycled(sent, free);
            |r| == n + |free| && r[n..] == free && forall i :: 0 <= i < n ==> r[i] == Own(sent)[n - 1 - i]
    decreases |sent|
  {
    if sent != [] {
      var more := if sent[0].own then [sent[0]] + free else free;
      RecycledOrder(sent[1..], more);
      var r, own := Recycled(sent, free), Own(sent[1..]);
      assert r == Recycled(sent[1..], more) && Own(sent) == (if sent[0].own then [sent[0]] else []) + own;
      hide Own, Recycled;
      assert r[|own|..] == more;
      if sent[0].own { assert r[|own|] == more[0] && r[|own| + 1..] == r[|own|..][1..]; }
    }
  }

  lemma ReleaseKeeps(st: State, num: nat)
    requires Sound(st, num) && st.out == [] && st.busy != [] && Content(st.c, st.busy[0]) == []
    ensures Sound(Released(st), num)
  {
    var w, b := Released(st), st.busy[0];
    assert st.busy == [b] + w.busy;
    if b.own {
      var own := Own(w.busy);
      assert Own(st.busy) == [b] + own;
      forall i, j | 0 <= i < j < |own| ensures own[i] != own[j] { assert own[i] == Own(st.busy)[i + 1] && own[j] == Own(st.busy)[j + 1]; }
      forall i | 0 <= i < |own| ensures own[i] != b { assert own[i] == Own(st.busy)[i + 1] && b == Own(st.busy)[0]; }
      OwnIn(w.busy, b);
    } else {
      assert Own(st.busy) == Own(w.busy);
    }
  }

  // ----- receiving a chain

  function Added(st: State, c: Contents, chain: seq<Buf>): State {
    st.(c := c, input := st.input + chain, submitted := st.submitted + Flat(c, chain))
  }

  lemma AddKeeps(st: State, num: nat, c: Contents, chain: seq<Buf>)
    requires Sound(st, num) && NoDup(chain) && (forall b :: b in chain ==> !b.own && b in c && b !in st.q + st.out + st.input)
    requires forall b :: b in st.c ==> b in c && c[b] == st.c[b]
    ensures Sound(Added(st, c, chain), num)
  {
    hide Own, Flat;
    var w, line := Added(st, c, chain), st.q + st.out + st.input;
    NoDupJoins(line, chain);
    assert w.q + w.out + w.input == line + chain;
    FlatFrame(st.c, c, st.q);
    FlatFrame(st.c, c, st.out);
    FlatFrame(st.c, c, st.input);
    FlatJoins(c, st.input, chain);
    Behind(st.sent, Flat(c, st.q), Flat(c, st.out), Flat(c, st.input), Flat(c, chain));
  }

  lemma Behind(sent: seq<Byte>, q: seq<Byte>, o: seq<Byte>, i: seq<Byte>, more: seq<Byte>)
    ensures (sent + (q + (o + i))) + more == sent + (q + (o + (i + more)))
  {
  }

  // ----- every step of the inner loop leaves less to do

  function Weight(st: State): nat { |st.input| + |Flat(st.c, st.input)| }

  lemma PassingLightens(st: State)
    requires st.input != []
    ensures Weight(AsIs(st)) < Weight(st) && Weight(Skipped(st)) < Weight(st)
  {
  }

  lemma MakingWeighsNothing(st: State, dst: Buf)
    requires Lines(st) && dst !in st.c
    ensures Weight(Made(st, dst)) == Weight(st)
  {
    FlatFrame(st.c, Made(st, dst).c, st.input);
  }

  lemma FillingLightens(st: State, num: nat, dst: Buf, n: nat)
    requires InHand(st, num, dst) && st.input != [] && 0 < n <= |Content(st.c, st.input[0])|
    ensures Weight(Filled(st, dst, n)) < Weight(st)
  {
    var w, src, rest := Filled(st, dst, n), st.input[0], st.input[1..];
    forall b | b in rest ensures Content(w.c, b) == Content(st.c, b) { FillFrame(st, num, dst, n, b); }
    FlatFrame(st.c, w.c, rest);
    assert Content(w.c, src) == Content(st.c, src)[n..];
  }

  lemma HandedIs(st: State, k: nat)
    ensures Handed(st, k).busy == st.busy + st.out && Handed(st, k) == Called(st, k, false).(busy := st.busy + st.out)
  {
  }

  lemma CallKeeps(st: State, num: nat, k: nat, noted: bool)
    requires Sound(st, num)
    ensures Stream(Called(st, k, noted)) && Weight(Called(st, k, noted)) == Weight(st)
    ensures noted ==> Sound(Called(st, k, noted), num)
  {
    HandKeeps(st, num, k);
    InputUntouched(st, k);
  }
}
