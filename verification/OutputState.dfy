/** The bookkeeping of ntg_output_chain.c as a state machine: which buffers hold bytes, who holds the
    buffers, and what has left. */
module OutputState {

  type Byte = b: int | 0 <= b < 256

  datatype Flags = Flags(flush: bool, lastBuf: bool, lastInChain: bool)

  /** ntg_buf_t in memory: the region is data, with start 0 and end data.Length, and the bytes from pos
      to last are still to be sent. */
  class Buf {
    const data: array<Byte>
    var pos: nat
    var last: nat
    /** flush, sync or last_buf, and nothing in memory */
    const special: bool
    /** memory or mmap, as opposed to temporary */
    const readOnly: bool
    /** the tag is the context's, so the context allocated it */
    const own: bool
    var flags: Flags

    constructor (d: array<Byte>, isSpecial: bool, isReadOnly: bool, isOwn: bool)
      ensures data == d && pos == 0 && last == 0 && flags == Flags(false, false, false)
      ensures special == isSpecial && readOnly == isReadOnly && own == isOwn
    {
      data, pos, last, flags := d, 0, 0, Flags(false, false, false);
      special, readOnly, own := isSpecial, isReadOnly, isOwn;
    }
  }

  /** The unsent bytes of every buffer. */
  type Contents = map<Buf, seq<Byte>>

  function Content(c: Contents, b: Buf): seq<Byte> { if b in c then c[b] else [] }

  function Flat(c: Contents, s: seq<Buf>): seq<Byte> {
    if s == [] then [] else Content(c, s[0]) + Flat(c, s[1..])
  }

  predicate NoDup(s: seq<Buf>) { forall i, j {:trigger s[i], s[j]} :: 0 <= i < j < |s| ==> s[i] != s[j] }

  function Own(s: seq<Buf>): seq<Buf> {
    if s == [] then [] else (if s[0].own then [s[0]] else []) + Own(s[1..])
  }

  lemma {:induction false} FlatJoins(c: Contents, s: seq<Buf>, t: seq<Buf>)
    ensures Flat(c, s + t) == Flat(c, s) + Flat(c, t)
    decreases |s|
  {
    if s == [] {
      assert s + t == t;
    } else {
      assert (s + t)[1..] == s[1..] + t;
      FlatJoins(c, s[1..], t);
    }
  }

  /** Bytes of buffers that are not in the chain do not matter. */
  lemma {:induction false} FlatFrame(c: Contents, c': Contents, s: seq<Buf>)
    requires forall b :: b in s ==> Content(c', b) == Content(c, b)
    ensures Flat(c', s) == Flat(c, s)
    decreases |s|
  {
    if s != [] { FlatFrame(c, c', s[1..]); }
  }

  lemma {:induction false} OwnJoins(s: seq<Buf>, t: seq<Buf>)
    ensures Own(s + t) == Own(s) + Own(t)
    decreases |s|
  {
    if s == [] {
      assert s + t == t;
    } else {
      assert (s + t)[1..] == s[1..] + t && (s + t)[0] == s[0];
      OwnJoins(s[1..], t);
      var own := if s[0].own then [s[0]] else [];
      assert own + (Own(s[1..]) + Own(t)) == (own + Own(s[1..])) + Own(t);
    }
  }

  lemma {:induction false} OwnIn(s: seq<Buf>, b: Buf)
    ensures b in Own(s) <==> b in s && b.own
    decreases |s|
  {
    if s != [] { OwnIn(s[1..], b); }
  }

  // ----- what the output filter does with the chains it holds

  datatype Drained = Drained(c: Contents, q: seq<Buf>, bytes: seq<Byte>)

  /** k bytes leave from the front of q, and the buffers emptied on the way are let go. */
  function Drain(c: Contents, q: seq<Buf>, k: nat): Drained
    decreases |q|
  {
    if q == [] then Drained(c, q, [])
    else
      var s := Content(c, q[0]);
      if k < |s| then Drained(c[q[0] := s[k..]], q, s[..k])
      else
        var d := Drain(c[q[0] := []], q[1..], k - |s|);
        Drained(d.c, d.q, s + d.bytes)
  }

  /** Only buffers of q change. */
  lemma {:induction false} DrainFrame(c: Contents, q: seq<Buf>, k: nat, b: Buf)
    requires b !in q
    ensures Content(Drain(c, q, k).c, b) == Content(c, b)
    decreases |q|
  {
    if q != [] && k >= |Content(c, q[0])| { DrainFrame(c[q[0] := []], q[1..], k - |Content(c, q[0])|, b); }
  }

  lemma {:induction false} DrainKeepsKeys(c: Contents, q: seq<Buf>, k: nat)
    ensures Drain(c, q, k).c.Keys <= c.Keys + (set b | b in q) && c.Keys <= Drain(c, q, k).c.Keys
    decreases |q|
  {
    if q != [] && k >= |Content(c, q[0])| { DrainKeepsKeys(c[q[0] := []], q[1..], k - |Content(c, q[0])|); }
  }

  /** What is still held is the end of what was held. */
  lemma {:induction false} DrainSuffix(c: Contents, q: seq<Buf>, k: nat)
    ensures var d := Drain(c, q, k); |d.q| <= |q| && d.q == q[|q| - |d.q|..]
    decreases |q|
  {
    if q != [] && k >= |Content(c, q[0])| { DrainSuffix(c[q[0] := []], q[1..], k - |Content(c, q[0])|); }
  }

  /** Held buffers that had bytes still have some; released ones have none. */
  lemma {:induction false} DrainLeaves(c: Contents, q: seq<Buf>, k: nat, b: Buf)
    requires NoDup(q) && b in q
    ensures var d := Drain(c, q, k);
            if b in d.q then Content(c, b) != [] ==> Content(d.c, b) != [] else Content(d.c, b) == []
    decreases |q|
  {
    if k >= |Content(c, q[0])| {
      var c', k' := c[q[0] := []], k - |Content(c, q[0])|;
      DrainSuffix(c', q[1..], k');
      if b == q[0] { DrainFrame(c', q[1..], k', b); } else { DrainLeaves(c', q[1..], k', b); }
    }
  }

  /** The bytes that left and the bytes still held are the bytes there were, in order. */
  lemma {:induction false} DrainStream(c: Contents, q: seq<Buf>, k: nat)
    requires NoDup(q)
    ensures Drain(c, q, k).bytes + Flat(Drain(c, q, k).c, Drain(c, q, k).q) == Flat(c, q)
    decreases |q|
  {
    if q != [] {
      var s, rest := Content(c, q[0]), q[1..];
      if k < |s| {
        FlatFrame(c, c[q[0] := s[k..]], rest);
        assert s[..k] + (s[k..] + Flat(c, rest)) == s + Flat(c, rest);
      } else {
        var c' := c[q[0] := []];
        DrainStream(c', rest, k - |s|);
        FlatFrame(c, c', rest);
        var d := Drain(c', rest, k - |s|);
        assert s + (d.bytes + Flat(d.c, d.q)) == (s + d.bytes) + Flat(d.c, d.q);
      }
    }
  }
}
