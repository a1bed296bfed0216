/** ntg_output_chain.c for buffers in memory: chains that need a copy go through a bounded pool of own
    buffers, everything else is passed on. */
module OutputChain {
  import opened OutputState
  import opened OutputSteps
  import opened Sequences

  datatype Rc = OK | AGAIN | ERROR | DONE

  ghost predicate Apart(links: set<Buf>) {
    forall a, b {:trigger a.data, b.data} :: a in links && b in links && a != b ==> a.data != b.data
  }

  ghost predicate Bounded(links: set<Buf>)
    reads links`pos, links`last
  {
    (forall b :: b in links ==> b.pos <= b.last <= b.data.Length && (b.special ==> b.pos == b.last)) && Apart(links)
  }

  ghost function Held(links: set<Buf>): (c: Contents)
    requires Bounded(links)
    reads links`pos, links`last, set b | b in links :: b.data
    ensures c.Keys == links
  {
    map b | b in links :: b.data[b.pos..b.last]
  }

  lemma HeldIs(links: set<Buf>, c: Contents)
    requires Bounded(links) && c.Keys == links && forall b :: b in links ==> c[b] == b.data[b.pos..b.last]
    ensures Held(links) == c
  {
  }

  /** Drops the first n unsent bytes of b. */
  method Advance(b: Buf, n: nat, ghost links: set<Buf>)
    requires Bounded(links) && b in links && n <= b.last - b.pos
    modifies b`pos
    ensures Bounded(links) && b.pos == old(b.pos) + n
    ensures Held(links) == old(Held(links))[b := old(Held(links))[b][n..]]
  {
    ghost var c := Held(links);
    b.pos := b.pos + n;
    assert b.data[b.pos..b.last] == c[b][n..];
    HeldIs(links, c[b := c[b][n..]]);
  }

  /** The next output filter: it is given chains, keeps what it cannot send, and sends in order. How
      much it sends at each call, and what it returns, is the script's. */
  class Filter {
    var queue: seq<Buf>
    var script: seq<(Rc, nat)>
    ghost var sent: seq<Byte>
    /** all the buffers of all the calls so far, the number of calls, and the last answer */
    ghost var given: seq<Buf>
    ghost var calls: nat
    ghost var answer: Rc

    constructor (events: seq<(Rc, nat)>)
      ensures queue == [] && sent == [] && script == events && given == [] && calls == 0
    {
      queue, script, sent := [], events, [];
      given, calls := [], 0;
    }

    /** Sends up to n bytes of the first buffer; a buffer that is sent whole is let go. */
    method SendFirst(n: nat, ghost links: set<Buf>, ghost held: set<Buf>) returns (left: nat, more: bool, ghost w: seq<Byte>)
      requires Bounded(links) && held <= links && queue != [] && forall b :: b in queue ==> b in held
      modifies this`queue, this`sent, held`pos
      ensures Bounded(links) && (more ==> |queue| < |old(queue)|) && forall b :: b in queue ==> b in held
      ensures var goal, d := Drain(old(Held(links)), old(queue), n), Drain(Held(links), queue, left);
              goal == if more then After(w, d) else Drained(Held(links), queue, w)
      ensures sent == old(sent) + w
    {
      hide Held, Bounded, Drain;
      var b := queue[0];
      ghost var c := Held(links);
      DrainFirst(c, queue, n);
      SizeIs(links, b);
      if n < b.last - b.pos {
        Advance(b, n, links);
        left, more, w := 0, false, c[b][..n];
      } else {
        left, more := n - (b.last - b.pos), true;
        Advance(b, b.last - b.pos, links);
        queue, w := queue[1..], c[b];
      }
      sent := sent + w;
    }

    /** Sends k bytes of the queue, or all there are. */
    method Send(k: nat, ghost links: set<Buf>, ghost held: set<Buf>)
      requires Bounded(links) && held <= links && forall b :: b in queue ==> b in held
      modifies this`queue, this`sent, held`pos
      ensures Bounded(links)
      ensures Drained(Held(links), queue, sent) == After(old(sent), Drain(old(Held(links)), old(queue), k))
    {
      hide Held, Bounded, Drain, After;
      var n, more := k, true;
      ghost var goal, gone, w := Drain(Held(links), queue, n), [], [];
      AfterAfter([], [], goal);
      while more && queue != []
        invariant Bounded(links) && (forall b :: b in queue ==> b in held) && sent == old(sent) + gone
        invariant goal == if more then After(gone, Drain(Held(links), queue, n)) else Drained(Held(links), queue, gone)
        decreases more, |queue|
      {
        n, more, w := SendFirst(n, links, held);
        AfterAfter(gone, w, Drain(Held(links), queue, n));
        AfterIs(gone, Held(links), queue, w);
        gone := gone + w;
      }
      if more {
        DrainNothing(Held(links), n);
        AfterIs(gone, Held(links), queue, []);
      }
      AfterIs(old(sent), Held(links), queue, gone);
    }

    method Output(out: seq<Buf>, ghost links: set<Buf>, ghost held: set<Buf>) returns (rc: Rc, ghost k: nat)
      requires Bounded(links) && held <= links && forall b :: b in queue + out ==> b in held
      modifies this, held`pos
      ensures Bounded(links)
      ensures Drained(Held(links), queue, sent) == After(old(sent), Drain(old(Held(links)), old(queue) + out, k))
      ensures rc == if old(script) == [] then AGAIN else old(script)[0].0
      ensures given == old(given) + out && calls == old(calls) + 1 && answer == rc
    {
      hide Held, Bounded, Drain, After;
      queue := queue + out;
      var n: nat;
      if script == [] {
        rc, n := AGAIN, 0;
      } else {
        rc, n, script := script[0].0, script[0].1, script[1..];
      }
      k := n;
      given, calls, answer := given + out, calls + 1, rc;
      Send(n, links, held);
    }
  }

  ghost function After(gone: seq<Byte>, d: Drained): Drained { Drained(d.c, d.q, gone + d.bytes) }

  lemma AfterAfter(a: seq<Byte>, b: seq<Byte>, d: Drained)
    ensures After(a, After(b, d)) == After(a + b, d)
    ensures After([], d) == d
  {
    assert (a + b) + d.bytes == a + (b + d.bytes);
    assert [] + d.bytes == d.bytes;
  }

  lemma AfterIs(a: seq<Byte>, c: Contents, q: seq<Buf>, b: seq<Byte>)
    ensures After(a, Drained(c, q, b)) == Drained(c, q, a + b)
    ensures b == [] ==> a + b == a
  {
  }

  lemma DrainFirst(c: Contents, q: seq<Buf>, k: nat)
    requires q != []
    ensures var s := Content(c, q[0]);
            if k < |s| then Drain(c, q, k) == Drained(c[q[0] := s[k..]], q, s[..k])
            else var d := Drain(c[q[0] := []], q[1..], k - |s|); Drain(c, q, k) == Drained(d.c, d.q, s + d.bytes)
  {
  }

  lemma DrainNothing(c: Contents, k: nat)
    ensures Drain(c, [], k) == Drained(c, [], [])
  {
  }

  lemma SizeIs(links: set<Buf>, b: Buf)
    requires Bounded(links) && b in links
    ensures b.pos <= b.last && Content(Held(links), b) == Held(links)[b] && |Held(links)[b]| == b.last - b.pos
    ensures Held(links)[b][b.last - b.pos..] == []
  {
  }

  method NewBuf(room: nat, ghost links: set<Buf>) returns (b: Buf)
    ensures fresh(b) && fresh(b.data) && b !in links && forall a :: a in links ==> a.data != b.data
    ensures b.pos == 0 == b.last && b.data.Length == room && b.own && !b.special && !b.readOnly
  {
    var d := new Byte[room](_ => 0);
    b := new Buf(d, false, false, true);
  }

  /** One more empty buffer with memory of its own. */
  lemma GrowLinks(links: set<Buf>, b: Buf)
    requires Bounded(links) && b !in links && b.pos == 0 == b.last && forall a :: a in links ==> a.data != b.data
    ensures Bounded(links + {b}) && Held(links + {b}) == Held(links)[b := []]
  {
  }

  method CopyBytes(from: array<Byte>, at: nat, to: array<Byte>, pos: nat, n: nat)
    requires from != to && at + n <= from.Length && pos + n <= to.Length
    modifies to
    ensures to[pos..pos + n] == from[at..at + n] && to[..pos] == old(to[..pos])
  {
    forall i | 0 <= i < n {
      to[pos + i] := from[at + i];
    }
  }

  lemma TakeSlice(s: seq<Byte>, i: nat, j: nat, n: nat)
    requires i + n <= j <= |s|
    ensures s[i..j][..n] == s[i..i + n]
  {
  }

  lemma ApartFrom(links: set<Buf>, a: Buf)
    requires Apart(links) && a in links
    ensures forall b :: b in links && b != a ==> b.data != a.data
  {
  }

  /** Bytes written beyond the end of the empty dst are not held yet. */
  method Write(src: Buf, dst: Buf, n: nat, ghost links: set<Buf>)
    requires Bounded(links) && src in links && dst in links && src != dst
    requires n <= src.last - src.pos && dst.last + n <= dst.data.Length && dst.pos == dst.last
    modifies dst.data
    ensures Held(links) == old(Held(links))
    ensures dst.data[dst.pos..dst.pos + n] == old(Held(links))[src][..n]
  {
    hide Apart;
    ghost var c := Held(links);
    ApartFrom(links, dst);
    TakeSlice(src.data[..], src.pos, src.last, n);
    CopyBytes(src.data, src.pos, dst.data, dst.pos, n);
    HeldIs(links, c);
  }

  /** The first n bytes of src behind the end of the empty dst. */
  method Append(src: Buf, dst: Buf, n: nat, ghost links: set<Buf>)
    requires Bounded(links) && src in links && dst in links && src != dst && !dst.special
    requires n <= src.last - src.pos && dst.last + n <= dst.data.Length && dst.pos == dst.last
    modifies dst`last, dst.data
    ensures Bounded(links) && Held(links) == old(Held(links))[dst := old(Held(links))[src][..n]]
    ensures dst.last == old(dst.last) + n
  {
    hide Apart;
    ghost var c := Held(links);
    Write(src, dst, n, links);
    dst.last := dst.last + n;
    HeldIs(links, c[dst := c[src][..n]]);
  }

  /** ntg_output_chain_copy_buf, given how much fits. */
  method CopyBuf(src: Buf, dst: Buf, n: nat, ghost links: set<Buf>)
    requires Bounded(links) && src in links && dst in links && src != dst && !dst.special
    requires n <= src.last - src.pos && dst.last + n <= dst.data.Length && dst.pos == dst.last
    modifies src`pos, dst`last, dst`flags, dst.data
    ensures Bounded(links) && src.pos == old(src.pos) + n
    ensures var c := old(Held(links)); Held(links) == c[dst := c[src][..n]][src := c[src][n..]]
    ensures dst.flags == if src.pos == src.last then src.flags else old(dst.flags)
    ensures dst.last == old(dst.last) + n
  {
    hide Bounded, Held;
    Append(src, dst, n, links);
    Advance(src, n, links);
    if src.pos == src.last {
      dst.flags := src.flags;
    }
  }

  /** An empty buffer starts over. */
  method Reset(b: Buf, ghost links: set<Buf>)
    requires Bounded(links) && b in links && b.pos == b.last
    modifies b`pos, b`last
    ensures Bounded(links) && Held(links) == old(Held(links)) && b.pos == 0 == b.last
  {
    ghost var c := Held(links);
    assert c[b] == [];
    b.pos := 0;
    b.last := 0;
    HeldIs(links, c);
  }

  /** ntg_output_chain_ctx_t */
  class Context {
    var input: seq<Buf>
    var busy: seq<Buf>
    var free: seq<Buf>
    var made: nat
    const num: nat
    const size: nat
    const needInTemp: bool
    const filter: Filter
    ghost var links: set<Buf>
    ghost var submitted: seq<Byte>

    constructor (bufs: nat, bufSize: nat, inTemp: bool, f: Filter)
      requires bufSize > 0 && f.queue == [] && f.sent == []
      ensures num == bufs && size == bufSize && needInTemp == inTemp && filter == f
      ensures links == {} && submitted == [] && Usable([])
    {
      input, busy, free, made := [], [], [], 0;
      num, size, needInTemp, filter := bufs, bufSize, inTemp, f;
      links, submitted := {}, [];
      new;
      assert Flat(Held(links), []) == [] && Own([]) == [];
    }

    ghost function Now(out: seq<Buf>): State
      requires Bounded(links)
      reads this, filter, links`pos, links`last, set b | b in links :: b.data
    {
      State(Held(links), filter.sent, filter.queue, busy, free, out, input, made, submitted)
    }

    /** Free buffers start over from their beginning, and own buffers have room. */
    ghost predicate Roomy()
      reads this`free, this`links, links`pos, links`last
    {
      && size > 0 && (forall b :: b in links && b.own ==> b.data.Length > 0 && !b.special && !b.readOnly)
      && (forall b :: b in free && b in links ==> b.pos == 0 == b.last)
    }

    ghost predicate Usable(out: seq<Buf>)
      reads this, filter, links`pos, links`last, set b | b in links :: b.data
    {
      Bounded(links) && Roomy() && Sound(Now(out), num)
    }

    /** ntg_output_chain_as_is */
    predicate PassesAsIs(b: Buf) { b.special || !needInTemp || !b.readOnly }

    /** No memory that must not be written to is passed on to a filter that needs to write. */
    ghost predicate Passable(bs: seq<Buf>) {
      forall b :: b in bs ==> b.special || !needInTemp || !b.readOnly
    }

    /** An empty buffer is passed on only if it carries a flag instead. */
    ghost predicate NoneEmpty(bs: seq<Buf>)
      reads bs`pos, bs`last
    {
      forall b :: b in bs ==> b.special || b.pos < b.last
    }

    lemma FirstInput(out: seq<Buf>)
      requires Usable(out) && input != []
      ensures input[0] in links && !input[0].own && input[0] !in free
      ensures input[0].pos <= input[0].last && |Content(Held(links), input[0])| == input[0].last - input[0].pos
    {
      assert (filter.queue + out + input)[|filter.queue| + |out|] == input[0];
    }

    lemma FirstApart(out: seq<Buf>)
      requires Usable(out) && input != []
      ensures input[0] !in out
    {
      var s := filter.queue + out + input;
      assert s[|filter.queue| + |out|] == input[0];
      forall i | 0 <= i < |out| ensures out[i] != input[0] { assert s[|filter.queue| + i] == out[i]; }
    }

    lemma HandApart(st: State, num: nat, dst: Buf)
      requires InHand(st, num, dst)
      ensures dst !in st.out
    {
    }

    method PassOn(out: seq<Buf>) returns (next: seq<Buf>)
      requires Usable(out) && input != []
      modifies this`input
      ensures next == out + [old(input[0])] && Now(next) == AsIs(old(Now(out))) && Usable(next)
    {
      hide Sound, Bounded, Held, Roomy;
      AsIsKeeps(Now(out), num);
      next := out + [input[0]];
      input := input[1..];
    }

    method Skip(ghost out: seq<Buf>)
      requires Usable(out) && input != [] && input[0].pos == input[0].last
      modifies this`input
      ensures Now(out) == Skipped(old(Now(out))) && Usable(out)
    {
      hide Sound;
      FirstInput(out);
      SkipKeeps(Now(out), num);
      hide Sound;
      input := input[1..];
    }

    /** A smaller buffer for a small last piece. */
    method RoomFor(b: Buf) returns (room: nat)
      requires b.pos < b.last && size > 0
      ensures 0 < room
      ensures var piece := b.last - b.pos;
              room == if b.flags.lastInChain && (piece < size || (num == 1 && piece < size + size / 4)) then piece else size
    {
      var bsize := b.last - b.pos;
      room := size;
      if b.flags.lastInChain {
        if bsize < room {
          room := bsize;
        } else if num == 1 && bsize < room + room / 4 {
          room := bsize;
        }
      }
    }

    /** ntg_output_chain_get_buf */
    method GetBuf(ghost out: seq<Buf>) returns (b: Buf)
      requires Usable(out) && input != [] && input[0].pos < input[0].last && made < num
      modifies this`made, this`links
      ensures fresh(b) && fresh(b.data) && b !in old(links) && links == old(links) + {b}
      ensures Bounded(links) && Now(out) == Made(old(Now(out)), b)
      ensures b.pos == 0 == b.last < b.data.Length && b.own && !b.special && !b.readOnly
    {
      hide Sound, Bounded, Held;
      var room := RoomFor(input[0]);
      b := MakeBuf(room);
    }

    /** A new own buffer for the pool. */
    method MakeBuf(room: nat) returns (b: Buf)
      requires Bounded(links)
      modifies this`made, this`links
      ensures fresh(b) && fresh(b.data) && b !in old(links) && links == old(links) + {b} && made == old(made) + 1
      ensures Bounded(links) && Held(links) == old(Held(links))[b := []]
      ensures b.pos == 0 == b.last && b.data.Length == room && b.own && !b.special && !b.readOnly
    {
      hide Bounded, Held;
      b := NewBuf(room, links);
      GrowLinks(links, b);
      made, links := made + 1, links + {b};
    }

    method TakeFree(ghost out: seq<Buf>) returns (b: Buf)
      requires Usable(out) && free != []
      modifies this`free
      ensures b == old(free[0]) && Now(out) == Taken(old(Now(out)))
    {
      hide Sound, Bounded, Held;
      b := free[0];
      free := free[1..];
    }

    /** An own buffer to copy into: a free one, or a new one while the pool allows and nothing waits. */
    method FindBuf(ghost out: seq<Buf>, waiting: bool) returns (dst: Buf?)
      requires Usable(out) && input != [] && input[0].pos < input[0].last && waiting == (out != [])
      modifies this`free, this`made, this`links
      ensures Bounded(links) && Weight(Now(out)) == old(Weight(Now(out)))
      ensures dst == null ==> free == [] && (waiting || made == num) && Now(out) == old(Now(out)) && Usable(out)
      ensures dst != null ==> InHand(Now(out), num, dst) && Roomy() && dst in links && dst.own && dst !in free && input[0] !in free
                              && dst.pos == 0 == dst.last < dst.data.Length && !dst.special
      ensures links == old(links) || (dst != null && fresh(dst) && fresh(dst.data) && links == old(links) + {dst})
    {
      ghost var st := Now(out);
      if free != [] {
        TakingIsSafe(st, num);
        dst := TakeFree(out);
      } else if waiting || made == num {
        dst := null;
      } else {
        assert forall x :: x in busy ==> x in links;
        dst := GetBuf(out);
        MakingIsSafe(st, num, dst);
        MakingWeighsNothing(st, dst);
      }
    }

    /** Copies what fits of the first input buffer, and drops it when it is finished. */
    method FillBuf(src: Buf, dst: Buf, out: seq<Buf>) returns (next: seq<Buf>, ghost n: nat)
      requires Bounded(links) && dst in links && input != [] && src == input[0] && src in links
      requires dst.pos == 0 == dst.last < dst.data.Length && !dst.special && src.pos < src.last && dst != src
      modifies this`input, src`pos, dst`last, dst`flags, dst.data
      ensures Bounded(links) && next == out + [dst] && 0 < n <= |Content(old(Held(links)), src)|
      ensures Now(next) == Filled(old(Now(out)), dst, n)
      ensures n == (if old(src.last - src.pos) <= dst.data.Length then old(src.last - src.pos) else dst.data.Length)
      ensures dst.flags == if src.pos == src.last then src.flags else old(dst.flags)
      ensures input == if src.pos == src.last then old(input)[1..] else old(input)
      ensures dst.pos < dst.last
    {
      hide Bounded, Held;
      SizeIs(links, src);
      var size := if src.last - src.pos <= dst.data.Length - dst.pos then src.last - src.pos else dst.data.Length - dst.pos;
      n := size;
      CopyBuf(src, dst, size, links);
      SizeIs(links, src);
      if src.pos == src.last {
        input := input[1..];
      }
      next := out + [dst];
    }

    /** The same, seen from the free buffers, which are left alone. */
    method FillAside(src: Buf, dst: Buf, out: seq<Buf>) returns (next: seq<Buf>, ghost n: nat)
      requires Bounded(links) && dst in links && input != [] && src == input[0] && src in links
      requires dst.pos == 0 == dst.last < dst.data.Length && !dst.special && src.pos < src.last && dst != src
      requires Roomy() && src !in free && dst !in free && src !in out && dst !in out
      modifies this`input, src`pos, dst`last, dst`flags, dst.data
      ensures Bounded(links) && Roomy() && next == out + [dst] && 0 < n <= |Content(old(Held(links)), src)|
      ensures Now(next) == Filled(old(Now(out)), dst, n)
      ensures input == if src.pos == src.last then old(input)[1..] else old(input)
      ensures old(NoneEmpty(out)) ==> NoneEmpty(next)
    {
      hide Bounded, Held, Filled;
      next, n := FillBuf(src, dst, out);
    }

    /** A buffer in hand is filled and joins the chain under construction. */
    method FillStep(src: Buf, dst: Buf, out: seq<Buf>) returns (next: seq<Buf>)
      requires Bounded(links) && dst in links && input != [] && src == input[0] && src in links && InHand(Now(out), num, dst)
      requires dst.pos == 0 == dst.last < dst.data.Length && !dst.special && src.pos < src.last && dst != src
      requires Roomy() && src !in free && dst !in free && src !in out
      modifies this`input, src`pos, dst`last, dst`flags, dst.data
      ensures Usable(next) && next == out + [dst] && Weight(Now(next)) < old(Weight(Now(out)))
      ensures input == old(input) || input == old(input)[1..]
      ensures old(NoneEmpty(out)) ==> NoneEmpty(next)
    {
      hide Sound, InHand, Held, Bounded, Filled, Weight, Roomy, NoneEmpty;
      ghost var st, n := Now(out), 0;
      HandApart(st, num, dst);
      next, n := FillAside(src, dst, out);
      FillKeeps(st, num, dst, n);
      FillingLightens(st, num, dst, n);
    }

    /** One turn of the inner loop for a buffer that must be copied. */
    method CopyStep(out: seq<Buf>) returns (next: seq<Buf>, blocked: bool, ghost to: Buf?)
      requires Usable(out) && input != [] && input[0].pos < input[0].last
      modifies this`free, this`made, this`links, this`input, links`pos, links`last, links`flags
      modifies set b | b in links && b.own :: b.data
      ensures Usable(next) && old(links) <= links && forall b :: b in links && b !in old(links) ==> fresh(b) && fresh(b.data)
      ensures blocked ==> free == [] && (out != [] || made == num) && next == out && input == old(input)
      ensures !blocked ==> to != null && next == out + [to] && to.own && to in links
      ensures old(NoneEmpty(out)) ==> NoneEmpty(next)
      ensures input == old(input) || input == old(input)[1..]
      ensures if blocked then Weight(Now(next)) == old(Weight(Now(out))) else next != [] && Weight(Now(next)) < old(Weight(Now(out)))
    {
      hide Sound, InHand, Held, Bounded, Weight, Roomy, NoneEmpty;
      FirstInput(out);
      FirstApart(out);
      var src := input[0];
      var dst := FindBuf(out, out != []);
      blocked, to := dst == null, dst;
      next := out;
      if dst != null {
        next := FillStep(src, dst, out);
      }
    }

    /** A copy is made only of memory that must not be written to, for a filter that needs to write. */
    ghost predicate CopiedFor(out: seq<Buf>, offered: seq<Buf>) {
      (exists b :: b in out && b.own) ==> exists b :: b in offered && !b.special && needInTemp && b.readOnly
    }

    /** One turn of the inner loop. */
    method CollectOne(out: seq<Buf>, ghost offered: seq<Buf>) returns (next: seq<Buf>, blocked: bool)
      requires Usable(out) && input != [] && Passable(out) && NoneEmpty(out) && CopiedFor(out, offered)
      requires forall b :: b in input ==> b in offered
      modifies this`free, this`made, this`links, this`input, links`pos, links`last, links`flags
      modifies set b | b in links && b.own :: b.data
      ensures Usable(next) && old(links) <= links && forall b :: b in links && b !in old(links) ==> fresh(b) && fresh(b.data)
      ensures if blocked then Weight(Now(next)) == old(Weight(Now(out))) else Weight(Now(next)) < old(Weight(Now(out)))
      ensures blocked ==> next == out && free == [] && (out != [] || made == num)
      ensures Passable(next) && NoneEmpty(next) && CopiedFor(next, offered)
      ensures forall b :: b in input ==> b in offered
    {
      hide Sound, Held, Bounded, Roomy, Weight, Passable, NoneEmpty;
      FirstInput(out);
      PassingLightens(Now(out));
      next, blocked := out, false;
      if input[0].pos == input[0].last && !input[0].special {
        Skip(out);
      } else if PassesAsIs(input[0]) {
        OneMore(out, input[0]);
        next := PassOn(out);
      } else {
        ghost var to;
        next, blocked, to := CopyStep(out);
        if !blocked { OwnIsWritable(out, to); }
      }
    }

    /** The inner loop: fills the chain under construction until the input or the buffers run out. */
    method Collect() returns (out: seq<Buf>)
      requires Usable([])
      modifies this`free, this`made, this`links, this`input, links`pos, links`last, links`flags
      modifies set b | b in links && b.own :: b.data
      ensures Usable(out) && old(links) <= links && forall b :: b in links && b !in old(links) ==> fresh(b) && fresh(b.data)
      ensures out != [] ==> Weight(Now(out)) < old(Weight(Now([])))
      ensures Weight(Now(out)) <= old(Weight(Now([])))
      ensures input == [] || (free == [] && (out != [] || made == num))
      ensures Passable(out) && NoneEmpty(out) && CopiedFor(out, old(input))
    {
      hide Sound, Held, Bounded, Roomy, Weight, Passable, NoneEmpty;
      NothingIsPassable([]);
      out := [];
      ghost var were, before := links, Weight(Now([]));
      var blocked := false;
      while input != [] && !blocked
        invariant Usable(out) && were <= links && forall b :: b in links && b !in were ==> fresh(b) && fresh(b.data)
        invariant Weight(Now(out)) <= before && (out != [] ==> Weight(Now(out)) < before)
        invariant blocked ==> free == [] && (out != [] || made == num)
        invariant Passable(out) && NoneEmpty(out) && CopiedFor(out, old(input))
        invariant forall b :: b in input ==> b in old(input)
        decreases !blocked, Weight(Now(out))
      {
        out, blocked := CollectOne(out, old(input));
      }
    }

    lemma OwnIsWritable(out: seq<Buf>, b: Buf)
      requires Roomy() && b.own && b in links && Passable(out)
      ensures Passable(out + [b])
    {
    }

    lemma OneMore(out: seq<Buf>, b: Buf)
      requires Passable(out) && NoneEmpty(out) && PassesAsIs(b) && (b.pos == b.last ==> b.special) && b.pos <= b.last
      ensures Passable(out + [b]) && NoneEmpty(out + [b])
    {
    }

    /** ntg_chain_update_chains, once the chain has been noted as busy. */
    method Release() returns (ghost n: nat)
      requires Usable([])
      modifies this`busy, this`free, links`pos, links`last
      ensures Usable([]) && Weight(Now([])) == old(Weight(Now([])))
      ensures n <= |old(busy)| && busy == old(busy)[n..] && free == Recycled(old(busy)[..n], old(free))
      ensures forall b :: b in old(busy)[..n] ==> Content(old(Held(links)), b) == []
      ensures busy != [] ==> busy[0].pos != busy[0].last
    {
      hide Bounded, Held, Sound, Roomy, Weight;
      n := 0;
      while busy != [] && busy[0].pos == busy[0].last
        invariant Usable([]) && Held(links) == old(Held(links)) && input == old(input)
        invariant n <= |old(busy)| && busy == old(busy)[n..] && free == Recycled(old(busy)[..n], old(free))
        invariant forall b :: b in old(busy)[..n] ==> Content(old(Held(links)), b) == []
        decreases |busy|
      {
        FirstBusy();
        SizeIs(links, busy[0]);
        ReleaseOne();
        assert old(busy)[..n + 1] == old(busy)[..n] + [old(busy)[n]];
        RecycledSnoc(old(busy)[..n], old(busy)[n], old(free));
        n := n + 1;
      }
      SameWeight(old(Now([])), Now([]));
    }

    lemma SameWeight(st: State, st': State)
      requires st.input == st'.input && st.c == st'.c
      ensures Weight(st) == Weight(st')
    {
    }

    method ReleaseOne()
      requires Usable([]) && busy != [] && busy[0].pos == busy[0].last
      modifies this`busy, this`free, links`pos, links`last
      ensures Usable([]) && Now([]) == Released(old(Now([])))
    {
      hide Bounded, Held, Sound;
      FirstBusy();
      var cl := busy[0];
      SizeIs(links, cl);
      ReleaseKeeps(Now([]), num);
      busy := busy[1..];
      if cl.own {
        Reset(cl, links);
        free := [cl] + free;
      }
    }

    lemma FirstBusy()
      requires Usable([]) && busy != []
      ensures busy[0] in links
    {
    }

    ghost function OnTheWay(out: seq<Buf>): set<Buf>
      reads this, filter
    {
      set b | b in filter.queue + out
    }

    method CallFilter(out: seq<Buf>) returns (rc: Rc, ghost k: nat)
      requires Usable(out)
      modifies filter, links`pos
      ensures Bounded(links) && Roomy()
      ensures Now([]) == Called(old(Now(out)), k, false)
      ensures rc == filter.answer && filter.calls == old(filter.calls) + 1 && filter.given == old(filter.given) + out
    {
      hide Sound, Bounded, Held, Drain;
      Waiting(out);
      rc, k := filter.Output(out, links, OnTheWay(out));
    }

    /** Calls the output filter and returns its answer; unless that is an error or the end, the chain is noted as busy. */
    method HandOver(out: seq<Buf>) returns (rc: Rc)
      requires Usable(out)
      modifies this`busy, filter, links`pos
      ensures Bounded(links) && Stream(Now([])) && Weight(Now([])) == old(Weight(Now(out)))
      ensures rc != ERROR && rc != DONE ==> Usable([])
      ensures rc == filter.answer && filter.calls == old(filter.calls) + 1 && filter.given == old(filter.given) + out
    {
      hide Sound, Bounded, Held, Handed, Weight, Drain;
      ghost var st, k := Now(out), 0;
      rc, k := CallFilter(out);
      CallKeeps(st, num, k, rc != ERROR && rc != DONE);
      HandedIs(st, k);
      if rc != ERROR && rc != DONE {
        busy := busy + out;
      }
    }

    /** What is on its way is known and not free. */
    lemma Waiting(out: seq<Buf>)
      requires Usable(out)
      ensures OnTheWay(out) <= links && (forall b :: b in filter.queue + out ==> b in OnTheWay(out))
      ensures forall b :: b in OnTheWay(out) ==> b !in free
    {
      forall b | b in free ensures b !in OnTheWay(out) { FreeIsIdle(Now(out), num, b); }
      assert forall b :: b in filter.queue + out ==> b in filter.queue + out + input;
    }

    /** What a caller may submit: foreign buffers with memory of their own that are not waiting already. */
    ghost predicate Offered(chain: seq<Buf>)
      reads this, filter, links`pos, links`last, chain`pos, chain`last
    {
      && Bounded(links + Elements(chain)) && NoDup(chain)
      && forall b :: b in chain ==> !b.own && b !in filter.queue + input
    }

    lemma Reception(chain: seq<Buf>)
      requires Usable([]) && Offered(chain)
      ensures Sound(Added(Now([]), Held(links + Elements(chain)), chain), num)
      ensures forall b :: b in free ==> b in links
    {
      hide Flat, Own;
      AddKeeps(Now([]), num, Held(links + Elements(chain)), chain);
    }

    /** The ghost part of receiving a chain. */
    ghost method Receive(chain: seq<Buf>)
      requires Usable([]) && Offered(chain)
      modifies this`links, this`submitted
      ensures links == old(links) + Elements(chain) && Bounded(links) && Roomy()
      ensures Now([]).(input := input + chain) == Added(old(Now([])), Held(links), chain)
      ensures Sound(Now([]).(input := input + chain), num)
      ensures submitted == old(submitted) + old(Flat(Held(links + Elements(chain)), chain))
    {
      hide Sound, Flat, Held, Bounded;
      Reception(chain);
      ghost var c := Held(links + Elements(chain));
      links, submitted := links + Elements(chain), submitted + Flat(c, chain);
    }

    /** ntg_output_chain_add_copy */
    method Enqueue(chain: seq<Buf>)
      requires Usable([]) && Offered(chain)
      modifies this`input, this`links, this`submitted
      ensures Usable([]) && links == old(links) + Elements(chain)
      ensures submitted == old(submitted) + old(Flat(Held(links + Elements(chain)), chain))
    {
      hide Sound, Bounded, Held, Flat;
      Receive(chain);
      ghost var w := Now([]).(input := input + chain);
      input := input + chain;
      assert Now([]) == w;
    }

    /** The short path: nothing waits, and the chain needs no copy. */
    method PassDirectly(chain: seq<Buf>) returns (rc: Rc)
      requires Usable([]) && Offered(chain) && input == [] && busy == [] && |chain| <= 1
      modifies this`links, this`submitted, filter, links`pos, chain`pos
      ensures Usable([]) && input == [] && links == old(links) + Elements(chain)
      ensures submitted == old(submitted) + old(Flat(Held(links + Elements(chain)), chain))
      ensures rc == filter.answer && filter.calls == old(filter.calls) + 1 && filter.given == old(filter.given) + chain
    {
      hide Bounded, Held, Roomy, Sound, Called;
      Receive(chain);
      assert input + chain == chain;
      StartDirect(chain);
      ghost var st, k := Now(chain), 0;
      rc, k := CallFilter(chain);
      DirectKeeps(st, num, k);
    }

    lemma StartDirect(chain: seq<Buf>)
      requires Bounded(links) && input == [] && |chain| <= 1 && Sound(Now([]).(input := chain), num)
      ensures Sound(Now(chain), num) && forall b :: b in chain ==> !b.own
    {
      if chain != [] {
        AsIsKeeps(Now([]).(input := chain), num);
        assert Now(chain) == AsIs(Now([]).(input := chain));
      }
    }

    lemma MadeFits(out: seq<Buf>)
      requires Usable(out)
      ensures made <= num
    {
    }

    /** ntg_output_chain: whatever the filter does, the bytes that left, those it holds and those still
        in the context are the bytes submitted, in their order. The answer is the filter's last one, unless
        that asks to go on while something waits for a buffer. */
    method Output(chain: seq<Buf>) returns (rc: Rc)
      requires Usable([]) && Offered(chain)
      modifies this`input, this`busy, this`free, this`made, this`links, this`submitted, filter
      modifies links`pos, links`last, links`flags, chain`pos, chain`last, chain`flags
      modifies set b | b in links && b.own :: b.data
      ensures Bounded(links) && Stream(Now([])) && made <= num
      ensures submitted == old(submitted) + old(Flat(Held(links + Elements(chain)), chain))
      ensures rc != ERROR && rc != DONE ==> Usable([])
      ensures rc == OK ==> input == []
      ensures filter.calls > old(filter.calls)
      ensures rc == if filter.answer != ERROR && filter.answer != DONE && input != [] then AGAIN else filter.answer
      ensures old(filter.given) <= filter.given && Passable(filter.given[|old(filter.given)|..])
    {
      hide Sound, Bounded, Held, Roomy, Flat, Stream, Apart;
      if input == [] && busy == [] && (chain == [] || (|chain| == 1 && PassesAsIs(chain[0]))) {
        ghost var before := filter.given;
        rc := PassDirectly(chain);
        assert filter.given[|before|..] == chain;
        MadeFits([]);
        StreamHolds([]);
        return;
      }
      Enqueue(chain);
      rc := Proceed();
    }

    /** The loop over the filter's calls. */
    method Proceed() returns (rc: Rc)
      requires Usable([])
      modifies this`input, this`busy, this`free, this`made, this`links, filter
      modifies links`pos, links`last, links`flags
      modifies set b | b in links && b.own :: b.data
      ensures Bounded(links) && Stream(Now([])) && made <= num
      ensures rc != ERROR && rc != DONE ==> Usable([])
      ensures filter.calls > old(filter.calls)
      ensures rc == if filter.answer != ERROR && filter.answer != DONE && input != [] then AGAIN else filter.answer
      ensures old(filter.given) <= filter.given && Passable(filter.given[|old(filter.given)|..])
    {
      hide Sound, Bounded, Held, Roomy, Weight, Stream, Apart, Passable;
      ghost var known, given := links, filter.given;
      var called := false;
      rc := OK;
      NothingIsPassable(given);
      while true
        invariant Usable([])
        invariant known <= links && forall b :: b in links && b !in known ==> fresh(b) && fresh(b.data)
        invariant if called then filter.calls > old(filter.calls) && rc == filter.answer && rc != ERROR && rc != DONE
                  else filter.calls == old(filter.calls)
        invariant given <= filter.given && Passable(filter.given[|given|..])
        decreases Weight(Now([])), !called
      {
        var out := Collect();
        MadeFits(out);
        if out == [] && called {
          StreamHolds([]);
          if input != [] {
            return AGAIN;
          }
          return;
        }
        GivenMore(given, filter.given, out);
        rc := HandOver(out);
        called := true;
        if rc == ERROR || rc == DONE {
          return;
        }
        ghost var released := Release();
      }
    }

    lemma NothingIsPassable(given: seq<Buf>)
      ensures Passable(given[|given|..]) && Passable([]) && NoneEmpty([])
    {
    }

    lemma GivenMore(first: seq<Buf>, before: seq<Buf>, out: seq<Buf>)
      requires first <= before && Passable(before[|first|..]) && Passable(out)
      ensures first <= before + out && Passable((before + out)[|first|..])
    {
      assert (before + out)[|first|..] == before[|first|..] + out;
    }

    lemma StreamHolds(out: seq<Buf>)
      requires Usable(out)
      ensures Stream(Now(out))
    {
    }
  }
}
