/** ntg_http_discard.c: the body filter and the loop that reads and drops the rest of a body. */
module Discard {
  import opened ChunkedSpec
  import opened Chunked

  datatype Received = Got(n: nat) | TryAgain | Closed | Failed

  /** The connection: what the peer sends, how much of it was taken, and how recv will behave. */
  class Socket {
    const stream: seq<Byte>
    var taken: nat
    var script: seq<Received>

    constructor (s: seq<Byte>, events: seq<Received>)
      ensures stream == s && taken == 0 && script == events
    {
      stream, taken, script := s, 0, events;
    }

    predicate Valid()
      reads this
    {
      taken <= |stream|
    }

    /** At most size bytes of what has arrived, copied to the start of b. */
    method Recv(b: array<Byte>, size: nat) returns (r: Received)
      requires Valid() && 0 < size <= b.Length
      modifies this`taken, this`script, b
      ensures Valid() && |script| <= |old(script)|
      ensures r.Got? ==> 0 < r.n <= size && |script| < |old(script)|
      ensures taken == old(taken) + (if r.Got? then r.n else 0)
      ensures r.Got? ==> b[..r.n] == stream[old(taken)..taken]
    {
      if script == [] {
        return TryAgain;
      }
      r, script := script[0], script[1..];
      if r.Got? {
        var n := if r.n <= size then r.n else size;
        n := if n <= |stream| - taken then n else |stream| - taken;
        if n == 0 {
          return TryAgain;
        }
        forall i | 0 <= i < n {
          b[i] := stream[taken + i];
        }
        taken := taken + n;
        r := Got(n);
        assert b[..n] == stream[old(taken)..taken];
      }
    }
  }

  class Request {
    const inBuffer: Buf
    const context: Context
    const chunked: bool
    const connectionClose: bool
    var contentLength: int
    var keepalive: bool
    var responseLength: int

    constructor (b: Buf, c: Context, isChunked: bool, close: bool, length: int)
      ensures inBuffer == b && context == c && chunked == isChunked && connectionClose == close
      ensures contentLength == (if isChunked then -1 else length) && responseLength == 0
    {
      inBuffer, context, chunked, connectionClose := b, c, isChunked, close;
      contentLength := if isChunked then -1 else length;
      keepalive, responseLength := false, 0;
    }

    /** A chunk has been found: pass over as much of its data as the buffer holds. */
    method SkipData() returns (ghost data: seq<Byte>)
      requires inBuffer.Valid() && inBuffer.pos < inBuffer.last
      requires context.state == ChunkData && context.size > 0
      modifies inBuffer`pos, context`size
      ensures inBuffer.Valid() && old(inBuffer.pos) < inBuffer.pos
      ensures data == old(inBuffer.Unread())[..inBuffer.pos - old(inBuffer.pos)] && 0 < |data| <= old(context.size)
      ensures inBuffer.Unread() == old(inBuffer.Unread())[inBuffer.pos - old(inBuffer.pos)..]
      ensures context.size == old(context.size) - |data| && (context.size > 0 ==> inBuffer.pos == inBuffer.last)
    {
      ghost var s, p := inBuffer.Unread(), inBuffer.pos;
      var size := inBuffer.last - inBuffer.pos;
      if size > context.size {
        inBuffer.pos := inBuffer.pos + context.size;
        context.size := 0;
      } else {
        context.size := context.size - size;
        inBuffer.pos := inBuffer.last;
      }
      data := s[..inBuffer.pos - p];
    }

    /** The data of a chunk, met after j bytes that carry none, is what the run over them pays out. */
    static lemma OverData(c: Config, s: seq<Byte>, j: nat, d: Config, n: nat)
      requires j + n <= |s| && Run(c, s[..j]) == Going(d) && Payload(c, s[..j]) == []
      requires Ok(d) && d.state == ChunkData && n <= d.size
      ensures Run(c, s[..j + n]) == Going(Settled(Config(ChunkData, d.size - n))) && Payload(c, s[..j + n]) == s[j..][..n]
      ensures s[j..][n..] == s[j + n..]
    {
      hide Run, Payload;
      assert s[j..][..n] == s[j..j + n];
      RunOverData(d, s[j..j + n]);
      RunResumes(c, s, j, j + n);
    }

    /** One round of the filter's loop; OK says that chunk data was passed over and it goes on. */
    method FilterOnce() returns (rc: Rc, ghost skipped: seq<Byte>)
      requires inBuffer.Valid() && Ok(context.At())
      modifies inBuffer`pos, context
      ensures inBuffer.Valid() && old(inBuffer.pos) <= inBuffer.pos
      ensures var c, s, n := old(context.At()), old(inBuffer.Unread()), inBuffer.pos - old(inBuffer.pos);
              match rc
              case OK => 0 < n && inBuffer.Unread() == s[n..] && Ok(context.At())
                         && Run(c, s[..n]) == Going(context.At()) && Payload(c, s[..n]) == skipped
              case AGAIN => n == |s| && Run(c, s) == Going(context.At()) && Ok(context.At()) && !RefusedAtEnd(context.At())
                            && context.length == Need(context.At()) && Payload(c, s) == skipped
              case DONE => Run(c, s) == Finished(n) && Payload(c, s) == skipped
              case ERROR => Run(c, s) == Broken || (Run(c, s).Going? && RefusedAtEnd(Run(c, s).c))
    {
      hide Run, Payload, Need, RefusedAtEnd;
      ghost var c, s, p := context.At(), inBuffer.Unread(), inBuffer.pos;
      skipped := [];
      rc := ParseChunked(inBuffer, context);
      if rc == OK {
        ghost var j, d := inBuffer.pos - p, context.At();
        assert inBuffer.Unread() == s[j..];
        skipped := SkipData();
        OverData(c, s, j, d, |skipped|);
      }
    }

    /** The first k bytes of s have been passed over, the run has come from c to the context. */
    ghost predicate Passed(c: Config, s: seq<Byte>, k: int, skipped: seq<Byte>)
      reads inBuffer, inBuffer.data, context
    {
      && inBuffer.Valid() && Ok(context.At()) && 0 <= k <= |s| && inBuffer.Unread() == s[k..]
      && Run(c, s[..k]) == Going(context.At()) && Payload(c, s[..k]) == skipped
    }

    /** A run resumed from its k-th byte is the whole run. */
    static lemma Onward(c: Config, s: seq<Byte>, k: nat, e: Config, n: nat)
      requires k + n <= |s| && Run(c, s[..k]) == Going(e)
      ensures Run(c, s[..k + n]) == Later(Run(e, s[k..][..n]), k) && s[k..][n..] == s[k + n..]
      ensures Payload(c, s[..k + n]) == Payload(c, s[..k]) + Payload(e, s[k..][..n])
    {
      hide Run, Payload;
      assert s[k..][..n] == s[k..k + n];
      RunResumes(c, s, k, k + n);
    }

    static lemma OnwardToTheEnd(c: Config, s: seq<Byte>, k: nat, e: Config)
      requires k <= |s| && Run(c, s[..k]) == Going(e)
      ensures Run(c, s) == Later(Run(e, s[k..]), k) && Payload(c, s) == Payload(c, s[..k]) + Payload(e, s[k..])
    {
      hide Run, Payload;
      assert s[k..|s|] == s[k..] && s[..|s|] == s;
      RunResumes(c, s, k, |s|);
    }

    /** The same round, seen from the start of the call. */
    method FilterRound(ghost c: Config, ghost s: seq<Byte>, ghost p: nat, ghost before: seq<Byte>)
      returns (rc: Rc, ghost skipped: seq<Byte>)
      requires Passed(c, s, inBuffer.pos - p, before)
      modifies inBuffer`pos, context
      ensures inBuffer.Valid() && old(inBuffer.pos) <= inBuffer.pos
      ensures rc == OK ==> old(inBuffer.pos) < inBuffer.pos && Passed(c, s, inBuffer.pos - p, skipped)
      ensures rc == DONE ==> Run(c, s) == Finished(inBuffer.pos - p) && Payload(c, s) == skipped
      ensures rc == AGAIN ==> inBuffer.pos - p == |s| && Run(c, s) == Going(context.At()) && Payload(c, s) == skipped
      ensures rc == AGAIN ==> Ok(context.At()) && !RefusedAtEnd(context.At()) && context.length == Need(context.At())
      ensures rc == ERROR ==> Run(c, s) == Broken || (Run(c, s).Going? && RefusedAtEnd(Run(c, s).c))
    {
      hide Run, Payload, Ok, Need, RefusedAtEnd, Settled;
      ghost var k, e := inBuffer.pos - p, context.At();
      OnwardToTheEnd(c, s, k, e);
      rc, skipped := FilterOnce();
      if rc == OK { Onward(c, s, k, e, inBuffer.pos - p - k); }
      skipped := before + skipped;
    }

    /** The chunked branch of the filter; skipped is the data it passes over. */
    method FilterChunked() returns (rc: Rc, ghost skipped: seq<Byte>)
      requires inBuffer.Valid() && Ok(context.At())
      modifies this`contentLength, this`keepalive, inBuffer`pos, context
      ensures inBuffer.Valid() && old(inBuffer.pos) <= inBuffer.pos && (rc == OK || rc == ERROR)
      ensures var c, s, n := old(context.At()), old(inBuffer.Unread()), inBuffer.pos - old(inBuffer.pos);
              if rc == ERROR then
                contentLength == old(contentLength) && (Run(c, s) == Broken || (Run(c, s).Going? && RefusedAtEnd(Run(c, s).c)))
              else if contentLength == 0 then
                Run(c, s) == Finished(n) && skipped == Payload(c, s) && keepalive == !connectionClose
              else
                n == |s| && Run(c, s) == Going(context.At()) && skipped == Payload(c, s)
                && Ok(context.At()) && !RefusedAtEnd(context.At()) && contentLength == Need(context.At())
    {
      ghost var c, s, p := context.At(), inBuffer.Unread(), inBuffer.pos;
      skipped := [];
      assert s[..0] == [] && s[..|s|] == s;
      rc := OK;
      while rc == OK
        invariant inBuffer.Valid() && p <= inBuffer.pos
        invariant rc == OK ==> Passed(c, s, inBuffer.pos - p, skipped)
        invariant rc == DONE ==> Run(c, s) == Finished(inBuffer.pos - p) && Payload(c, s) == skipped
        invariant rc == AGAIN ==> inBuffer.pos - p == |s| && Run(c, s) == Going(context.At()) && Payload(c, s) == skipped
        invariant rc == AGAIN ==> Ok(context.At()) && !RefusedAtEnd(context.At()) && context.length == Need(context.At())
        invariant rc == ERROR ==> Run(c, s) == Broken || (Run(c, s).Going? && RefusedAtEnd(Run(c, s).c))
        modifies inBuffer`pos, context
        decreases rc == OK, inBuffer.last - inBuffer.pos
      {
        rc, skipped := FilterRound(c, s, p, skipped);
      }
      if rc == DONE {
        keepalive := !connectionClose;
        contentLength := 0;
        rc := OK;
      } else if rc == AGAIN {
        contentLength := context.length;
        rc := OK;
      }
    }

    /** ntg_http_discard_request_body_filter */
    method Filter() returns (rc: Rc, ghost skipped: seq<Byte>)
      requires inBuffer.Valid() && (if chunked then Ok(context.At()) else 0 <= contentLength)
      modifies this`contentLength, this`keepalive, inBuffer`pos, context
      ensures inBuffer.Valid() && old(inBuffer.pos) <= inBuffer.pos && (rc == OK || rc == ERROR)
      ensures var c, s, n := old(context.At()), old(inBuffer.Unread()), inBuffer.pos - old(inBuffer.pos);
              if !chunked then
                rc == OK && contentLength == old(contentLength) - n && n <= |s| && skipped == s[..n]
                && (if |s| > old(contentLength) then contentLength == 0 && keepalive == !connectionClose
                    else n == |s| && keepalive == old(keepalive))
              else if rc == ERROR then
                contentLength == old(contentLength) && (Run(c, s) == Broken || (Run(c, s).Going? && RefusedAtEnd(Run(c, s).c)))
              else if contentLength == 0 then
                Run(c, s) == Finished(n) && skipped == Payload(c, s) && keepalive == !connectionClose
              else
                n == |s| && Run(c, s) == Going(context.At()) && skipped == Payload(c, s)
                && Ok(context.At()) && !RefusedAtEnd(context.At()) && contentLength == Need(context.At())
    {
      if chunked {
        rc, skipped := FilterChunked();
      } else {
        ghost var s, p := inBuffer.Unread(), inBuffer.pos;
        var size := inBuffer.last - inBuffer.pos;
        if size > contentLength {
          inBuffer.pos := inBuffer.pos + contentLength;
          contentLength := 0;
          keepalive := !connectionClose;
        } else {
          inBuffer.pos := inBuffer.last;
          contentLength := contentLength - size;
        }
        rc, skipped := OK, s[..inBuffer.pos - p];
      }
    }

    /** Ready to read: contentLength is the number of bytes the body still needs, 0 when it is over. */
    ghost predicate Expecting()
      reads this, context
    {
      && 0 <= contentLength && inBuffer.data.Length > 0
      && (chunked && contentLength > 0 ==>
            Ok(context.At()) && !RefusedAtEnd(context.At()) && contentLength == Need(context.At()))
    }

    /** s has been consumed since the body stood at c with length bytes needed. */
    ghost predicate Reached(c: Config, length: int, s: seq<Byte>)
      reads this`contentLength, context
    {
      if !chunked then contentLength == length - |s|
      else if contentLength == 0 then (length == 0 && s == []) || Run(c, s) == Finished(|s|)
      else length > 0 && Run(c, s) == Going(context.At())
    }

    /** data is the payload among the bytes s that came behind c. */
    ghost predicate Skipped(c: Config, s: seq<Byte>, data: seq<Byte>) { data == if chunked then Payload(c, s) else s }

    /** Two pieces in a row. */
    lemma SkippedOn(c: Config, s: seq<Byte>, before: seq<Byte>, d: Config, piece: seq<Byte>, data: seq<Byte>)
      requires Skipped(c, s, before) && Skipped(d, piece, data) && (chunked ==> Run(c, s) == Going(d))
      ensures Skipped(c, s + piece, before + data)
    {
      if chunked { PayloadSplits(c, s, piece); }
    }

    /** A piece no longer than what is needed either is consumed whole or breaks the coding. */
    static lemma PieceFits(c: Config, s: seq<Byte>, d: Config, piece: seq<Byte>)
      requires Run(c, s) == Going(d) && Ok(d) && |piece| <= Need(d)
      ensures Run(c, s + piece) == Later(Run(d, piece), |s|)
      ensures Run(d, piece).Finished? ==> Run(c, s + piece) == Finished(|s + piece|)
    {
      RunSplits(c, s, piece);
      if Run(d, piece).Finished? { NeedIsLowerBound(d, piece); }
    }

    /** One successful recv: the piece replaces the buffer's contents and goes through the filter. */
    method Take(n: nat, ghost c: Config, ghost length: int, ghost s: seq<Byte>) returns (rc: Rc, ghost skipped: seq<Byte>)
      requires Expecting() && Reached(c, length, s) && 0 < n <= contentLength && n <= inBuffer.data.Length
      requires inBuffer.pos == inBuffer.last == 0
      modifies this, inBuffer, context
      ensures var t := s + inBuffer.data[..n];
              && responseLength == old(responseLength) + n && (rc == OK || rc == ERROR)
              && (rc == OK ==> Expecting() && Reached(c, length, t)) && (!chunked ==> keepalive == old(keepalive))
              && (rc == OK ==> Skipped(old(context.At()), inBuffer.data[..n], skipped))
              && (rc == ERROR ==> chunked && (Run(c, t) == Broken || (Run(c, t).Going? && RefusedAtEnd(Run(c, t).c))))
    {
      responseLength := responseLength + n;
      inBuffer.last := inBuffer.last + n;
      ghost var piece := inBuffer.Unread();
      assert piece == inBuffer.data[..n];
      if chunked { PieceFits(c, s, context.At(), piece); }
      hide Run, Payload;
      rc, skipped := Filter();
    }

    /** Where a whole message is at hand, an account of its first bytes shows no fault and ends within it. */
    static lemma WithinMessage(c: Config, s: seq<Byte>, stream: seq<Byte>, t: nat, u: nat)
      requires Ok(c) && t <= u <= |stream| && Run(c, s + stream[t..]).Finished?
      ensures var v := Run(c, s + stream[t..u]);
              match v
              case Going(d) => !RefusedAtEnd(d) && |s| + (u - t) < Run(c, s + stream[t..]).used
              case Finished(k) => k == Run(c, s + stream[t..]).used
              case Broken => false
      ensures u == t ==> s + stream[t..u] == s
    {
      hide Run, RefusedAtEnd, Need;
      PrefixOf(s, stream, t, u);
      MessageIsRespected(c, s + stream[t..], |s| + (u - t));
    }

    static lemma PrefixOf(s: seq<Byte>, stream: seq<Byte>, t: nat, u: nat)
      requires t <= u <= |stream|
      ensures |s| + (u - t) <= |s + stream[t..]| && (s + stream[t..])[..|s| + (u - t)] == s + stream[t..u]
      ensures u == t ==> s + stream[t..u] == s
    {
    }

    /** The same, on the stream of the socket from t on. */
    method TakeFrom(sock: Socket, n: nat, ghost c: Config, ghost length: int, ghost t: nat, ghost before: seq<Byte>)
      returns (rc: Rc, ghost skipped: seq<Byte>)
      requires Expecting() && sock.Valid() && 0 < n <= contentLength && n <= inBuffer.data.Length && t <= sock.taken - n
      requires Reached(c, length, sock.stream[t..sock.taken - n]) && Skipped(c, sock.stream[t..sock.taken - n], before)
      requires inBuffer.pos == inBuffer.last == 0 && inBuffer.data[..n] == sock.stream[sock.taken - n..sock.taken]
      modifies this, inBuffer, context
      ensures responseLength == old(responseLength) + n && (rc == OK || rc == ERROR)
      ensures rc == OK ==> Expecting() && Reached(c, length, sock.stream[t..sock.taken])
      ensures rc == OK ==> Skipped(c, sock.stream[t..sock.taken], skipped)
      ensures !chunked ==> keepalive == old(keepalive)
      ensures rc == ERROR ==> chunked && (var v := Run(c, sock.stream[t..sock.taken]); v == Broken || (v.Going? && RefusedAtEnd(v.c)))
      ensures chunked && Ok(c) && Run(c, sock.stream[t..]).Finished? ==>
                rc == OK && sock.taken - t <= Run(c, sock.stream[t..]).used
    {
      hide Run, RefusedAtEnd, Need, Ok, Skipped;
      ghost var s, all, d := sock.stream[t..sock.taken - n], sock.stream[t..], context.At();
      assert s + sock.stream[sock.taken - n..sock.taken] == sock.stream[t..sock.taken];
      ghost var data;
      rc, data := Take(n, c, length, s);
      if rc == OK { SkippedOn(c, s, before, d, sock.stream[sock.taken - n..sock.taken], data); }
      skipped := before + data;
      if chunked && Ok(c) && Run(c, all).Finished? {
        assert all[..sock.taken - t] == sock.stream[t..sock.taken];
        MessageIsRespected(c, all, sock.taken - t);
        assert contentLength == 0 ==> Run(c, all[..sock.taken - t]) == Finished(sock.taken - t) || rc != OK;
      }
    }

    lemma NothingSkipped(c: Config)
      ensures Skipped(c, [], [])
    {
    }

    /** ntg_http_read_discarded_request_body: no byte beyond the end of the body is ever received, and a
        whole message is never taken for a broken one, whatever follows it. */
    method ReadDiscarded(sock: Socket) returns (rc: Rc, ghost skipped: seq<Byte>)
      requires Expecting() && sock.Valid()
      modifies this, inBuffer, inBuffer.data, context, sock`taken, sock`script
      ensures sock.Valid() && old(sock.taken) <= sock.taken && (rc == OK || rc == AGAIN || rc == ERROR)
      ensures var s := sock.stream[old(sock.taken)..sock.taken];
              && responseLength == old(responseLength) + |s|
              && (rc != ERROR ==> Expecting() && Reached(old(context.At()), old(contentLength), s))
              && (rc != ERROR ==> Skipped(old(context.At()), s, skipped))
              && (rc == ERROR ==> chunked && (var v := Run(old(context.At()), s); v == Broken || (v.Going? && RefusedAtEnd(v.c))))
      ensures !chunked ==> keepalive == old(keepalive)
      ensures chunked && old(contentLength) > 0 && Run(old(context.At()), sock.stream[old(sock.taken)..]).Finished? ==>
                rc != ERROR && sock.taken - old(sock.taken) <= Run(old(context.At()), sock.stream[old(sock.taken)..]).used
    {
      hide RefusedAtEnd, Ok, Skipped, IsExtensionLead, Settled, Need, Payload;
      ghost var c, length, t := context.At(), contentLength, sock.taken;
      skipped := [];
      assert sock.stream[t..t] == [];
      NothingSkipped(c);
      ghost var whole := chunked && length > 0 && Run(c, sock.stream[t..]).Finished?;
      while true
        invariant sock.Valid() && t <= sock.taken && Expecting()
        invariant Reached(c, length, sock.stream[t..sock.taken]) && Skipped(c, sock.stream[t..sock.taken], skipped)
        invariant responseLength == old(responseLength) + (sock.taken - t)
        invariant !chunked ==> keepalive == old(keepalive)
        invariant whole ==> sock.taken - t <= Run(c, sock.stream[t..]).used
        decreases |sock.script|
      {
        if contentLength == 0 {
          return OK, skipped;
        }
        inBuffer.pos, inBuffer.last := 0, 0;
        var size := if contentLength <= inBuffer.data.Length then contentLength else inBuffer.data.Length;
        var r := sock.Recv(inBuffer.data, size);
        if r == TryAgain {
          return AGAIN, skipped;
        }
        if r == Closed || r == Failed {
          return OK, skipped;
        }
        rc, skipped := TakeFrom(sock, r.n, c, length, t, skipped);
        if rc != OK {
          return;
        }
      }
    }

    /** What the peer still sends of a body that stood at c before the bytes s. */
    method DiscardRest(sock: Socket, ghost c: Config, ghost s: seq<Byte>, ghost before: seq<Byte>) returns (rc: Rc, ghost skipped: seq<Byte>)
      requires Expecting() && contentLength > 0 && sock.Valid() && Skipped(c, s, before)
      requires chunked ==> Ok(c) && Run(c, s) == Going(context.At())
      modifies this, inBuffer, inBuffer.data, context, sock`taken, sock`script
      ensures sock.Valid() && old(sock.taken) <= sock.taken && (rc == OK || rc == AGAIN || rc == ERROR)
      ensures !chunked ==>
                rc != ERROR && keepalive == old(keepalive)
                && contentLength == old(contentLength) - (sock.taken - old(sock.taken)) >= 0
      ensures rc != ERROR ==> Skipped(c, s + sock.stream[old(sock.taken)..sock.taken], skipped)
      ensures chunked ==>
                var m := s + sock.stream[old(sock.taken)..sock.taken];
                var v := Run(c, m);
                if rc == ERROR then v == Broken || (v.Going? && RefusedAtEnd(v.c))
                else if contentLength != 0 then v == Going(context.At())
                else sock.taken > old(sock.taken) && v == Finished(|m|)
      ensures chunked && Run(c, s + sock.stream[old(sock.taken)..]).Finished? ==>
                rc != ERROR && |s| + (sock.taken - old(sock.taken)) <= Run(c, s + sock.stream[old(sock.taken)..]).used
    {
      hide Run, RefusedAtEnd, Payload, Skipped;
      ghost var d, t, data := context.At(), sock.taken, [];
      rc, data := ReadDiscarded(sock);
      skipped := before + data;
      if rc != ERROR { SkippedOn(c, s, before, d, sock.stream[t..sock.taken], data); }
      if chunked {
        RunSplits(c, s, sock.stream[t..sock.taken]);
        if Run(c, s + sock.stream[t..]).Finished? { WithinMessage(c, s, sock.stream, t, sock.taken); }
      }
    }

    /** ntg_http_discard_response_body up to the event registration: first what is already in the
        buffer, then what the peer still sends. */
    method DiscardBody(sock: Socket) returns (rc: Rc, ghost skipped: seq<Byte>)
      requires inBuffer.Valid() && inBuffer.data.Length > 0 && sock.Valid() && Ok(context.At())
      requires chunked ==> contentLength != 0
      modifies this, inBuffer, inBuffer.data, context, sock`taken, sock`script
      ensures sock.Valid() && old(sock.taken) <= sock.taken
      ensures !chunked && old(contentLength) <= 0 ==> rc == OK && sock.taken == old(sock.taken) && inBuffer.pos == old(inBuffer.pos)
      ensures !chunked && old(contentLength) > 0 ==>
                var length, buffered, received := old(contentLength), |old(inBuffer.Unread())|, sock.taken - old(sock.taken);
                if buffered >= length then
                  rc == OK && contentLength == 0 && received == 0 && inBuffer.pos == old(inBuffer.pos) + length
                  && keepalive == if buffered > length then !connectionClose else old(keepalive)
                else
                  rc != ERROR && contentLength == length - buffered - received >= 0 && keepalive == old(keepalive)
      ensures chunked ==>
                var s := old(inBuffer.Unread()) + sock.stream[old(sock.taken)..sock.taken];
                var v := Run(old(context.At()), s);
                if rc == ERROR then v == Broken || (v.Going? && RefusedAtEnd(v.c))
                else if contentLength != 0 then v == Going(context.At())
                else v.Finished? && (if sock.taken > old(sock.taken) then v.used == |s| else v.used == inBuffer.pos - old(inBuffer.pos))
      ensures rc != ERROR && (chunked || old(contentLength) > 0) ==>
                var s := old(inBuffer.Unread()) + sock.stream[old(sock.taken)..sock.taken];
                skipped == if chunked then Payload(old(context.At()), s)
                           else if |s| > old(contentLength) then s[..old(contentLength)] else s
      ensures chunked ==>
                var all := old(inBuffer.Unread()) + sock.stream[old(sock.taken)..];
                Run(old(context.At()), all).Finished? ==>
                  rc != ERROR
                  && (sock.taken > old(sock.taken) ==>
                        |old(inBuffer.Unread())| + (sock.taken - old(sock.taken)) <= Run(old(context.At()), all).used)
    {
      hide Run, RefusedAtEnd, Payload;
      skipped := [];
      if contentLength <= 0 && !chunked {
        return OK, skipped;
      }
      ghost var c, s, t := context.At(), inBuffer.Unread(), sock.taken;
      assert sock.stream[t..t] == [] && s + [] == s;
      var size := inBuffer.last - inBuffer.pos;
      if size > 0 || chunked {
        rc, skipped := Filter();
        if chunked && Run(c, s + sock.stream[t..]).Finished? { WithinMessage(c, s, sock.stream, t, t); }
        if contentLength == 0 {
          return OK, skipped;
        }
        if rc != OK && rc != AGAIN {
          return rc, skipped;
        }
      }
      rc, skipped := DiscardRest(sock, c, s, skipped);
    }
  }

  /** A peer that sends a whole message is never accused, and what is still asked for lies within it. */
  lemma MessageIsRespected(c: Config, all: seq<Byte>, k: nat)
    requires Ok(c) && Run(c, all).Finished? && k <= |all|
    ensures var v := Run(c, all[..k]);
            match v
            case Going(d) => k < Run(c, all).used && !RefusedAtEnd(d) && Need(d) <= Run(c, all).used - k
            case Finished(u) => u == Run(c, all).used
            case Broken => false
  {
    assert all == all[..k] + all[k..];
    RunSplits(c, all[..k], all[k..]);
    RunKeepsOkIfGoing(c, all[..k]);
    if Run(c, all[..k]).Going? {
      var d := Run(c, all[..k]).c;
      if RefusedAtEnd(d) { OversizeIsDoomed(d, all[k..]); }
      NeedIsLowerBound(d, all[k..]);
    }
  }

  lemma RunKeepsOkIfGoing(c: Config, s: seq<Byte>)
    requires Ok(c)
    ensures Run(c, s).Going? ==> Ok(Run(c, s).c)
  {
    if Run(c, s).Going? { RunKeepsOk(c, s); }
  }
}
