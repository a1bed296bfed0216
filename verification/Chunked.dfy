/** ntg_http_parse_chunked, over a buffer that is refilled in place, against the machine of ChunkedSpec. */
module Chunked {
  import opened ChunkedSpec

  /** in_buffer: the unread bytes are data[pos..last]; start is 0 and end is data.Length. */
  class Buf {
    const data: array<Byte>
    var pos: nat
    var last: nat

    constructor (d: array<Byte>)
      ensures data == d && pos == 0 && last == 0
    {
      data, pos, last := d, 0, 0;
    }

    predicate Valid()
      reads this
    {
      pos <= last <= data.Length
    }

    function Unread(): seq<Byte>
      requires Valid()
      reads this, data
    {
      data[pos..last]
    }
  }

  /** ntg_http_chunked_s */
  class Context {
    var state: State
    var size: int
    var length: int

    constructor ()
      ensures state == ChunkStart && size == 0 && length == 0
    {
      state, size, length := ChunkStart, 0, 0;
    }

    function At(): Config
      reads this
    {
      Settled(Config(state, size))
    }
  }

  datatype Rc = OK | AGAIN | DONE | ERROR

  datatype Move = Break | Data | Finish | Invalid

  /** The switch of the parser's loop: one byte in one state. */
  method ParseByte(ctx: Context, state: State, ch: Byte) returns (move: Move, next: State)
    requires Ok(Config(state, ctx.size))
    modifies ctx`size
    ensures move == Data <==> state == ChunkData
    ensures move == Data ==> ctx.size == old(ctx.size)
    ensures move == Finish ==> ctx.size == 0
    ensures state != ChunkData ==>
              (match old(Step(Config(state, ctx.size), ch))
               case Go(c) => move == Break && Config(next, ctx.size) == c
               case Done => move == Finish
               case Bad => move == Invalid)
  {
    move, next := Break, state;
    match state {
      case ChunkStart =>
        if '0' as int <= ch <= '9' as int {
          next, ctx.size := ChunkSize, ch - '0' as int;
          return;
        }
        var c := OrSpace(ch);
        if 'a' as int <= c <= 'f' as int {
          next, ctx.size := ChunkSize, c - 'a' as int + 10;
          return;
        }
        move := Invalid;
      case ChunkSize =>
        if ctx.size > MAX_OFF_T / 16 {
          move := Invalid;
          return;
        }
        if '0' as int <= ch <= '9' as int {
          ctx.size := ctx.size * 16 + (ch - '0' as int);
          return;
        }
        var c := OrSpace(ch);
        if 'a' as int <= c <= 'f' as int {
          ctx.size := ctx.size * 16 + (c - 'a' as int + 10);
          return;
        }
        if ctx.size == 0 {
          if ch == CR {
            next := LastChunkExtensionAlmostDone;
          } else if ch == LF {
            next := Trailer;
          } else if ch == ';' as int || ch == ' ' as int || ch == 9 {
            next := LastChunkExtension;
          } else {
            move := Invalid;
          }
          return;
        }
        if ch == CR {
          next := ChunkExtensionAlmostDone;
        } else if ch == LF {
          next := ChunkData;
        } else if ch == ';' as int || ch == ' ' as int || ch == 9 {
          next := ChunkExtension;
        } else {
          move := Invalid;
        }
      case ChunkExtension =>
        if ch == CR {
          next := ChunkExtensionAlmostDone;
        } else if ch == LF {
          next := ChunkData;
        }
      case ChunkExtensionAlmostDone =>
        if ch == LF {
          next := ChunkData;
        } else {
          move := Invalid;
        }
      case ChunkData =>
        move := Data;
      case AfterData =>
        if ch == CR {
          next := AfterDataAlmostDone;
        } else if ch == LF {
          next := ChunkStart;
        }
      case AfterDataAlmostDone =>
        if ch == LF {
          next := ChunkStart;
        } else {
          move := Invalid;
        }
      case LastChunkExtension =>
        if ch == CR {
          next := LastChunkExtensionAlmostDone;
        } else if ch == LF {
          next := Trailer;
        }
      case LastChunkExtensionAlmostDone =>
        if ch == LF {
          next := Trailer;
        } else {
          move := Invalid;
        }
      case Trailer =>
        if ch == CR {
          next := TrailerAlmostDone;
        } else if ch == LF {
          move := Finish;
        } else {
          next := TrailerHeader;
        }
      case TrailerAlmostDone =>
        if ch == LF {
          move := Finish;
        } else {
          move := Invalid;
        }
      case TrailerHeader =>
        if ch == CR {
          next := TrailerHeaderAlmostDone;
        } else if ch == LF {
          next := Trailer;
        }
      case TrailerHeaderAlmostDone =>
        if ch == LF {
          next := Trailer;
        } else {
          move := Invalid;
        }
    }
  }

  /** Runs grow by one byte at the end. */
  lemma RunGrows(c: Config, s: seq<Byte>, k: nat)
    requires k < |s| && Run(c, s[..k]).Going?
    ensures var d := Run(c, s[..k]).c;
            Run(c, s[..k + 1]) == match Step(d, s[k]) case Go(e) => Going(e) case Done => Finished(k + 1) case Bad => Broken
    ensures Payload(c, s[..k + 1]) == Payload(c, s[..k]) + if Run(c, s[..k]).c.state == ChunkData then [s[k]] else []
  {
    assert s[..k + 1] == s[..k] + [s[k]] && [s[k]][1..] == [];
    RunSplits(c, s[..k], [s[k]]);
    PayloadSplits(c, s[..k], [s[k]]);
  }

  /** What a prefix of s ends in, s ends in. */
  lemma RunGoesOn(c: Config, s: seq<Byte>, k: nat)
    requires k <= |s|
    ensures !Run(c, s[..k]).Going? ==> Run(c, s) == Run(c, s[..k]) && Payload(c, s) == Payload(c, s[..k])
  {
    assert s[..k] + s[k..] == s;
    RunSplits(c, s[..k], s[k..]);
    PayloadSplits(c, s[..k], s[k..]);
  }

  /** One byte outside chunk data: what it does to the run. */
  lemma Advances(c: Config, s: seq<Byte>, k: nat, d: Config)
    requires k < |s| && Run(c, s[..k]) == Going(d) && Ok(d) && d.state != ChunkData && Payload(c, s[..k]) == []
    ensures match Step(d, s[k])
            case Go(e) => Run(c, s[..k + 1]) == Going(e) && Ok(e) && Payload(c, s[..k + 1]) == []
            case Done => Run(c, s) == Finished(k + 1) && Payload(c, s) == []
            case Bad => Run(c, s) == Broken
  {
    RunGrows(c, s, k);
    RunGoesOn(c, s, k + 1);
    if Step(d, s[k]).Go? { StepKeepsOk(d, s[k]); }
  }

  /** The parser's switch at byte k of s, seen from the run that started at c. */
  method ScanByte(ctx: Context, state: State, ch: Byte, ghost c: Config, ghost s: seq<Byte>, ghost k: nat)
    returns (move: Move, next: State)
    requires k < |s| && ch == s[k]
    requires Run(c, s[..k]) == Going(Config(state, ctx.size)) && Ok(Config(state, ctx.size)) && Payload(c, s[..k]) == []
    modifies ctx`size
    ensures move == Data ==> state == ChunkData && ctx.size == old(ctx.size)
    ensures move == Break ==>
              Run(c, s[..k + 1]) == Going(Config(next, ctx.size)) && Ok(Config(next, ctx.size)) && Payload(c, s[..k + 1]) == []
    ensures move == Finish ==> Run(c, s) == Finished(k + 1) && Payload(c, s) == [] && ctx.size == 0
    ensures move == Invalid ==> Run(c, s) == Broken
  {
    if state != ChunkData { Advances(c, s, k, Config(state, ctx.size)); }
    move, next := ParseByte(ctx, state, ch);
  }

  /** The parser's loop over the buffer: where it stopped, in which state, and why. */
  method Scan(b: Buf, ctx: Context, from: State) returns (exit: Move, pos: nat, state: State)
    requires b.Valid() && Ok(Config(from, ctx.size))
    modifies ctx`size
    ensures b.pos <= pos <= b.last && (exit == Break <==> pos == b.last)
    ensures var c, s, n := old(Config(from, ctx.size)), b.Unread(), pos - b.pos;
            && (exit == Break || exit == Data ==>
                  Run(c, s[..n]) == Going(Config(state, ctx.size)) && Ok(Config(state, ctx.size)) && Payload(c, s[..n]) == [])
            && (exit == Data ==> state == ChunkData)
            && (exit == Finish ==> Run(c, s) == Finished(n + 1) && Payload(c, s) == [] && ctx.size == 0)
            && (exit == Invalid ==> Run(c, s) == Broken)
  {
    hide Run, Payload, Ok;
    ghost var c, s := Config(from, ctx.size), b.Unread();
    NothingRun(c);
    state := from;
    pos := b.pos;
    exit := Break;
    assert s[..0] == [];
    while pos < b.last && exit == Break
      invariant b.pos <= pos <= b.last && (exit != Break ==> pos < b.last)
      invariant exit == Break || exit == Data ==>
                  Run(c, s[..pos - b.pos]) == Going(Config(state, ctx.size)) && Ok(Config(state, ctx.size))
                  && Payload(c, s[..pos - b.pos]) == []
      invariant exit == Data ==> state == ChunkData
      invariant exit == Finish ==> Run(c, s) == Finished(pos - b.pos + 1) && Payload(c, s) == [] && ctx.size == 0
      invariant exit == Invalid ==> Run(c, s) == Broken
      decreases b.last - pos, exit == Break
    {
      var next;
      exit, next := ScanByte(ctx, state, b.data[pos], c, s, pos - b.pos);
      if exit == Break {
        state := next;
        pos := pos + 1;
      }
    }
  }

  /** Parses up to the next chunk data, the end of the message, or the end of the buffer. */
  method ParseChunked(b: Buf, ctx: Context) returns (rc: Rc)
    requires b.Valid() && Ok(ctx.At())
    modifies b`pos, ctx
    ensures b.Valid() && old(b.pos) <= b.pos
    ensures var c, s, n := old(ctx.At()), old(b.Unread()), b.pos - old(b.pos);
            match rc
            case OK =>
              n < |s| && Run(c, s[..n]) == Going(ctx.At()) && ctx.At().state == ChunkData && ctx.size > 0
              && Ok(ctx.At()) && Payload(c, s[..n]) == []
            case AGAIN =>
              n == |s| && Run(c, s) == Going(ctx.At()) && Ok(ctx.At()) && !RefusedAtEnd(ctx.At())
              && ctx.length == Need(ctx.At()) && Payload(c, s) == []
            case DONE =>
              Run(c, s) == Finished(n) && ctx.At() == START && Payload(c, s) == []
            case ERROR =>
              Run(c, s) == Broken || (Run(c, s).Going? && RefusedAtEnd(Run(c, s).c))
  {
    hide Run, Payload;
    ghost var s := b.Unread();
    var state := ctx.state;
    if state == ChunkData && ctx.size == 0 {
      state := AfterData;
    }
    var exit, pos;
    exit, pos, state := Scan(b, ctx, state);
    if exit == Finish {
      ctx.state := ChunkStart;
      b.pos := pos + 1;
      return DONE;
    }
    if exit == Invalid {
      return ERROR;
    }
    assert exit == Break ==> s[..pos - b.pos] == s;
    ctx.state := state;
    b.pos := pos;
    if ctx.size > MAX_OFF_T - 5 {
      return ERROR;
    }
    ctx.length := Need(Config(state, ctx.size));
    rc := if exit == Data then OK else AGAIN;
  }
}
