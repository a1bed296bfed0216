/** The chunked transfer coding as a machine over single bytes, and the laws the parser, the body
    discarder and its read loop rely on. */
module ChunkedSpec {

  type Byte = b: int | 0 <= b < 256

  const CR: Byte := 13
  const LF: Byte := 10
  const MAX_OFF_T: int := 0x7fff_ffff_ffff_ffff

  datatype State =
    | ChunkStart
    | ChunkSize
    | ChunkExtension
    | ChunkExtensionAlmostDone
    | ChunkData
    | AfterData
    | AfterDataAlmostDone
    | LastChunkExtension
    | LastChunkExtensionAlmostDone
    | Trailer
    | TrailerAlmostDone
    | TrailerHeader
    | TrailerHeaderAlmostDone

  /** Where the machine stands; size counts the digits read so far or the data bytes still to come. */
  datatype Config = Config(state: State, size: int)

  const START: Config := Config(ChunkStart, 0)

  /** A chunk whose last data byte is gone waits for its line end. */
  function Settled(c: Config): Config {
    if c.state == ChunkData && c.size == 0 then Config(AfterData, 0) else c
  }

  /** ch | 0x20 */
  function OrSpace(ch: Byte): (r: Byte) { if ch / 32 % 2 == 1 then ch else ch + 32 }

  /** The value of a hexadecimal digit, or -1. */
  function HexValue(ch: Byte): int {
    if '0' as int <= ch <= '9' as int then ch - '0' as int
    else
      var c := OrSpace(ch);
      if 'a' as int <= c <= 'f' as int then c - 'a' as int + 10 else -1
  }

  predicate IsExtensionLead(ch: Byte) { ch == ';' as int || ch == ' ' as int || ch == 9 }

  datatype Outcome = Go(c: Config) | Done | Bad

  function Step(c: Config, ch: Byte): Outcome {
    match c.state
    case ChunkStart =>
      if HexValue(ch) >= 0 then Go(Config(ChunkSize, HexValue(ch))) else Bad
    case ChunkSize =>
      if c.size > MAX_OFF_T / 16 then Bad
      else if HexValue(ch) >= 0 then Go(Config(ChunkSize, c.size * 16 + HexValue(ch)))
      else if c.size == 0 then
        if ch == CR then Go(Config(LastChunkExtensionAlmostDone, 0))
        else if ch == LF then Go(Config(Trailer, 0))
        else if IsExtensionLead(ch) then Go(Config(LastChunkExtension, 0))
        else Bad
      else if ch == CR then Go(Config(ChunkExtensionAlmostDone, c.size))
      else if ch == LF then Go(Config(ChunkData, c.size))
      else if IsExtensionLead(ch) then Go(Config(ChunkExtension, c.size))
      else Bad
    case ChunkExtension =>
      if ch == CR then Go(Config(ChunkExtensionAlmostDone, c.size))
      else if ch == LF then Go(Config(ChunkData, c.size))
      else Go(c)
    case ChunkExtensionAlmostDone =>
      if ch == LF then Go(Config(ChunkData, c.size)) else Bad
    case ChunkData =>
      Go(Settled(Config(ChunkData, c.size - 1)))
    case AfterData =>
      if ch == CR then Go(Config(AfterDataAlmostDone, 0))
      else if ch == LF then Go(START)
      else Go(c)
    case AfterDataAlmostDone =>
      if ch == LF then Go(START) else Bad
    case LastChunkExtension =>
      if ch == CR then Go(Config(LastChunkExtensionAlmostDone, 0))
      else if ch == LF then Go(Config(Trailer, 0))
      else Go(c)
    case LastChunkExtensionAlmostDone =>
      if ch == LF then Go(Config(Trailer, 0)) else Bad
    case Trailer =>
      if ch == CR then Go(Config(TrailerAlmostDone, 0))
      else if ch == LF then Done
      else Go(Config(TrailerHeader, 0))
    case TrailerAlmostDone =>
      if ch == LF then Done else Bad
    case TrailerHeader =>
      if ch == CR then Go(Config(TrailerHeaderAlmostDone, 0))
      else if ch == LF then Go(Config(Trailer, 0))
      else Go(c)
    case TrailerHeaderAlmostDone =>
      if ch == LF then Go(Config(Trailer, 0)) else Bad
  }

  /** The configurations the machine can be in. */
  predicate Ok(c: Config) {
    match c.state
    case ChunkSize => 0 <= c.size <= MAX_OFF_T
    case ChunkExtension => 1 <= c.size <= MAX_OFF_T / 16
    case ChunkExtensionAlmostDone => 1 <= c.size <= MAX_OFF_T / 16
    case ChunkData => 1 <= c.size <= MAX_OFF_T / 16
    case _ => c.size == 0
  }

  /** A size that the next byte, whatever it is, will be refused for. */
  predicate Oversize(c: Config) { c.state == ChunkSize && c.size > MAX_OFF_T / 16 }

  lemma StepKeepsOk(c: Config, ch: Byte)
    requires Ok(c) && Step(c, ch).Go?
    ensures Ok(Step(c, ch).c)
  {
  }

  // ----- runs

  datatype Verdict = Going(c: Config) | Finished(used: nat) | Broken

  function Later(v: Verdict, n: nat): Verdict { if v.Finished? then Finished(v.used + n) else v }

  /** What becomes of c over the bytes s; Finished says how many of them the message took. */
  function Run(c: Config, s: seq<Byte>): (v: Verdict)
    ensures v.Finished? ==> 1 <= v.used <= |s|
    decreases |s|
  {
    if s == [] then Going(c)
    else
      match Step(c, s[0])
      case Go(d) => Later(Run(d, s[1..]), 1)
      case Done => Finished(1)
      case Bad => Broken
  }

  /** The bytes of s that are chunk data. */
  function Payload(c: Config, s: seq<Byte>): seq<Byte>
    decreases |s|
  {
    if s == [] then []
    else
      (if c.state == ChunkData then [s[0]] else [])
      + match Step(c, s[0])
        case Go(d) => Payload(d, s[1..])
        case Done => []
        case Bad => []
  }

  lemma {:induction false} RunKeepsOk(c: Config, s: seq<Byte>)
    requires Ok(c) && Run(c, s).Going?
    ensures Ok(Run(c, s).c)
    decreases |s|
  {
    if s != [] {
      StepKeepsOk(c, s[0]);
      RunKeepsOk(Step(c, s[0]).c, s[1..]);
    }
  }

  /** Cutting the bytes in two changes nothing. */
  lemma {:induction false} RunSplits(c: Config, a: seq<Byte>, b: seq<Byte>)
    ensures Run(c, a + b) == if Run(c, a).Going? then Later(Run(Run(c, a).c, b), |a|) else Run(c, a)
    decreases |a|
  {
    hide Step;
    if a == [] {
      assert a + b == b;
    } else {
      var s := a + b;
      assert s[0] == a[0] && s[1..] == a[1..] + b;
      match Step(c, a[0]) {
        case Go(d) =>
          RunSplits(d, a[1..], b);
          assert Run(c, a) == Later(Run(d, a[1..]), 1);
          assert Run(c, s) == Later(Run(d, a[1..] + b), 1);
        case Done =>
        case Bad =>
      }
    }
  }

  /** The first byte's step, seen in the run and in the payload. */
  lemma PayloadFirst(c: Config, s: seq<Byte>)
    requires s != []
    ensures match Step(c, s[0])
            case Go(d) =>
              && Run(c, s) == Later(Run(d, s[1..]), 1)
              && Payload(c, s) == (if c.state == ChunkData then [s[0]] else []) + Payload(d, s[1..])
            case _ => !Run(c, s).Going? && Payload(c, s) == if c.state == ChunkData then [s[0]] else []
  {
    hide Step;
  }

  lemma Regroup(x: seq<Byte>, y: seq<Byte>, z: seq<Byte>)
    ensures x + (y + z) == (x + y) + z
  {
  }

  lemma {:induction false} PayloadSplits(c: Config, a: seq<Byte>, b: seq<Byte>)
    ensures Payload(c, a + b) == Payload(c, a) + if Run(c, a).Going? then Payload(Run(c, a).c, b) else []
    decreases |a|
  {
    hide Step, Payload, Run;
    if a == [] {
      NothingRun(c);
      assert a + b == b;
    } else {
      var s := a + b;
      assert s[0] == a[0] && s[1..] == a[1..] + b;
      PayloadFirst(c, a);
      PayloadFirst(c, s);
      if Step(c, a[0]).Go? {
        var d := Step(c, a[0]).c;
        PayloadSplits(d, a[1..], b);
        Regroup(if c.state == ChunkData then [a[0]] else [], Payload(d, a[1..]),
                if Run(d, a[1..]).Going? then Payload(Run(d, a[1..]).c, b) else []);
      }
    }
  }

  lemma NothingRun(c: Config)
    ensures Run(c, []) == Going(c) && Payload(c, []) == []
  {
  }

  /** Going on from where s[..k] led, up to j. */
  lemma RunResumes(c: Config, s: seq<Byte>, k: nat, j: nat)
    requires k <= j <= |s| && Run(c, s[..k]).Going?
    ensures Run(c, s[..j]) == Later(Run(Run(c, s[..k]).c, s[k..j]), k)
    ensures Payload(c, s[..j]) == Payload(c, s[..k]) + Payload(Run(c, s[..k]).c, s[k..j])
  {
    assert s[..j] == s[..k] + s[k..j];
    RunSplits(c, s[..k], s[k..j]);
    PayloadSplits(c, s[..k], s[k..j]);
  }

  /** Concatenation of the pieces a stream was received in. */
  function Joined(pieces: seq<seq<Byte>>): seq<Byte> {
    if pieces == [] then [] else pieces[0] + Joined(pieces[1..])
  }

  /** Piece by piece, as the filter sees them; it is not called again after an end. */
  function RunPieces(c: Config, pieces: seq<seq<Byte>>): Verdict
    decreases |pieces|
  {
    if pieces == [] then Going(c)
    else
      var v := Run(c, pieces[0]);
      if v.Going? then Later(RunPieces(v.c, pieces[1..]), |pieces[0]|) else v
  }

  lemma {:induction false} CutsDoNotMatter(c: Config, pieces: seq<seq<Byte>>)
    ensures RunPieces(c, pieces) == Run(c, Joined(pieces))
    decreases |pieces|
  {
    if pieces != [] {
      RunSplits(c, pieces[0], Joined(pieces[1..]));
      if Run(c, pieces[0]).Going? { CutsDoNotMatter(Run(c, pieces[0]).c, pieces[1..]); }
    }
  }

  /** Once finished, the bytes after the message are not looked at. */
  lemma FinishedIgnoresRest(c: Config, s: seq<Byte>, more: seq<Byte>)
    requires Run(c, s).Finished?
    ensures Run(c, s + more) == Run(c, s)
    ensures Run(c, s[..Run(c, s).used]) == Run(c, s)
  {
    RunSplits(c, s, more);
    var n := Run(c, s).used;
    assert s == s[..n] + s[n..];
    RunSplits(c, s[..n], s[n..]);
  }

  // ----- how many bytes are still needed

  /** ctx->length as the parser computes it. */
  function Need(c: Config): int {
    match c.state
    case ChunkStart => 3
    case ChunkSize => 1 + (if c.size != 0 then c.size + 4 else 1)
    case ChunkExtension => 1 + c.size + 4
    case ChunkExtensionAlmostDone => 1 + c.size + 4
    case ChunkData => c.size + 4
    case AfterData => 4
    case AfterDataAlmostDone => 4
    case LastChunkExtension => 2
    case LastChunkExtensionAlmostDone => 2
    case Trailer => 1
    case TrailerAlmostDone => 1
    case TrailerHeader => 2
    case TrailerHeaderAlmostDone => 2
  }

  lemma StepNeedsOneLess(c: Config, ch: Byte)
    requires Ok(c)
    ensures Need(c) >= 1
    ensures Step(c, ch).Go? && !Oversize(Step(c, ch).c) ==> Need(Step(c, ch).c) >= Need(c) - 1
    ensures Step(c, ch).Done? ==> Need(c) == 1
  {
  }

  lemma OversizeIsDoomed(c: Config, s: seq<Byte>)
    requires Oversize(c)
    ensures !Run(c, s).Finished? && (s != [] ==> Run(c, s) == Broken)
  {
  }

  /** No shorter continuation finishes. */
  lemma {:induction false} NeedIsLowerBound(c: Config, s: seq<Byte>)
    requires Ok(c) && Run(c, s).Finished?
    ensures Need(c) <= Run(c, s).used
    decreases |s|
  {
    StepNeedsOneLess(c, s[0]);
    if Step(c, s[0]).Go? {
      var d := Step(c, s[0]).c;
      StepKeepsOk(c, s[0]);
      NeedIsLowerBound(d, s[1..]);
      if Oversize(d) { OversizeIsDoomed(d, s[1..]); }
    }
  }

  /** Inside a chunk the next bytes are its data, whatever they are. */
  lemma {:induction false} RunOverData(c: Config, s: seq<Byte>)
    requires Ok(c) && c.state == ChunkData && |s| <= c.size
    ensures Run(c, s) == Going(Settled(Config(ChunkData, c.size - |s|))) && Payload(c, s) == s
    decreases |s|
  {
    if |s| == 1 {
      assert s == [s[0]] && s[1..] == [];
    } else if |s| > 1 {
      RunOverData(Config(ChunkData, c.size - 1), s[1..]);
    }
  }

  /** A shortest continuation: line feeds, any data, and "0" for the last chunk. */
  function Shortest(c: Config): seq<Byte>
    requires Ok(c)
  {
    var ending := [LF, '0' as int, LF, LF];
    match c.state
    case ChunkStart => ending[1..]
    case ChunkSize => if c.size == 0 then [LF, LF] else [LF] + seq(c.size, _ => LF) + ending
    case ChunkExtension => [LF] + seq(c.size, _ => LF) + ending
    case ChunkExtensionAlmostDone => [LF] + seq(c.size, _ => LF) + ending
    case ChunkData => seq(c.size, _ => LF) + ending
    case AfterData => ending
    case AfterDataAlmostDone => ending
    case Trailer => [LF]
    case TrailerAlmostDone => [LF]
    case _ => [LF, LF]
  }

  lemma {:induction false} EndingFinishes(c: Config, s: seq<Byte>)
    requires
      || (c.state == ChunkStart && s == ['0' as int, LF, LF])
      || (c.state in {AfterData, AfterDataAlmostDone} && s == [LF, '0' as int, LF, LF])
      || (c.state in {Trailer, TrailerAlmostDone} && s == [LF])
      || (c.state in {LastChunkExtension, LastChunkExtensionAlmostDone, TrailerHeader, TrailerHeaderAlmostDone} && s == [LF, LF])
      || (c == Config(ChunkSize, 0) && s == [LF, LF])
    ensures Run(c, s) == Finished(|s|)
    decreases |s|
  {
    if |s| > 1 { EndingFinishes(Step(c, s[0]).c, s[1..]); }
  }

  /** Except after an oversize chunk size, exactly Need(c) more bytes can finish the message. */
  lemma NeedIsReached(c: Config)
    requires Ok(c) && !Oversize(c)
    ensures |Shortest(c)| == Need(c) && Run(c, Shortest(c)) == Finished(Need(c))
  {
    hide Payload;
    var s, ending := Shortest(c), [LF, '0' as int, LF, LF];
    if c.state in {ChunkExtension, ChunkExtensionAlmostDone, ChunkData} || (c.state == ChunkSize && c.size != 0) {
      var fill := seq(c.size, _ => LF);
      var d := Config(ChunkData, c.size);
      RunOverData(d, fill);
      RunSplits(d, fill, ending);
      EndingFinishes(Config(AfterData, 0), ending);
      if c.state != ChunkData { assert s[1..] == fill + ending && s[0] == LF; }
    } else {
      EndingFinishes(c, s);
    }
  }

  /** ctx->length is the fewest bytes that can finish, exactly when the size read so far is not
      oversize; after an oversize one nothing can. */
  lemma NeedIsExact(c: Config)
    requires Ok(c)
    ensures !Oversize(c) <==>
              (exists s: seq<Byte> :: |s| == Need(c) && Run(c, s) == Finished(Need(c)))
              && (forall s: seq<Byte> :: Run(c, s).Finished? ==> Need(c) <= Run(c, s).used)
  {
    if Oversize(c) {
      forall s: seq<Byte> ensures !Run(c, s).Finished? { OversizeIsDoomed(c, s); }
    } else {
      NeedIsReached(c);
      forall s: seq<Byte> | Run(c, s).Finished? ensures Need(c) <= Run(c, s).used { NeedIsLowerBound(c, s); }
    }
  }

  /** The parser's early refusal: this size is reported as an error at the end of a buffer. */
  predicate RefusedAtEnd(c: Config) { c.size > MAX_OFF_T - 5 }

  /** A size is refused if and only if the number of bytes to ask for would not fit an off_t. */
  lemma NeedFits(c: Config)
    requires Ok(c)
    ensures RefusedAtEnd(c) <==> !(1 <= Need(c) <= 0x7fff_ffff_ffff_ffff)
  {
  }

  lemma RefusedIsDoomed(c: Config)
    requires Ok(c) && RefusedAtEnd(c)
    ensures Oversize(c)
  {
  }
}
