/** Replaying an append-only file: Aof::Replay of server/aof.cpp, lines 773 to 847. */
module Replay {
  import opened Bytes
  import Resp

  type Command = Resp.Command
  type Parsed = Resp.Parsed

  /** A parser whose complete requests are not empty and lie within the input. */
  type Parser = p: bytes -> Parsed
    | forall input :: p(input).Complete? ==> 0 < p(input).consumed <= |input|
    witness (input: bytes) => Resp.Incomplete

  /**
   * What replay is run with: the wire format, which commands the parser can read back, the effect of a
   * command on the database (or its rejection), and the largest command replay accepts.
   */
  datatype Machine<!Db> = Machine(
    parse: Parser,
    encode: Command -> bytes,
    readable: Command -> bool,
    exec: (Db, Command) -> Option<Db>,
    limit: nat)

  /** The parser reads printed commands back, and later bytes never change a verdict. */
  ghost predicate Sound<Db>(m: Machine<Db>) {
    && (forall c :: m.readable(c) ==> m.parse(m.encode(c)) == Resp.Complete(c, |m.encode(c)|))
    && (forall input, more :: !m.parse(input).Incomplete? ==> m.parse(input + more) == m.parse(input))
    && (forall input, more :: m.parse(input).Incomplete? && m.parse(input + more).Complete? ==>
          m.parse(input + more).consumed > |input|)
    && m.parse([]).Incomplete?
  }

  /** A database and the number of bytes the file keeps; the rest is an incomplete tail, cut off. */
  datatype Recovered<Db> = Recovered(db: Db, kept: nat)

  function Shift<Db>(n: nat, r: Option<Recovered<Db>>): Option<Recovered<Db>> {
    match r
    case None => None
    case Some(x) => Some(Recovered(x.db, n + x.kept))
  }

  lemma ShiftShift<Db>(a: nat, b: nat, r: Option<Recovered<Db>>)
    ensures Shift(a, Shift(b, r)) == Shift(a + b, r)
  {
  }

  /** What replay makes of a whole file. */
  function Recover<Db>(m: Machine<Db>, db: Db, input: bytes): Option<Recovered<Db>>
    decreases |input|
  {
    match m.parse(input)
    case Invalid => None
    case Incomplete => if |input| > m.limit then None else Some(Recovered(db, 0))
    case Complete(command, n) =>
      if n > m.limit then None
      else
        match m.exec(db, command)
        case None => None
        case Some(next) => Shift(n, Recover(m, next, input[n..]))
  }

  // ----- reading in chunks -----

  /** One verdict on the front of the file settles what becomes of all of it. */
  lemma FrontDecides<Db>(m: Machine<Db>, db: Db, front: bytes, rest: bytes)
    requires Sound(m) && !m.parse(front).Incomplete?
    ensures m.parse(front).Invalid? ==> Recover(m, db, front + rest) == None
    ensures m.parse(front).Complete? ==>
      var n := m.parse(front).consumed;
      var next := m.exec(db, m.parse(front).command);
      Recover(m, db, front + rest) ==
        if n > m.limit || next.None? then None else Shift(n, Recover(m, next.value, front[n..] + rest))
  {
    if m.parse(front).Complete? {
      var n := m.parse(front).consumed;
      assert (front + rest)[n..] == front[n..] + rest;
    }
  }

  /** An undecided front that is already over the limit is refused, whatever follows. */
  lemma OversizedFront<Db>(m: Machine<Db>, db: Db, front: bytes, rest: bytes)
    requires Sound(m) && m.parse(front).Incomplete? && |front| > m.limit
    ensures Recover(m, db, front + rest) == None
  {
  }

  /** A buffer from which no further command can be taken yet. */
  predicate Drained<Db>(m: Machine<Db>, buffer: bytes) {
    m.parse(buffer).Incomplete? && |buffer| <= m.limit
  }

  /** Takes every complete command off the buffer; stops at a rejected one. */
  method Drain<Db>(m: Machine<Db>, start: Db, input: bytes, ghost rest: bytes)
    returns (ok: bool, db: Db, buffer: bytes, taken: nat)
    requires Sound(m)
    ensures !ok ==> Recover(m, start, input + rest) == None
    ensures ok ==>
      Drained(m, buffer) && Recover(m, start, input + rest) == Shift(taken, Recover(m, db, buffer + rest))
  {
    ok, db, buffer, taken := true, start, input, 0;
    ghost var goal := Recover(m, start, input + rest);
    while true
      invariant goal == Shift(taken, Recover(m, db, buffer + rest))
      decreases |buffer|
    {
      var parsed := m.parse(buffer);
      if parsed.Incomplete? {
        break;
      }
      FrontDecides(m, db, buffer, rest);
      if parsed.Invalid? || parsed.consumed > m.limit {
        return false, db, buffer, taken;
      }
      var next := m.exec(db, parsed.command);
      if next.None? {
        return false, db, buffer, taken;
      }
      ShiftShift(taken, parsed.consumed, Recover(m, next.value, buffer[parsed.consumed..] + rest));
      db, buffer, taken := next.value, buffer[parsed.consumed..], taken + parsed.consumed;
    }
    if |buffer| > m.limit {
      OversizedFront(m, db, buffer, rest);
      return false, db, buffer, taken;
    }
  }

  lemma Reassociate(buffer: bytes, chunks: seq<bytes>, i: nat)
    requires i < |chunks|
    ensures buffer + Flatten(chunks[i..]) == (buffer + chunks[i]) + Flatten(chunks[i + 1..])
  {
    FlattenCons(chunks, i);
  }

  lemma DrainedEnd<Db>(m: Machine<Db>, db: Db, buffer: bytes, chunks: seq<bytes>)
    requires Drained(m, buffer)
    ensures Recover(m, db, buffer + Flatten(chunks[|chunks|..])) == Some(Recovered(db, 0))
  {
    assert buffer + Flatten(chunks[|chunks|..]) == buffer;
  }

  /** Adds one chunk to the buffer and takes the commands it completes. */
  method Feed<Db>(m: Machine<Db>, start: Db, input: bytes, before: nat, chunks: seq<bytes>, i: nat)
    returns (ok: bool, db: Db, buffer: bytes, complete: nat)
    requires Sound(m) && i < |chunks|
    ensures !ok ==> Shift(before, Recover(m, start, input + Flatten(chunks[i..]))) == None
    ensures ok ==> Drained(m, buffer)
    ensures ok ==>
      Shift(before, Recover(m, start, input + Flatten(chunks[i..]))) ==
      Shift(complete, Recover(m, db, buffer + Flatten(chunks[i + 1..])))
  {
    Reassociate(input, chunks, i);
    ghost var rest := Flatten(chunks[i + 1..]);
    var taken;
    ok, db, buffer, taken := Drain(m, start, input + chunks[i], rest);
    ShiftShift(before, taken, Recover(m, db, buffer + rest));
    complete := before + taken;
  }

  lemma StartOfFile<Db>(m: Machine<Db>, db: Db, chunks: seq<bytes>)
    ensures Recover(m, db, Flatten(chunks)) == Shift(0, Recover(m, db, [] + Flatten(chunks[0..])))
  {
    assert chunks[0..] == chunks && [] + Flatten(chunks) == Flatten(chunks);
  }

  /**
   * The read loop. Whatever chunks the file arrives in, the outcome is that of the whole file: the same
   * refusal, or the same database and the same cut.
   */
  method Replay<Db>(m: Machine<Db>, start: Db, chunks: seq<bytes>) returns (r: Option<Recovered<Db>>)
    requires Sound(m)
    ensures r == Recover(m, start, Flatten(chunks))
  {
    var db, buffer, complete := start, [], 0;
    ghost var goal := Recover(m, start, Flatten(chunks));
    StartOfFile(m, start, chunks);
    for i := 0 to |chunks|
      invariant Drained(m, buffer)
      invariant goal == Shift(complete, Recover(m, db, buffer + Flatten(chunks[i..])))
    {
      var ok;
      ok, db, buffer, complete := Feed(m, db, buffer, complete, chunks, i);
      if !ok {
        return None;
      }
    }
    DrainedEnd(m, db, buffer, chunks);
    r := Some(Recovered(db, complete));
  }

  // ----- logs of printed commands -----

  function EncodeAll<Db>(m: Machine<Db>, cs: seq<Command>): bytes {
    if cs == [] then [] else m.encode(cs[0]) + EncodeAll(m, cs[1..])
  }

  lemma {:induction false} EncodeAllConcat<Db>(m: Machine<Db>, a: seq<Command>, b: seq<Command>)
    ensures EncodeAll(m, a + b) == EncodeAll(m, a) + EncodeAll(m, b)
  {
    if a == [] {
      assert a + b == b;
    } else {
      assert (a + b)[1..] == a[1..] + b;
      EncodeAllConcat(m, a[1..], b);
    }
  }

  /** Executes commands in order; a rejected one rejects the whole. */
  function Run<Db>(m: Machine<Db>, db: Db, cs: seq<Command>): Option<Db> {
    if cs == [] then Some(db)
    else
      match m.exec(db, cs[0])
      case None => None
      case Some(next) => Run(m, next, cs[1..])
  }

  lemma {:induction false} RunConcat<Db>(m: Machine<Db>, db: Db, a: seq<Command>, b: seq<Command>)
    ensures Run(m, db, a + b) == if Run(m, db, a).None? then None else Run(m, Run(m, db, a).value, b)
    decreases |a|
  {
    if a == [] {
      assert a + b == b;
    } else {
      assert (a + b)[0] == a[0] && (a + b)[1..] == a[1..] + b;
      var next := m.exec(db, a[0]);
      if next.Some? {
        RunConcat(m, next.value, a[1..], b);
      }
    }
  }

  /** A command that replay can read back: few enough elements, and not over the byte limit. */
  predicate Fits<Db>(m: Machine<Db>, c: Command) {
    m.readable(c) && |m.encode(c)| <= m.limit
  }

  predicate AllFit<Db>(m: Machine<Db>, cs: seq<Command>) {
    forall i :: 0 <= i < |cs| ==> Fits(m, cs[i])
  }

  lemma AllFitCons<Db>(m: Machine<Db>, cs: seq<Command>)
    requires cs != []
    ensures AllFit(m, cs) <==> Fits(m, cs[0]) && AllFit(m, cs[1..])
  {
    assert cs == [cs[0]] + cs[1..];
  }

  /**
   * A command whose text the parser either reads back or refuses. For the server's own format that is every
   * command whose text has a length that is a `size_t`.
   */
  predicate Loggable<Db>(m: Machine<Db>, c: Command) {
    m.readable(c) || m.parse(m.encode(c)).Invalid?
  }

  predicate AllLoggable<Db>(m: Machine<Db>, cs: seq<Command>) {
    forall i :: 0 <= i < |cs| ==> Loggable(m, cs[i])
  }

  lemma RecoverOne<Db>(m: Machine<Db>, db: Db, c: Command, rest: bytes)
    requires Sound(m) && Loggable(m, c)
    ensures Recover(m, db, m.encode(c) + rest) ==
      if !Fits(m, c) || m.exec(db, c).None? then None
      else Shift(|m.encode(c)|, Recover(m, m.exec(db, c).value, rest))
  {
    FrontDecides(m, db, m.encode(c), rest);
    assert m.encode(c)[|m.encode(c)|..] + rest == rest;
  }

  /** What becomes of a file of printed commands with something after them. */
  function Outcome<Db>(m: Machine<Db>, db: Db, cs: seq<Command>, rest: bytes): Option<Recovered<Db>> {
    if AllFit(m, cs) && Run(m, db, cs).Some? then Shift(|EncodeAll(m, cs)|, Recover(m, Run(m, db, cs).value, rest))
      else None
  }

  lemma OutcomeCons<Db>(m: Machine<Db>, db: Db, cs: seq<Command>, rest: bytes)
    requires cs != []
    ensures Outcome(m, db, cs, rest) ==
      if !Fits(m, cs[0]) || m.exec(db, cs[0]).None? then None
      else Shift(|m.encode(cs[0])|, Outcome(m, m.exec(db, cs[0]).value, cs[1..], rest))
  {
    AllFitCons(m, cs);
  }

  lemma {:induction false} RecoverThen<Db>(m: Machine<Db>, db: Db, cs: seq<Command>, rest: bytes)
    requires Sound(m) && AllLoggable(m, cs)
    ensures Recover(m, db, EncodeAll(m, cs) + rest) == Outcome(m, db, cs, rest)
    decreases |cs|
  {
    if cs == [] {
      assert EncodeAll(m, cs) + rest == rest;
    } else {
      OutcomeCons(m, db, cs, rest);
      var first, tail := m.encode(cs[0]), EncodeAll(m, cs[1..]);
      RecoverOne(m, db, cs[0], tail + rest);
      assert (first + tail) + rest == first + (tail + rest);
      var next := m.exec(db, cs[0]);
      if Fits(m, cs[0]) && next.Some? {
        RecoverThen(m, next.value, cs[1..], rest);
      }
    }
  }

  /**
   * A file of printed commands is recovered, in full, exactly when every command fits the limits of
   * replay and executes. Appending a command checks neither limit.
   */
  lemma RecoverExact<Db>(m: Machine<Db>, db: Db, cs: seq<Command>)
    requires Sound(m) && AllLoggable(m, cs)
    ensures Recover(m, db, EncodeAll(m, cs)) ==
      if AllFit(m, cs) && Run(m, db, cs).Some?
      then Some(Recovered(Run(m, db, cs).value, |EncodeAll(m, cs)|)) else None
  {
    RecoverThen(m, db, cs, []);
    assert EncodeAll(m, cs) + [] == EncodeAll(m, cs);
  }

  /** How many whole commands the first `n` bytes of a log hold. */
  function WholeCommands<Db>(m: Machine<Db>, cs: seq<Command>, n: nat): (k: nat)
    ensures k <= |cs|
  {
    if cs == [] || n < |m.encode(cs[0])| then 0 else 1 + WholeCommands(m, cs[1..], n - |m.encode(cs[0])|)
  }

  lemma {:induction false} WholeCommandsCover<Db>(m: Machine<Db>, cs: seq<Command>, a: nat, n: nat)
    requires a <= |cs| && |EncodeAll(m, cs[..a])| <= n
    ensures a <= WholeCommands(m, cs, n)
    decreases a
  {
    if a > 0 {
      assert cs[..a][1..] == cs[1..][..a - 1];
      WholeCommandsCover(m, cs[1..], a - 1, n - |m.encode(cs[0])|);
    }
  }

  /** A file that was recovered in full stays recovered when more bytes are appended to it. */
  lemma {:induction false} RecoverAppend<Db>(m: Machine<Db>, db: Db, base: bytes, more: bytes)
    requires Sound(m) && Recover(m, db, base).Some? && Recover(m, db, base).value.kept == |base|
    ensures Recover(m, db, base + more) == Shift(|base|, Recover(m, Recover(m, db, base).value.db, more))
    decreases |base|
  {
    if base == [] {
      assert base + more == more;
    } else {
      FrontDecides(m, db, base, more);
      var n, next := m.parse(base).consumed, m.exec(db, m.parse(base).command).value;
      RecoverAppend(m, next, base[n..], more);
    }
  }

  /** A recovered base followed by printed commands: the commands decide. */
  lemma RecoverLog<Db>(m: Machine<Db>, empty: Db, base: bytes, state: Db, cs: seq<Command>)
    requires Sound(m) && Recover(m, empty, base) == Some(Recovered(state, |base|))
    requires AllLoggable(m, cs) && Run(m, state, cs).Some?
    ensures Recover(m, empty, base + EncodeAll(m, cs)) ==
      if AllFit(m, cs) then Some(Recovered(Run(m, state, cs).value, |base + EncodeAll(m, cs)|)) else None
  {
    RecoverExact(m, state, cs);
    RecoverAppend(m, empty, base, EncodeAll(m, cs));
  }

  /** The part of a command that the first `n` bytes of a log end in. */
  function PartCommand<Db>(m: Machine<Db>, cs: seq<Command>, n: nat): bytes
    requires n <= |EncodeAll(m, cs)|
  {
    if cs == [] then []
    else if n < |m.encode(cs[0])| then m.encode(cs[0])[..n]
    else PartCommand(m, cs[1..], n - |m.encode(cs[0])|)
  }

  lemma TakeConcat(a: bytes, b: bytes, n: nat)
    requires |a| <= n <= |a| + |b|
    ensures (a + b)[..n] == a + b[..n - |a|]
  {
  }

  lemma EncodeTake<Db>(m: Machine<Db>, cs: seq<Command>, k: nat)
    requires cs != [] && k < |cs|
    ensures EncodeAll(m, cs[..1 + k]) == m.encode(cs[0]) + EncodeAll(m, cs[1..][..k])
  {
    assert cs[..1 + k][1..] == cs[1..][..k];
  }

  lemma {:induction false} SplitLog<Db>(m: Machine<Db>, cs: seq<Command>, n: nat)
    requires n <= |EncodeAll(m, cs)|
    ensures EncodeAll(m, cs)[..n] == EncodeAll(m, cs[..WholeCommands(m, cs, n)]) + PartCommand(m, cs, n)
    decreases |cs|
  {
    if cs != [] {
      var first, rest := m.encode(cs[0]), EncodeAll(m, cs[1..]);
      if n < |first| {
        assert (first + rest)[..n] == first[..n];
      } else {
        SplitLog(m, cs[1..], n - |first|);
        TakeConcat(first, rest, n);
        EncodeTake(m, cs, WholeCommands(m, cs[1..], n - |first|));
      }
    }
  }

  /** An incomplete tail that replay cuts off instead of refusing the file. */
  predicate Tolerated<Db>(m: Machine<Db>, part: bytes) {
    m.parse(part).Incomplete? && |part| <= m.limit
  }

  /** A part of a command is never taken for a command. */
  lemma PartVerdict<Db>(m: Machine<Db>, db: Db, c: Command, n: nat)
    requires Sound(m) && Loggable(m, c) && n < |m.encode(c)|
    ensures Recover(m, db, m.encode(c)[..n]) == if Tolerated(m, m.encode(c)[..n]) then Some(Recovered(db, 0)) else None
    ensures Fits(m, c) ==> Tolerated(m, m.encode(c)[..n])
  {
    var whole, part := m.encode(c), m.encode(c)[..n];
    assert part + whole[n..] == whole;
    assert !m.parse(part).Incomplete? ==> m.parse(part) == m.parse(whole);
  }

  lemma {:induction false} PartIsLost<Db>(m: Machine<Db>, db: Db, cs: seq<Command>, n: nat)
    requires Sound(m) && n <= |EncodeAll(m, cs)| && AllLoggable(m, cs)
    ensures var part := PartCommand(m, cs, n); Recover(m, db, part) == if Tolerated(m, part) then Some(Recovered(db, 0))
      else None
    ensures AllFit(m, cs) ==> Tolerated(m, PartCommand(m, cs, n))
    decreases |cs|
  {
    if cs != [] {
      AllFitCons(m, cs);
      if n < |m.encode(cs[0])| {
        PartVerdict(m, db, cs[0], n);
      } else {
        PartIsLost(m, db, cs[1..], n - |m.encode(cs[0])|);
      }
    }
  }

  lemma RunTake<Db>(m: Machine<Db>, db: Db, cs: seq<Command>, k: nat)
    requires k <= |cs| && Run(m, db, cs).Some?
    ensures Run(m, db, cs[..k]).Some?
  {
    assert cs == cs[..k] + cs[k..];
    RunConcat(m, db, cs[..k], cs[k..]);
  }

  /** What becomes of the first `n` bytes of a log. */
  function PrefixOutcome<Db>(m: Machine<Db>, db: Db, cs: seq<Command>, n: nat): Option<Recovered<Db>>
    requires n <= |EncodeAll(m, cs)|
  {
    var whole := cs[..WholeCommands(m, cs, n)];
    if AllFit(m, whole) && Run(m, db, whole).Some? && Tolerated(m, PartCommand(m, cs, n))
    then Some(Recovered(Run(m, db, whole).value, |EncodeAll(m, whole)|))
    else None
  }

  /**
   * Every byte prefix of a log: it recovers to the state after the whole commands it holds exactly when
   * these fit the limits of replay and what is left of the next command is not already refused.
   */
  lemma RecoverPrefix<Db>(m: Machine<Db>, db: Db, cs: seq<Command>, n: nat)
    requires Sound(m) && n <= |EncodeAll(m, cs)| && AllLoggable(m, cs) && Run(m, db, cs).Some?
    ensures Run(m, db, cs[..WholeCommands(m, cs, n)]).Some?
    ensures Recover(m, db, EncodeAll(m, cs)[..n]) == PrefixOutcome(m, db, cs, n)
    ensures AllFit(m, cs) ==> PrefixOutcome(m, db, cs, n).Some?
  {
    var k := WholeCommands(m, cs, n);
    RunTake(m, db, cs, k);
    SplitLog(m, cs, n);
    PartIsLost(m, Run(m, db, cs[..k]).value, cs, n);
    RecoverThen(m, db, cs[..k], PartCommand(m, cs, n));
  }

  // ----- the protocol requests of this server -----

  /** A logged request is an array: anything else at the front of the file is refused. */
  function ParseLogged(input: bytes): Parsed {
    if input != [] && input[0] != Resp.STAR then Resp.Invalid else Resp.Parse(input)
  }

  function RespMachine<Db>(exec: (Db, Command) -> Option<Db>, limit: nat): Machine<Db> {
    Machine(ParseLogged, Resp.Encode, Resp.Parsable, exec, limit)
  }

  lemma LoggedStable(input: bytes, more: bytes)
    requires !ParseLogged(input).Incomplete?
    ensures ParseLogged(input + more) == ParseLogged(input)
  {
    if input[0] == Resp.STAR {
      Resp.VerdictStable(input, more);
    }
  }

  lemma LoggedNeedsMore(input: bytes, more: bytes)
    requires ParseLogged(input).Incomplete? && ParseLogged(input + more).Complete?
    ensures ParseLogged(input + more).consumed > |input|
  {
    Resp.IncompleteNeedsMore(input, more);
  }

  lemma LoggedReadsBack(c: Command)
    requires Resp.Parsable(c)
    ensures ParseLogged(Resp.Encode(c)) == Resp.Complete(c, |Resp.Encode(c)|)
  {
    Resp.EncodeStarts(c);
    assert Resp.Encode(c) + [] == Resp.Encode(c);
    Resp.CommandRoundTrip(c, []);
  }

  /** Every command whose text has a length that is a `size_t` is read back or refused. */
  lemma RespLoggable<Db>(exec: (Db, Command) -> Option<Db>, limit: nat, c: Command)
    requires |Resp.Encode(c)| <= SIZE_MAX
    ensures Loggable(RespMachine(exec, limit), c)
  {
    Resp.EncodeStarts(c);
    assert Resp.Encode(c) + [] == Resp.Encode(c);
    Resp.CommandRoundTrip(c, []);
  }

  /** Replay of the server's own requests has every property the recovery theorems ask for. */
  lemma RespSound<Db>(exec: (Db, Command) -> Option<Db>, limit: nat)
    ensures Sound(RespMachine(exec, limit))
  {
    forall input, more | !ParseLogged(input).Incomplete? ensures ParseLogged(input + more) == ParseLogged(input) {
      LoggedStable(input, more);
    }
    forall input, more | ParseLogged(input).Incomplete? && ParseLogged(input + more).Complete?
      ensures ParseLogged(input + more).consumed > |input|
    {
      LoggedNeedsMore(input, more);
    }
    forall c | Resp.Parsable(c) ensures ParseLogged(Resp.Encode(c)) == Resp.Complete(c, |Resp.Encode(c)|) {
      LoggedReadsBack(c);
    }
  }
}
