/** Whole runs of getc and putc up to the first call that leaves the fast path. */
module StdioRuns {
  import opened Stdio

  datatype Call = Getc | Putc(c: int)

  datatype Option<T> = None | Some(value: T)

  // The stream after the run, the values the fast calls returned, and the call
  // that ended the run, if one did
  datatype Result = Result(end: Stream, rets: seq<int>, slow: Option<Outcome>)

  function Step(s: Stream, call: Call, macro: bool): (Stream, Outcome)
    requires s.Valid()
  {
    match call
    case Getc => GetStep(s)
    case Putc(c) => if macro then PutMacroStep(s, c) else PutStep(s, c)
  }

  lemma StepKeepsValid(s: Stream, call: Call, macro: bool)
    requires s.Valid()
    ensures Step(s, call, macro).1.Fast? ==> Step(s, call, macro).0.Valid()
  {}

  function Run(s: Stream, calls: seq<Call>, macro: bool): (res: Result)
    requires s.Valid()
    ensures |res.end.buf| == |s.buf|
    decreases |calls|
  {
    if calls == [] then Result(s, [], None)
    else
      var (t, o) := Step(s, calls[0], macro);
      if o.Fast? then
        var rest := Run(t, calls[1..], macro);
        Result(rest.end, [o.ret] + rest.rets, rest.slow)
      else Result(t, [], Some(o))
  }

  function Puts(cs: seq<int>): (calls: seq<Call>)
    ensures |calls| == |cs| && forall i :: 0 <= i < |cs| ==> calls[i] == Putc(cs[i])
  {
    seq(|cs|, i requires 0 <= i < |cs| => Putc(cs[i]))
  }

  function Gets(n: nat): (calls: seq<Call>)
    ensures |calls| == n && forall i :: 0 <= i < n ==> calls[i] == Getc
  {
    seq(n, _ => Getc)
  }

  function Chars(cs: seq<int>): (bs: seq<Byte>)
    ensures |bs| == |cs| && forall i :: 0 <= i < |cs| ==> bs[i] == CharOf(cs[i])
  {
    seq(|cs|, i requires 0 <= i < |cs| => CharOf(cs[i]))
  }

  // ---------------------------------------------------------------- every run

  lemma StepConserves(s: Stream, call: Call, macro: bool)
    requires s.Valid()
    ensures
      var (t, o) := Step(s, call, macro);
      && t == s.(p := t.p, r := t.r, w := t.w, buf := t.buf) && |t.buf| == |s.buf|
      && t.p == s.p + (if o.Fast? then 1 else 0)
      && t.p + t.r + t.w == s.p + s.r + s.w - (if o.Fast? then 0 else 1)
      && -2147483648 <= t.w <= 2147483647 && -2147483648 <= t.r <= 2147483647
      && (o.Fast? ==> 0 <= o.ret < 256 && if s.wr then call.Putc? else s.rd && call.Getc?)
  {}

  // A run whose calls were all fast leaves a well-formed stream.
  lemma {:induction false} RunKeepsValid(s: Stream, calls: seq<Call>, macro: bool)
    requires s.Valid()
    ensures Run(s, calls, macro).slow.None? ==> Run(s, calls, macro).end.Valid()
    decreases |calls|
  {
    if calls != [] {
      StepKeepsValid(s, calls[0], macro);
      var (t, o) := Step(s, calls[0], macro);
      if o.Fast? {
        RunKeepsValid(t, calls[1..], macro);
      }
    }
  }

  // Over the fast calls p + r + w never changes: each takes one from the counter
  // of its mode and moves p one on.  A run that ends slow made one more decrement.
  // Buffer size, flags and lbfsize stay, and no fast call returns EOF.
  lemma {:induction false} RunConserves(s: Stream, calls: seq<Call>, macro: bool)
    requires s.Valid()
    ensures
      var res := Run(s, calls, macro);
      && |res.rets| <= |calls|
      && (res.slow.None? <==> |res.rets| == |calls|)
      && res.end == s.(p := s.p + |res.rets|, r := res.end.r, w := res.end.w, buf := res.end.buf)
      && res.end.p + res.end.r + res.end.w == s.p + s.r + s.w - (if res.slow.Some? then 1 else 0)
      && 0 <= res.end.p <= |s.buf| == |res.end.buf|
      && -2147483648 <= res.end.w <= 2147483647 && -2147483648 <= res.end.r <= 2147483647
      && (forall i :: 0 <= i < |res.rets| ==> 0 <= res.rets[i] < 256)
    decreases |calls|
  {
    if calls != [] {
      StepConserves(s, calls[0], macro);
      StepKeepsValid(s, calls[0], macro);
      var (t, o) := Step(s, calls[0], macro);
      if o.Fast? {
        RunConserves(t, calls[1..], macro);
      }
    }
  }

  // Only calls of the stream's own mode are fast.
  lemma {:induction false} FastCallsFitMode(s: Stream, calls: seq<Call>, macro: bool, i: nat)
    requires s.Valid() && i < |Run(s, calls, macro).rets|
    ensures i < |calls|
    ensures if s.wr then calls[i].Putc? else s.rd && calls[i].Getc?
    decreases |calls|
  {
    StepConserves(s, calls[0], macro);
    StepKeepsValid(s, calls[0], macro);
    if i > 0 {
      FastCallsFitMode(Step(s, calls[0], macro).0, calls[1..], macro, i - 1);
    }
  }

  // What the header claims, from its documented invariant alone: on a stream in read
  // mode every put takes the slow path, on one in write mode every get, and nothing
  // but the counter changes.
  lemma WrongModeIsSlow(s: Stream, c: int)
    requires s.Documented()
    ensures s.rd ==>
              && s.Storable()
              && PutStep(s, c) == (s.(w := s.w - 1), Swbuf(c))
              && PutMacroStep(s, c) == (s.(w := s.w - 1), Swbuf(c))
    ensures s.wr ==> s.Fetchable() && GetStep(s) == (s.(r := s.r - 1), Srget)
  {}

  // The counters decide it: every put is slow exactly when neither w nor lbfsize
  // leaves room, every get exactly when r does not.
  lemma AllSlowIff(s: Stream)
    requires s.Storable() && s.Fetchable()
    ensures (forall c :: PutStep(s, c).1.Swbuf?) <==> s.w <= 0 && s.w <= s.lbfsize
    ensures (forall c :: PutMacroStep(s, c).1.Swbuf?) <==> s.w <= 0 && s.w <= s.lbfsize
    ensures GetStep(s).1.Srget? <==> s.r <= 0
  {
    assert CharOf(0) != NEWLINE;
    assert PutStep(s, 0).1.Swbuf? <==> s.w <= 0 && s.w <= s.lbfsize;
    assert PutMacroStep(s, 0).1.Swbuf? <==> s.w <= 0 && s.w <= s.lbfsize;
  }

  lemma RunStopsAtWrongMode(s: Stream, calls: seq<Call>, macro: bool, j: nat)
    requires s.Valid() && j < |calls|
    requires if calls[j].Getc? then !s.rd else !s.wr
    ensures |Run(s, calls, macro).rets| <= j
  {
    if j < |Run(s, calls, macro).rets| {
      FastCallsFitMode(s, calls, macro, j);
    }
  }

  // ---------------------------------------------------------------- write runs

  // Where the first newline stands, or the length
  function FirstNewline(cs: seq<int>): (k: nat)
    ensures k <= |cs|
    ensures k < |cs| ==> CharOf(cs[k]) == NEWLINE
    ensures forall i :: 0 <= i < k ==> CharOf(cs[i]) != NEWLINE
  {
    if cs == [] || CharOf(cs[0]) == NEWLINE then 0 else 1 + FirstNewline(cs[1..])
  }

  function Min(a: int, b: int): int {
    if a < b then a else b
  }

  // How many of the characters are put before __swbuf is first called
  function FastPuts(s: Stream, cs: seq<int>): int {
    if s.LineBuffered() then Min(Room(s), FirstNewline(cs)) else Min(Room(s), |cs|)
  }

  lemma FastPutsStep(s: Stream, cs: seq<int>)
    requires s.Valid() && s.wr && cs != []
    ensures
      var (t, o) := PutStep(s, cs[0]);
      if o.Fast? then
        t.Valid() && t.wr && FastPuts(s, cs) == FastPuts(t, cs[1..]) + 1
        && o == Fast(CharOf(cs[0])) && t.p == s.p + 1 && t.buf == s.buf[s.p := CharOf(cs[0])]
      else
        FastPuts(s, cs) == 0 && o == Swbuf(cs[0]) && t.p == s.p && t.buf == s.buf
  {}

  // buf is was, but for the characters cs stored from p on.
  ghost predicate Stored(was: seq<Byte>, p: int, cs: seq<int>, buf: seq<Byte>) {
    && |buf| == |was|
    && 0 <= p <= p + |cs| <= |was|
    && forall i :: 0 <= i < |was| ==> buf[i] == if p <= i < p + |cs| then CharOf(cs[i - p]) else was[i]
  }

  lemma StoreOneMore(was: seq<Byte>, p: nat, c: int, cs: seq<int>, buf: seq<Byte>)
    requires p < |was| && Stored(was[p := CharOf(c)], p + 1, cs, buf)
    ensures Stored(was, p, [c] + cs, buf)
  {}

  lemma StoredParts(was: seq<Byte>, p: int, cs: seq<int>, buf: seq<Byte>)
    requires Stored(was, p, cs, buf)
    ensures buf == was[..p] + Chars(cs) + was[p + |cs|..]
  {}

  lemma PutsRest(cs: seq<int>)
    requires cs != []
    ensures Puts(cs)[0] == Putc(cs[0]) && Puts(cs)[1..] == Puts(cs[1..])
  {}

  lemma HeadAndRest(cs: seq<int>, k: nat)
    requires 0 < k <= |cs|
    ensures cs[..k] == [cs[0]] + cs[1..][..k - 1]
    ensures Chars(cs[..k]) == [CharOf(cs[0])] + Chars(cs[1..][..k - 1])
  {}

  lemma FastPutsBounds(s: Stream, cs: seq<int>)
    requires s.Valid() && s.wr
    ensures 0 <= FastPuts(s, cs) <= |cs| && s.p + FastPuts(s, cs) <= |s.buf|
  {}

  // The run puts exactly that many characters, in order, and hands over the next.
  lemma {:induction false} WriteRunCalls(s: Stream, cs: seq<int>)
    requires s.Valid() && s.wr
    ensures
      var k := FastPuts(s, cs);
      var res := Run(s, Puts(cs), false);
      && 0 <= k <= |cs|
      && res.rets == Chars(cs[..k])
      && res.slow == (if k < |cs| then Some(Swbuf(cs[k])) else None)
    decreases |cs|
  {
    FastPutsBounds(s, cs);
    if cs != [] {
      var k := FastPuts(s, cs);
      var (t, o) := PutStep(s, cs[0]);
      PutsRest(cs);
      FastPutsStep(s, cs);
      if o.Fast? {
        WriteRunCalls(t, cs[1..]);
        HeadAndRest(cs, k);
      }
    }
  }

  // They stand right behind what the buffer held, and nothing else is touched.
  lemma {:induction false} WriteRunBuffer(s: Stream, cs: seq<int>)
    requires s.Valid() && s.wr
    ensures
      var k := FastPuts(s, cs);
      var res := Run(s, Puts(cs), false);
      && 0 <= k <= |cs| && s.p + k <= |s.buf|
      && res.end.p == s.p + k
      && Stored(s.buf, s.p, cs[..k], res.end.buf)
    decreases |cs|
  {
    FastPutsBounds(s, cs);
    if cs != [] {
      var k := FastPuts(s, cs);
      var (t, o) := PutStep(s, cs[0]);
      PutsRest(cs);
      FastPutsStep(s, cs);
      if o.Fast? {
        WriteRunBuffer(t, cs[1..]);
        var end := Run(t, Puts(cs[1..]), false).end;
        assert Run(s, Puts(cs), false).end == end;
        StoreOneMore(s.buf, s.p, cs[0], cs[1..][..k - 1], end.buf);
        HeadAndRest(cs, k);
      }
    }
  }

  function OpenForWriting(buf: seq<Byte>, line: bool): Stream {
    Stream(0, 0, if line then 0 else |buf|, if line then -|buf| else 0, line, false, true, buf)
  }

  // From an empty buffer: __swbuf is first called for character |buf| + 1, or, line
  // buffered, for the first newline if that comes sooner.  Until then base ... p
  // holds the characters put and the counter mirrors p.
  lemma WriteFromEmpty(buf: seq<Byte>, line: bool, cs: seq<int>)
    requires |buf| <= 2147483647
    ensures
      var s := OpenForWriting(buf, line);
      var k := Min(|buf|, if line then FirstNewline(cs) else |cs|);
      s.Valid() &&
      var res := Run(s, Puts(cs), false);
      && |res.rets| == k && res.end.p == k
      && res.end.buf == Chars(cs[..k]) + buf[k..]
      && (k == |cs| ==> res.slow.None? && res.end.w == (if line then -k else |buf| - k))
      && (k < |cs| ==> res.slow == Some(Swbuf(cs[k])) && (k == |buf| || CharOf(cs[k]) == NEWLINE))
  {
    var s := OpenForWriting(buf, line);
    var k := FastPuts(s, cs);
    var res := Run(s, Puts(cs), false);
    WriteRunCalls(s, cs);
    WriteRunBuffer(s, cs);
    StoredParts(buf, 0, cs[..k], res.end.buf);
    RunConserves(s, Puts(cs), false);
    RunKeepsValid(s, Puts(cs), false);
    assert buf[..0] + Chars(cs[..k]) == Chars(cs[..k]);
  }

  // ---------------------------------------------------------------- read runs

  lemma GetsRest(n: nat)
    requires n > 0
    ensures Gets(n)[0] == Getc && Gets(n)[1..] == Gets(n - 1)
  {}

  lemma GetOne(s: Stream)
    requires s.Valid() && s.rd
    ensures
      var (t, o) := GetStep(s);
      if s.r > 0 then
        t == s.(r := s.r - 1, p := s.p + 1) && t.Valid() && s.p < |s.buf| && o == Fast(s.buf[s.p])
      else t == s.(r := s.r - 1) && o == Srget
  {}

  // The characters a read run returns, one by one
  lemma {:induction false} ReadRunAt(s: Stream, n: nat, macro: bool, i: nat)
    requires s.Valid() && s.rd && i < Min(s.r, n)
    ensures i < |Run(s, Gets(n), macro).rets| && s.p + i < |s.buf|
    ensures Run(s, Gets(n), macro).rets[i] == s.buf[s.p + i]
    decreases n
  {
    GetsRest(n);
    GetOne(s);
    if i > 0 {
      ReadRunAt(GetStep(s).0, n - 1, macro, i - 1);
    }
  }

  lemma {:induction false} ReadRunEnd(s: Stream, n: nat, macro: bool)
    requires s.Valid() && s.rd
    ensures
      var k := Min(s.r, n);
      var res := Run(s, Gets(n), macro);
      && |res.rets| == k && res.end.p == s.p + k && res.end.buf == s.buf
      && res.slow == (if s.r < n then Some(Srget) else None)
    decreases n
  {
    if n > 0 {
      GetsRest(n);
      GetOne(s);
      if s.r > 0 {
        ReadRunEnd(GetStep(s).0, n - 1, macro);
      }
    }
  }

  // A read run returns what the buffer holds from p on, in order, and calls
  // __srget for the character after the last one.
  lemma ReadRun(s: Stream, n: nat, macro: bool)
    requires s.Valid() && s.rd
    ensures
      var k := Min(s.r, n);
      var res := Run(s, Gets(n), macro);
      && s.p + k <= |s.buf|
      && res.rets == s.buf[s.p..s.p + k]
      && res.end.p == s.p + k && res.end.buf == s.buf
      && res.slow == (if s.r < n then Some(Srget) else None)
  {
    ReadRunEnd(s, n, macro);
    forall i: nat | i < Min(s.r, n)
      ensures Run(s, Gets(n), macro).rets[i] == s.buf[s.p + i]
    {
      ReadRunAt(s, n, macro, i);
    }
  }

  // What a write run left at base ... p, read back from the base, is what was put,
  // and __srget is called for the character after the last one put.
  lemma WrittenReadsBack(s: Stream, cs: seq<int>, t: Stream, n: nat, macro: bool)
    requires s.Valid() && s.wr && s.p == 0
    requires t.Valid() && t.rd && t.p == 0 && t.r == FastPuts(s, cs)
    requires t.buf == Run(s, Puts(cs), false).end.buf
    ensures 0 <= FastPuts(s, cs) <= |cs|
    ensures Run(t, Gets(n), macro).rets == Chars(cs[..Min(FastPuts(s, cs), n)])
    ensures Run(t, Gets(n), macro).slow.Some? <==> FastPuts(s, cs) < n
  {
    WriteRunCalls(s, cs);
    WriteRunBuffer(s, cs);
    ReadRun(t, n, macro);
    var k := Min(FastPuts(s, cs), n);
    assert t.buf[0..k] == Chars(cs[..k]);
  }

  lemma CharsOfBytes(cs: seq<Byte>)
    ensures Chars(cs) == cs
  {
    forall i | 0 <= i < |cs|
      ensures Chars(cs)[i] == cs[i]
    {
      CharOfIsLowByte(cs[i], cs[i]);
    }
  }

  // Put and get are 8-bit clean: characters, whatever their values, come back as they
  // were put.
  lemma BytesComeBack(s: Stream, cs: seq<Byte>, t: Stream, n: nat, macro: bool)
    requires s.Valid() && s.wr && s.p == 0
    requires t.Valid() && t.rd && t.p == 0 && t.r == FastPuts(s, cs)
    requires t.buf == Run(s, Puts(cs), false).end.buf
    ensures 0 <= FastPuts(s, cs) <= |cs|
    ensures Run(t, Gets(n), macro).rets == cs[..Min(FastPuts(s, cs), n)]
  {
    WrittenReadsBack(s, cs, t, n, macro);
    CharsOfBytes(cs[..Min(FastPuts(s, cs), n)]);
  }

  function OpenForReading(buf: seq<Byte>, r: int): Stream {
    Stream(0, r, 0, 0, false, true, false, buf)
  }

  // From a buffer holding r characters: they are returned from the base on, and
  // __srget is first called for character r + 1.
  lemma ReadFromBase(buf: seq<Byte>, r: nat, n: nat, macro: bool)
    requires r <= |buf| <= 2147483647
    ensures
      var s := OpenForReading(buf, r);
      s.Valid() &&
      var res := Run(s, Gets(n), macro);
      && res.rets == buf[..Min(r, n)]
      && res.slow == (if r < n then Some(Srget) else None)
  {
    ReadRun(OpenForReading(buf, r), n, macro);
  }

  // ---------------------------------------------------------------- inline and macro

  // The call is a newline put line buffered with room left.
  predicate NewlinePut(s: Stream, call: Call) {
    call.Putc? && s.LineBuffered() && Room(s) > 0 && CharOf(call.c) == NEWLINE
  }

  // The two forms differ only there: the macro has already stored the newline at p,
  // and passes '\n' on where the inline form passes its argument.
  lemma FormsAgreeOnStep(s: Stream, call: Call)
    requires s.Valid()
    ensures
      var (t, o) := Step(s, call, false);
      if NewlinePut(s, call) then
        && o == Swbuf(call.c)
        && s.p < |s.buf|
        && Step(s, call, true) == (t.(buf := t.buf[t.p := NEWLINE]), Swbuf(NEWLINE))
      else Step(s, call, true) == (t, o)
  {}

  // Whether the inline run ended on such a newline
  predicate EndedOnNewline(res: Result) {
    && res.slow.Some? && res.slow.value.Swbuf?
    && res.end.LineBuffered()
    && res.end.w + 1 + |res.end.buf| > 0
    && CharOf(res.slow.value.c) == NEWLINE
  }

  lemma {:induction false} FormsAgree(s: Stream, calls: seq<Call>)
    requires s.Valid()
    ensures
      var i, m := Run(s, calls, false), Run(s, calls, true);
      if EndedOnNewline(i) then
        && 0 <= i.end.p < |i.end.buf|
        && m == Result(i.end.(buf := i.end.buf[i.end.p := NEWLINE]), i.rets, Some(Swbuf(NEWLINE)))
      else m == i
    decreases |calls|
  {
    if calls != [] {
      var (t, o) := Step(s, calls[0], false);
      FormsAgreeOnStep(s, calls[0]);
      StepKeepsValid(s, calls[0], false);
      if o.Fast? {
        FormsAgree(t, calls[1..]);
      }
    }
  }

  // The character handed to __swbuf is always the same; the int is, exactly when it
  // is not a newline in disguise.
  lemma HandedOverAlike(s: Stream, calls: seq<Call>)
    requires s.Valid()
    requires Run(s, calls, false).slow.Some? && Run(s, calls, false).slow.value.Swbuf?
    ensures
      var i, m := Run(s, calls, false), Run(s, calls, true);
      && m.slow.Some? && m.slow.value.Swbuf?
      && CharOf(m.slow.value.c) == CharOf(i.slow.value.c)
      && (m.slow == i.slow <==> (EndedOnNewline(i) ==> i.slow.value.c == NEWLINE))
  {
    FormsAgree(s, calls);
  }

  lemma {:induction false} PutsKeepR(s: Stream, cs: seq<int>)
    requires s.Valid()
    ensures Run(s, Puts(cs), false).end.r == s.r
    decreases |cs|
  {
    if cs != [] {
      PutsRest(cs);
      StepKeepsValid(s, Putc(cs[0]), false);
      var (t, o) := PutStep(s, cs[0]);
      if o.Fast? {
        PutsKeepR(t, cs[1..]);
      }
    }
  }

  // The int c is a newline only once converted to a character.
  predicate DisguisedNewline(c: int) {
    c != NEWLINE && CharOf(c) == NEWLINE
  }

  // Said before the run: putting cs on a writing stream, both forms hand the same int
  // over exactly unless the first character that is not put fast is such a newline,
  // line buffered and with room left for it.
  lemma SameIntHandedOverIff(s: Stream, cs: seq<int>)
    requires s.Valid() && s.wr
    ensures 0 <= FastPuts(s, cs) <= |cs|
    ensures
      var k := FastPuts(s, cs);
      Run(s, Puts(cs), true).slow == Run(s, Puts(cs), false).slow <==>
      !(k < |cs| && s.LineBuffered() && k < Room(s) && DisguisedNewline(cs[k]))
  {
    var i := Run(s, Puts(cs), false);
    WriteRunCalls(s, cs);
    WriteRunBuffer(s, cs);
    RunConserves(s, Puts(cs), false);
    PutsKeepR(s, cs);
    FormsAgree(s, Puts(cs));
  }

  // Putting 266 on an empty line-buffered stream of one byte: the inline form hands
  // 266 over, the macro 10.
  lemma FormsHandOverDifferently()
    ensures
      var s := OpenForWriting([0], true);
      && s.Valid()
      && Run(s, Puts([266]), false).slow == Some(Swbuf(266))
      && Run(s, Puts([266]), true).slow == Some(Swbuf(10))
  {
    PutsRest([266]);
  }
}
