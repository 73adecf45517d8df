/** One round of the producer (test/sinhvien.c), the taps (test/voinuoc.c) and their parent
    (test/main.c): three named semaphores, one shared output file, every interleaving. */
module TapProtocol {
  import opened Common
  import opened Taps

  // ---------------------------------------------------------------------------
  // Text

  predicate IsNumeral(c: char) { '0' <= c <= '9' }

  function DigitValue(c: char): int
    requires IsNumeral(c)
    ensures 0 <= DigitValue(c) <= 9
  {
    c as int - '0' as int
  }

  /** The number written by a digit string, continuing from `v`. */
  function ValueFrom(v: nat, s: string): nat
    requires forall i | 0 <= i < |s| :: IsNumeral(s[i])
    decreases |s|
  {
    if s == [] then v else ValueFrom(10 * v + DigitValue(s[0]), s[1..])
  }

  /** What the taps' reading loop takes from the file at `pos`: digits up to the first other
      character, which is consumed too, or up to the end of the file. */
  function ReadVolume(file: string, pos: nat, v: nat): (r: (nat, nat))
    requires pos <= |file|
    ensures pos <= r.1 <= |file|
    decreases |file| - pos
  {
    if pos == |file| then (v, pos)
    else if IsNumeral(file[pos]) then ReadVolume(file, pos + 1, 10 * v + DigitValue(file[pos]))
    else (v, pos + 1)
  }

  /** A volume as the producer finds it: digits that fit its buffer and write a positive number. */
  predicate IsToken(s: string) {
    && 0 < |s| <= 9
    && (forall i | 0 <= i < |s| :: IsNumeral(s[i]))
    && ValueFrom(0, s) > 0
  }

  type Token = s: string | IsToken(s) witness "1"

  function TokenValue(token: Token): (v: nat)
    ensures v > 0
  {
    ValueFrom(0, token)
  }

  function Label(t: Tap): string { if t == One then "1 " else "2 " }

  /** Writing at a position within the file or at its end. */
  function WriteText(file: string, pos: nat, text: string): string
    requires pos <= |file|
  {
    file[..pos] + text + (if pos + |text| <= |file| then file[pos + |text|..] else [])
  }

  lemma {:induction false} ReadToken(file: string, pos: nat, v: nat, token: string)
    requires forall i | 0 <= i < |token| :: IsNumeral(token[i])
    requires pos + |token| < |file| && file[pos..pos + |token|] == token && file[pos + |token|] == ' '
    ensures ReadVolume(file, pos, v) == (ValueFrom(v, token), pos + |token| + 1)
    decreases |token|
  {
    if token != [] {
      assert file[pos] == token[0];
      assert file[pos + 1..pos + 1 + |token[1..]|] == token[1..];
      ReadToken(file, pos + 1, 10 * v + DigitValue(token[0]), token[1..]);
    }
  }

  // ---------------------------------------------------------------------------
  // The three programs as steps

  datatype MainPc = MStart | MStarted | MJoined
  datatype ProducerPc = PWait | PWrite | PSignal | PLast | PDone
  datatype TapsPc = TSeek | TWait | TRead | TPour | TSignal | TNewline | TFinal | TDone

  /** `sent` counts the producer's signals for volumes, `taken` the taps' completed waits and
      `acked` their signals back; `late` records that the taps looked for the end of the file only
      after the first volume was written. */
  datatype State = State(
    main: int, sinhvien: int, voinuoc: int, file: string,
    m: MainPc, p: ProducerPc, sent: nat,
    t: TapsPc, pos: nat, taken: nat, acked: nat, volume: nat, v1: int, v2: int, taps: seq<Tap>, late: bool)

  datatype Step = MainWait | ProducerWait | ProducerWrite | ProducerSignal | ProducerLast
                | TapsSeek | TapsWait | TapsRead | TapsPour | TapsSignal | TapsNewline | TapsFinal | MainJoin

  function Initial(base: string): State {
    State(1, 0, 1, base, MStart, PWait, 0, TSeek, 0, 0, 0, 0, 0, 0, [], false)
  }

  /** Which steps can be taken: Wait needs a positive semaphore, Join needs both children done. */
  predicate Enabled(s: State, tokens: seq<Token>, step: Step) {
    match step
    case MainWait => s.m == MStart && s.main > 0
    case ProducerWait => s.m == MStarted && s.p == PWait && s.voinuoc > 0
    case ProducerWrite => s.p == PWrite && s.sent < |tokens|
    case ProducerSignal => s.p == PSignal
    case ProducerLast => s.p == PLast
    case TapsSeek => s.m == MStarted && s.t == TSeek
    case TapsWait => s.t == TWait && s.sinhvien > 0
    case TapsRead => s.t == TRead && s.pos <= |s.file|
    case TapsPour => s.t == TPour && s.pos <= |s.file|
    case TapsSignal => s.t == TSignal
    case TapsNewline => s.t == TNewline && s.pos <= |s.file|
    case TapsFinal => s.t == TFinal
    case MainJoin => s.m == MStarted && s.p == PDone && s.t == TDone
  }

  /** Has any volume been written? */
  predicate Wrote(s: State) { s.sent > 0 || s.p == PSignal }

  function Next(s: State, tokens: seq<Token>, step: Step): State
    requires Enabled(s, tokens, step)
  {
    match step
    case MainWait => s.(main := s.main - 1, m := MStarted)
    case ProducerWait => s.(voinuoc := s.voinuoc - 1, p := PWrite)
    case ProducerWrite => s.(file := s.file + tokens[s.sent] + " ", p := PSignal)
    case ProducerSignal =>
      s.(sinhvien := s.sinhvien + 1, sent := s.sent + 1, p := if s.sent + 1 < |tokens| then PWait else PLast)
    case ProducerLast => s.(sinhvien := s.sinhvien + 1, p := PDone)
    case TapsSeek => s.(pos := |s.file|, t := TWait, late := Wrote(s))
    case TapsWait => s.(sinhvien := s.sinhvien - 1, taken := s.taken + 1, t := TRead)
    case TapsRead =>
      var (v, pos) := ReadVolume(s.file, s.pos, 0);
      s.(volume := v, pos := pos, t := if v == 0 then TNewline else TPour)
    case TapsPour =>
      var (tap, v1, v2) := Poured(s.v1, s.v2, s.volume);
      s.(file := WriteText(s.file, s.pos, Label(tap)), pos := s.pos + 2, v1 := v1, v2 := v2, taps := s.taps + [tap],
         t := TSignal)
    case TapsSignal => s.(voinuoc := s.voinuoc + 1, acked := s.acked + 1, t := TWait)
    case TapsNewline => s.(file := WriteText(s.file, s.pos, "\n"), pos := s.pos + 1, t := TFinal)
    case TapsFinal => s.(main := s.main + 1, t := TDone)
    case MainJoin => s.(m := MJoined)
  }

  /** The state after a sequence of steps, if each could be taken in turn: one interleaving. */
  function After(start: State, tokens: seq<Token>, steps: seq<Step>): Option<State> {
    if steps == [] then Some(start)
    else
      var before := After(start, tokens, steps[..|steps| - 1]);
      if before.Some? && Enabled(before.value, tokens, steps[|steps| - 1])
      then Some(Next(before.value, tokens, steps[|steps| - 1]))
      else None
  }

  // ---------------------------------------------------------------------------
  // Counting signals

  predicate ProducerInside(s: State) { s.p == PWrite || s.p == PSignal }

  predicate TapsInside(s: State) { s.t == TRead || s.t == TPour || s.t == TSignal }

  /** The taps have left the loop. */
  predicate TapsOut(s: State) { s.t == TNewline || s.t == TFinal || s.t == TDone }

  /** Each semaphore counts the signals minus the waits, and the program counters say how far
      each process has come. */
  ghost predicate Counted(s: State, tokens: seq<Token>) {
    && s.voinuoc == 1 + s.acked - s.sent - Flag(ProducerInside(s)) && s.voinuoc >= 0
    && s.sinhvien == s.sent + Flag(s.p == PDone) - s.taken && s.sinhvien >= 0
    && s.main == 1 - Flag(s.m != MStart) + Flag(s.t == TDone)
    && s.taken == s.acked + Flag(TapsInside(s) || TapsOut(s))
    && (s.p == PWait || ProducerInside(s) ==> s.sent < |tokens|)
    && (s.p == PLast || s.p == PDone ==> s.sent == |tokens|)
    && (s.m == MStart ==> s.p == PWait && s.t == TSeek && s.sent == 0 && s.taken == 0)
    && (s.m == MJoined ==> s.p == PDone && s.t == TDone)
    && (s.t == TSeek ==> s.taken == 0)
  }

  lemma CountedStep(s: State, tokens: seq<Token>, step: Step)
    requires tokens != [] && Counted(s, tokens) && Enabled(s, tokens, step)
    ensures Counted(Next(s, tokens, step), tokens)
  {
    hide ReadVolume, WriteText, Poured;
  }

  /** In no interleaving are both processes between their Wait and their Signal. */
  lemma CountedExcludes(s: State, tokens: seq<Token>)
    requires Counted(s, tokens)
    ensures !(ProducerInside(s) && TapsInside(s))
  {
  }

  // ---------------------------------------------------------------------------
  // What the file holds

  function Values(tokens: seq<Token>): (vols: seq<nat>)
    ensures |vols| == |tokens|
  {
    seq(|tokens|, i requires 0 <= i < |tokens| => TokenValue(tokens[i]))
  }

  /** The text of the first `n` volumes, each followed by the tap it was given to. */
  function Transcript(tokens: seq<Token>, n: nat): string
    requires n <= |tokens|
  {
    if n == 0 then ""
    else Transcript(tokens, n - 1) + tokens[n - 1] + " " + Label(Greedy(Values(tokens)[..n])[n - 1])
  }

  /** How many volumes have been poured. */
  function PouredCount(s: State): nat { if s.t == TSignal then s.acked + 1 else s.acked }

  /** The next volume to pour is in the file and has not been read. */
  predicate Unread(s: State) {
    (s.t == TWait || s.t == TRead) && (s.p == PSignal || s.sent > s.acked)
  }

  /** The residuals and taps are those of the reference scheduler on what has been poured. */
  ghost predicate PouringRight(s: State, tokens: seq<Token>) {
    var n := PouredCount(s);
    && n <= |tokens|
    && s.taps == Greedy(Values(tokens)[..n])
    && Residual(Values(tokens)[..n], s.taps, s.v1, s.v2)
  }

  /** What is in the file, and where the taps stand in it. */
  ghost predicate FileRight(s: State, base: string, tokens: seq<Token>)
    requires PouredCount(s) <= |tokens|
  {
    var n := PouredCount(s);
    var done := base + Transcript(tokens, n);
    if s.t == TSeek then
      n == 0 && tokens != [] && s.file == (if Wrote(s) then base + tokens[0] + " " else base)
    else if Unread(s) then
      n < |tokens| && s.file == done + tokens[n] + " " && s.pos == |done|
    else if s.t == TPour then
      n < |tokens| && s.file == done + tokens[n] + " " && s.pos == |s.file| && s.volume == TokenValue(tokens[n])
    else
      s.file == done + (if s.t == TFinal || s.t == TDone then "\n" else "") && s.pos == |s.file|
  }

  /** All is well as long as the taps were not late. */
  ghost predicate InStep(s: State, base: string, tokens: seq<Token>)
    requires tokens != []
  {
    && !s.late && PouringRight(s, tokens) && FileRight(s, base, tokens)
    && (TapsOut(s) ==> s.acked == |tokens| && s.p == PDone)
  }

  /** If the taps were late, they skip the first volume, stop at once, and never signal back. */
  ghost predicate OutOfStep(s: State) {
    && s.late && s.voinuoc == 0 && s.acked == 0 && s.taps == []
    && (s.t == TWait || s.t == TRead || TapsOut(s))
    && (s.t == TWait || s.t == TRead ==> s.pos == |s.file|)
    && s.pos <= |s.file|
    && (s.p == PSignal ==> s.sent == 0) && s.p != PWrite
  }

  ghost predicate Good(s: State, base: string, tokens: seq<Token>)
    requires tokens != []
  {
    Counted(s, tokens) && if s.late then OutOfStep(s) else InStep(s, base, tokens)
  }

  lemma GoodStepLate(s: State, base: string, tokens: seq<Token>, step: Step)
    requires tokens != [] && Good(s, base, tokens) && Enabled(s, tokens, step) && s.late
    ensures Good(Next(s, tokens, step), base, tokens)
  {
    CountedStep(s, tokens, step);
  }

  /** Steps that leave the file, the taps' place in it and the pouring alone. */
  lemma GoodStepQuiet(s: State, base: string, tokens: seq<Token>, step: Step)
    requires tokens != [] && Counted(s, tokens) && InStep(s, base, tokens) && Enabled(s, tokens, step)
    requires step in {MainWait, MainJoin, TapsFinal, ProducerWait, ProducerLast, ProducerSignal, TapsSignal, TapsWait}
    ensures InStep(Next(s, tokens, step), base, tokens)
  {
    hide Transcript, Greedy, Residual, Values;
    var s' := Next(s, tokens, step);
    assert PouredCount(s') == PouredCount(s) && Unread(s') == Unread(s) && Wrote(s') == Wrote(s);
  }

  lemma GoodStepSeek(s: State, base: string, tokens: seq<Token>)
    requires tokens != [] && Counted(s, tokens) && InStep(s, base, tokens) && Enabled(s, tokens, TapsSeek)
    ensures Wrote(s) ==> OutOfStep(Next(s, tokens, TapsSeek))
    ensures !Wrote(s) ==> InStep(Next(s, tokens, TapsSeek), base, tokens)
  {
    var s' := Next(s, tokens, TapsSeek);
    assert PouredCount(s') == PouredCount(s) == 0;
    assert Transcript(tokens, 0) == "";
    if !Wrote(s) {
      assert !Unread(s');
      assert base + "" + "" == base;
    }
  }

  lemma FileAfterWrite(s: State, s': State, base: string, tokens: seq<Token>)
    requires tokens != [] && s.sent < |tokens| && PouredCount(s) <= |tokens|
    requires FileRight(s, base, tokens) && s.p == PWrite
    requires s' == s.(file := s.file + tokens[s.sent] + " ", p := PSignal)
    requires if s.t == TSeek then s.sent == 0 else s.t == TWait && s.sent == s.acked
    ensures FileRight(s', base, tokens)
  {
    if s.t == TWait {
      assert !Unread(s) && Unread(s');
      assert s.file == base + Transcript(tokens, s.acked);
    }
  }

  lemma GoodStepWrite(s: State, base: string, tokens: seq<Token>)
    requires tokens != [] && Counted(s, tokens) && InStep(s, base, tokens) && Enabled(s, tokens, ProducerWrite)
    ensures InStep(Next(s, tokens, ProducerWrite), base, tokens)
  {
    FileAfterWrite(s, Next(s, tokens, ProducerWrite), base, tokens);
  }

  lemma GoodStepRead(s: State, base: string, tokens: seq<Token>)
    requires tokens != [] && Counted(s, tokens) && InStep(s, base, tokens) && Enabled(s, tokens, TapsRead)
    ensures InStep(Next(s, tokens, TapsRead), base, tokens)
  {
    hide Transcript, Greedy, Residual, Values;
    var s' := Next(s, tokens, TapsRead);
    var n := PouredCount(s);
    assert PouredCount(s') == n && !Unread(s');
    if Unread(s) {
      ReadToken(s.file, s.pos, 0, tokens[n]);
    }
  }

  lemma PouringStep(s: State, s': State, tokens: seq<Token>, tap: Tap)
    requires PouringRight(s, tokens) && s.t == TPour && s.acked < |tokens| && s.volume == TokenValue(tokens[s.acked])
    requires tap == Poured(s.v1, s.v2, s.volume).0 && s'.t == TSignal && s'.acked == s.acked
    requires s'.taps == s.taps + [tap] && (tap, s'.v1, s'.v2) == Poured(s.v1, s.v2, s.volume)
    ensures PouringRight(s', tokens) && Greedy(Values(tokens)[..s.acked + 1])[s.acked] == tap
  {
    var n := s.acked;
    var vols := Values(tokens);
    assert vols[..n + 1] == vols[..n] + [vols[n]];
    PouredIsGreedy(vols[..n], s.v1, s.v2, vols[n]);
  }

  lemma FileAfterPour(s: State, base: string, tokens: seq<Token>, tap: Tap)
    requires s.acked < |tokens| && FileRight(s, base, tokens) && s.t == TPour
    requires tap == Greedy(Values(tokens)[..s.acked + 1])[s.acked]
    ensures s.pos == |s.file|
    ensures WriteText(s.file, s.pos, Label(tap)) == base + Transcript(tokens, s.acked + 1)
  {
    var n := s.acked;
    AppendMark(base, Transcript(tokens, n), tokens[n], Label(tap), s.file);
  }

  lemma AppendMark(base: string, done: string, token: string, mark: string, file: string)
    requires file == base + done + token + " "
    ensures WriteText(file, |file|, mark) == base + (done + token + " " + mark)
  {
    assert WriteText(file, |file|, mark) == file + mark;
  }

  lemma GoodStepPour(s: State, base: string, tokens: seq<Token>)
    requires tokens != [] && Counted(s, tokens) && InStep(s, base, tokens) && Enabled(s, tokens, TapsPour)
    ensures InStep(Next(s, tokens, TapsPour), base, tokens)
  {
    hide Transcript, Greedy, Residual, Values;
    var s' := Next(s, tokens, TapsPour);
    var tap := Poured(s.v1, s.v2, s.volume).0;
    PouringStep(s, s', tokens, tap);
    FileAfterPour(s, base, tokens, tap);
    assert FileRight(s', base, tokens);
  }

  lemma GoodStepNewline(s: State, base: string, tokens: seq<Token>)
    requires tokens != [] && Counted(s, tokens) && InStep(s, base, tokens) && Enabled(s, tokens, TapsNewline)
    ensures InStep(Next(s, tokens, TapsNewline), base, tokens)
  {
    hide Transcript, Greedy, Residual, Values;
    var s' := Next(s, tokens, TapsNewline);
    assert PouredCount(s') == PouredCount(s) && s'.file == s.file + "\n";
  }

  /** Every step of every process keeps the invariant. */
  lemma GoodStep(s: State, base: string, tokens: seq<Token>, step: Step)
    requires tokens != [] && Good(s, base, tokens) && Enabled(s, tokens, step)
    ensures Good(Next(s, tokens, step), base, tokens)
  {
    hide Counted, PouringRight, FileRight;
    if s.late {
      GoodStepLate(s, base, tokens, step);
    } else {
      CountedStep(s, tokens, step);
      match step
      case MainWait | MainJoin | TapsFinal | ProducerWait | ProducerLast | ProducerSignal | TapsSignal | TapsWait =>
        GoodStepQuiet(s, base, tokens, step);
      case ProducerWrite => GoodStepWrite(s, base, tokens);
      case TapsSeek => GoodStepSeek(s, base, tokens);
      case TapsRead => GoodStepRead(s, base, tokens);
      case TapsPour => GoodStepPour(s, base, tokens);
      case TapsNewline => GoodStepNewline(s, base, tokens);
    }
  }

  lemma InitialIsGood(base: string, tokens: seq<Token>)
    requires tokens != []
    ensures Good(Initial(base), base, tokens)
  {
    hide Transcript, PouringRight;
    PouringStarts(base, tokens);
  }

  lemma PouringStarts(base: string, tokens: seq<Token>)
    ensures PouringRight(Initial(base), tokens)
  {
    var none := Values(tokens)[..0];
    assert none == [] && Greedy(none) == [];
  }

  lemma {:induction false} RunIsGood(base: string, tokens: seq<Token>, steps: seq<Step>)
    requires tokens != [] && After(Initial(base), tokens, steps).Some?
    ensures Good(After(Initial(base), tokens, steps).value, base, tokens)
  {
    if steps == [] {
      InitialIsGood(base, tokens);
    } else {
      var n := |steps| - 1;
      RunIsGood(base, tokens, steps[..n]);
      GoodStep(After(Initial(base), tokens, steps[..n]).value, base, tokens, steps[n]);
    }
  }

  // ---------------------------------------------------------------------------
  // Main results

  /** In no interleaving are producer and taps both between their Wait and their Signal. */
  lemma SectionsNeverOverlap(base: string, tokens: seq<Token>, steps: seq<Step>)
    requires tokens != [] && After(Initial(base), tokens, steps).Some?
    ensures var s := After(Initial(base), tokens, steps).value; !(ProducerInside(s) && TapsInside(s))
  {
    RunIsGood(base, tokens, steps);
    CountedExcludes(After(Initial(base), tokens, steps).value, tokens);
  }

  ghost predicate Restored(s: State) { s.main == 1 && s.sinhvien == 0 && s.voinuoc == 1 }

  /** A finished round leaves the semaphores as it found them exactly when the taps looked for the
      end of the file before the first volume was written; and then the file holds every volume with
      the tap the reference scheduler gives it. */
  lemma RoundRestores(base: string, tokens: seq<Token>, steps: seq<Step>)
    requires tokens != [] && After(Initial(base), tokens, steps).Some?
    requires After(Initial(base), tokens, steps).value.m == MJoined
    ensures var s := After(Initial(base), tokens, steps).value;
            && (Restored(s) <==> !s.late)
            && (!s.late ==> s.file == base + Transcript(tokens, |tokens|) + "\n" && s.taps == Greedy(Values(tokens)))
  {
    RunIsGood(base, tokens, steps);
    assert Values(tokens)[..|tokens|] == Values(tokens);
  }

  /** Before a round ends some process can always move, unless the taps were late. */
  lemma NeverStuck(base: string, tokens: seq<Token>, steps: seq<Step>)
    requires tokens != [] && After(Initial(base), tokens, steps).Some?
    requires var s := After(Initial(base), tokens, steps).value; !s.late && s.m != MJoined
    ensures exists step :: Enabled(After(Initial(base), tokens, steps).value, tokens, step)
  {
    RunIsGood(base, tokens, steps);
    SomeStepEnabled(After(Initial(base), tokens, steps).value, base, tokens);
  }

  lemma SomeStepEnabled(s: State, base: string, tokens: seq<Token>)
    requires tokens != [] && Counted(s, tokens) && InStep(s, base, tokens) && s.m != MJoined
    ensures exists step :: Enabled(s, tokens, step)
  {
    var step :=
      if s.m == MStart then MainWait
      else if s.t == TSeek then TapsSeek
      else if s.t == TRead then TapsRead
      else if s.t == TPour then TapsPour
      else if s.t == TSignal then TapsSignal
      else if s.t == TNewline then TapsNewline
      else if s.t == TFinal then TapsFinal
      else if s.t == TWait && s.sinhvien > 0 then TapsWait
      else if s.p == PWait then ProducerWait
      else if s.p == PWrite then ProducerWrite
      else if s.p == PSignal then ProducerSignal
      else if s.p == PLast then ProducerLast
      else MainJoin;
    assert Enabled(s, tokens, step);
  }

  /** The taps can be late: nothing orders their search for the end of the file and the first write. */
  lemma LateIsPossible(base: string, tokens: seq<Token>)
    requires tokens != []
    ensures var s := After(Initial(base), tokens, [MainWait, ProducerWait, ProducerWrite, TapsSeek]);
            s.Some? && s.value.late
  {
    var w1, w2, w3 := [MainWait], [MainWait, ProducerWait], [MainWait, ProducerWait, ProducerWrite];
    var w4 := [MainWait, ProducerWait, ProducerWrite, TapsSeek];
    assert w1[..0] == [] && w2[..1] == w1 && w3[..2] == w2 && w4[..3] == w3;
    assert After(Initial(base), tokens, w1).Some? && After(Initial(base), tokens, w2).Some?
        && After(Initial(base), tokens, w3).Some?;
  }

  /** Late taps pour nothing; with two or more volumes the round then never ends. */
  lemma LateRoundFails(base: string, tokens: seq<Token>, steps: seq<Step>)
    requires tokens != [] && After(Initial(base), tokens, steps).Some?
    requires After(Initial(base), tokens, steps).value.late
    ensures var s := After(Initial(base), tokens, steps).value;
            s.taps == [] && (|tokens| >= 2 ==> s.m != MJoined)
  {
    RunIsGood(base, tokens, steps);
  }

  // ---------------------------------------------------------------------------
  // What the file says to a reader

  /** Where the entry of volume `i` starts in the transcript. */
  function EntryAt(tokens: seq<Token>, i: nat): nat
    requires i <= |tokens|
  {
    |Transcript(tokens, i)|
  }

  /** The tap that a character names. */
  function TapNamed(c: char): Option<Tap> {
    if c == '1' then Some(One) else if c == '2' then Some(Two) else None
  }

  /** An entry is the volume's digits, a blank, the digit of its tap and a blank. */
  ghost predicate EntryReads(text: string, at: nat, token: string, tap: Tap) {
    && at + |token| + 3 <= |text| && text[at..at + |token|] == token
    && text[at + |token|] == ' ' && text[at + |token| + 2] == ' '
    && TapNamed(text[at + |token| + 1]) == Some(tap)
  }

  lemma EntryWritten(done: string, token: string, tap: Tap)
    ensures EntryReads(done + token + " " + Label(tap), |done|, token, tap)
    ensures |done + token + " " + Label(tap)| == |done| + |token| + 3
  {
    var text := done + token + " " + Label(tap);
    assert text[|done|..|done| + |token|] == token;
  }

  lemma EntryStays(text: string, more: string, at: nat, token: string, tap: Tap)
    requires EntryReads(text, at, token, tap)
    ensures EntryReads(text + more, at, token, tap)
  {
    assert (text + more)[at..at + |token|] == text[at..at + |token|];
  }

  /** Every volume can be read back from the transcript, and with it the tap that the scheduler gave it. */
  lemma {:induction false} TranscriptReads(tokens: seq<Token>, n: nat, i: nat)
    requires i < n <= |tokens|
    ensures i < |Greedy(Values(tokens)[..i + 1])|
    ensures EntryReads(Transcript(tokens, n), EntryAt(tokens, i), tokens[i], Greedy(Values(tokens)[..i + 1])[i])
  {
    hide Greedy, EntryReads, TapNamed, Label;
    if i == n - 1 {
      EntryWritten(Transcript(tokens, i), tokens[i], Greedy(Values(tokens)[..i + 1])[i]);
    } else {
      TranscriptReads(tokens, n - 1, i);
      var entry := tokens[n - 1] + " " + Label(Greedy(Values(tokens)[..n])[n - 1]);
      EntryStays(Transcript(tokens, n - 1), entry, EntryAt(tokens, i), tokens[i], Greedy(Values(tokens)[..i + 1])[i]);
      assert Transcript(tokens, n) == Transcript(tokens, n - 1) + entry;
    }
  }

  lemma {:induction false} GreedyPrefix(vols: seq<nat>, m: nat, i: nat)
    requires i < m <= |vols|
    ensures Greedy(vols[..m])[i] == Greedy(vols)[i]
    decreases |vols|
  {
    if m < |vols| {
      var n := |vols| - 1;
      GreedyPrefix(vols[..n], m, i);
      assert vols[..n][..m] == vols[..m];
    } else {
      assert vols[..m] == vols;
    }
  }

  /** After a finished round in which the taps were not late, a reader of the file finds every volume, in
      order, and behind it the digit of the tap that the reference scheduler gives it. */
  lemma FileTellsTaps(base: string, tokens: seq<Token>, steps: seq<Step>, i: nat)
    requires tokens != [] && After(Initial(base), tokens, steps).Some? && i < |tokens|
    requires var s := After(Initial(base), tokens, steps).value; s.m == MJoined && !s.late
    ensures EntryReads(After(Initial(base), tokens, steps).value.file, |base| + EntryAt(tokens, i), tokens[i],
                       Greedy(Values(tokens))[i])
  {
    hide Next, Enabled, Greedy, TapNamed, Transcript, Values;
    RoundRestores(base, tokens, steps);
    TranscriptReads(tokens, |tokens|, i);
    GreedyPrefix(Values(tokens), i + 1, i);
    EntryBehind(base, Transcript(tokens, |tokens|), "\n", EntryAt(tokens, i), tokens[i], Greedy(Values(tokens))[i]);
  }

  lemma EntryBehind(base: string, text: string, more: string, at: nat, token: string, tap: Tap)
    requires EntryReads(text, at, token, tap)
    ensures EntryReads(base + text + more, |base| + at, token, tap)
  {
    hide TapNamed;
    var all := base + text + more;
    assert all[|base| + at..|base| + at + |token|] == text[at..at + |token|];
  }

  // ---------------------------------------------------------------------------
  // Every round ends

  /** How many steps a process can still take, at most. */
  function MainLeft(s: State): nat { if s.m == MStart then 2 else if s.m == MStarted then 1 else 0 }

  function ProducerLeft(s: State, tokens: seq<Token>): int {
    match s.p
    case PWait => 3 * (|tokens| - s.sent) + 1
    case PWrite => 3 * (|tokens| - s.sent)
    case PSignal => 3 * (|tokens| - s.sent) - 1
    case PLast => 1
    case PDone => 0
  }

  function TapsLeft(s: State, tokens: seq<Token>): int {
    var waits := 4 * (|tokens| + 1 - s.taken);
    match s.t
    case TSeek => waits + 4
    case TWait => waits + 3
    case TRead => waits + 6
    case TPour => waits + 5
    case TSignal => waits + 4
    case TNewline => waits + 2
    case TFinal => waits + 1
    case TDone => waits
  }

  function StepsLeft(s: State, tokens: seq<Token>): int {
    MainLeft(s) + ProducerLeft(s, tokens) + TapsLeft(s, tokens)
  }

  /** Every step uses up some of the steps left. */
  lemma StepsRunOut(s: State, tokens: seq<Token>, step: Step)
    requires tokens != [] && Counted(s, tokens) && Enabled(s, tokens, step)
    ensures StepsLeft(Next(s, tokens, step), tokens) < StepsLeft(s, tokens)
  {
    hide ReadVolume, WriteText, Poured;
  }

  /** There are never fewer than none left. */
  lemma LeftIsNat(s: State, tokens: seq<Token>)
    requires tokens != [] && Counted(s, tokens)
    ensures StepsLeft(s, tokens) >= 0
  {
  }

  /** No interleaving is longer than seven steps for each volume and eleven more. */
  lemma {:induction false} RunIsBounded(base: string, tokens: seq<Token>, steps: seq<Step>)
    requires tokens != [] && After(Initial(base), tokens, steps).Some?
    ensures |steps| + StepsLeft(After(Initial(base), tokens, steps).value, tokens) <= 7 * |tokens| + 11
    ensures |steps| <= 7 * |tokens| + 11
  {
    hide Next, Enabled, Good, StepsLeft, Counted;
    RunIsCounted(base, tokens, steps);
    LeftIsNat(After(Initial(base), tokens, steps).value, tokens);
    if steps == [] {
      InitialLeft(base, tokens);
    } else {
      var n := |steps| - 1;
      RunIsBounded(base, tokens, steps[..n]);
      RunIsCounted(base, tokens, steps[..n]);
      StepsRunOut(After(Initial(base), tokens, steps[..n]).value, tokens, steps[n]);
    }
  }

  lemma InitialLeft(base: string, tokens: seq<Token>)
    ensures StepsLeft(Initial(base), tokens) == 7 * |tokens| + 11
  {
  }

  lemma RunIsCounted(base: string, tokens: seq<Token>, steps: seq<Step>)
    requires tokens != [] && After(Initial(base), tokens, steps).Some?
    ensures Counted(After(Initial(base), tokens, steps).value, tokens)
  {
    hide Next, Enabled, Counted, OutOfStep, InStep;
    RunIsGood(base, tokens, steps);
  }

  /** Nothing more can happen. */
  ghost predicate Final(s: State, tokens: seq<Token>) {
    forall step :: !Enabled(s, tokens, step)
  }

  /** However the programs are interleaved, when nothing more can happen the round has ended exactly when
      the taps were not late or there was only one volume; and if they were not late, the semaphores are
      as before and the file holds every volume with its tap. */
  lemma MaximalRun(base: string, tokens: seq<Token>, steps: seq<Step>)
    requires tokens != [] && After(Initial(base), tokens, steps).Some?
    requires Final(After(Initial(base), tokens, steps).value, tokens)
    ensures var s := After(Initial(base), tokens, steps).value;
            && (s.m == MJoined <==> !s.late || |tokens| == 1)
            && (!s.late ==> Restored(s) && s.file == base + Transcript(tokens, |tokens|) + "\n"
                            && s.taps == Greedy(Values(tokens)))
  {
    hide Next, Counted, InStep, Transcript, Greedy, Values;
    var s := After(Initial(base), tokens, steps).value;
    RunIsGood(base, tokens, steps);
    if !s.late {
      if s.m != MJoined { SomeStepEnabled(s, base, tokens); }
      RoundRestores(base, tokens, steps);
    } else if |tokens| == 1 {
      if s.m != MJoined { LateStepEnabled(s, tokens); }
    } else {
      LateRoundFails(base, tokens, steps);
    }
  }

  lemma LateStepEnabled(s: State, tokens: seq<Token>)
    requires |tokens| == 1 && Counted(s, tokens) && OutOfStep(s) && s.m != MJoined
    ensures exists step :: Enabled(s, tokens, step)
  {
    var step :=
      if s.p == PSignal then ProducerSignal
      else if s.p == PLast then ProducerLast
      else if s.t == TWait then TapsWait
      else if s.t == TRead then TapsRead
      else if s.t == TNewline then TapsNewline
      else if s.t == TFinal then TapsFinal
      else MainJoin;
    assert Enabled(s, tokens, step);
  }

  // ---------------------------------------------------------------------------
  // Round after round

  /** The output of several rounds, one line each. */
  function Lines(rounds: seq<seq<Token>>): string {
    if rounds == [] then ""
    else
      var last := rounds[|rounds| - 1];
      Lines(rounds[..|rounds| - 1]) + Transcript(last, |last|) + "\n"
  }

  /** A new round: new processes, with the semaphores and the file that the last one left. */
  function NextRound(s: State): State {
    Initial(s.file).(main := s.main, sinhvien := s.sinhvien, voinuoc := s.voinuoc)
  }

  /** A run of one round from what `s` left, ending in `s'` without the taps having been late. */
  ghost predicate RoundEnds(s: State, tokens: seq<Token>, steps: seq<Step>, s': State) {
    After(NextRound(s), tokens, steps) == Some(s') && s'.m == MJoined && !s'.late
  }

  lemma RoundAddsLine(s: State, tokens: seq<Token>, steps: seq<Step>, s': State)
    requires tokens != [] && Restored(s) && RoundEnds(s, tokens, steps, s')
    ensures Restored(s') && s'.file == s.file + Transcript(tokens, |tokens|) + "\n"
  {
    hide Next, Enabled, Transcript;
    assert NextRound(s) == Initial(s.file);
    RoundRestores(s.file, tokens, steps);
  }

  /** The parent's loop: when the taps are never late, every round finds the semaphores that it needs in
      what the round before it left, and adds exactly its line to the file. */
  lemma {:induction false} RoundsAddLines(rounds: seq<seq<Token>>, runs: seq<seq<Step>>, ends: seq<State>)
    requires |runs| == |rounds| && |ends| == |rounds| + 1 && Restored(ends[0])
    requires forall i | 0 <= i < |rounds| :: rounds[i] != [] && RoundEnds(ends[i], rounds[i], runs[i], ends[i + 1])
    ensures Restored(ends[|rounds|]) && ends[|rounds|].file == ends[0].file + Lines(rounds)
  {
    hide Restored, RoundEnds, Transcript;
    if rounds != [] {
      var n := |rounds| - 1;
      forall i | 0 <= i < n
        ensures rounds[..n][i] != [] && RoundEnds(ends[..n + 1][i], rounds[..n][i], runs[..n][i], ends[..n + 1][i + 1])
      {
        assert RoundEnds(ends[i], rounds[i], runs[i], ends[i + 1]);
      }
      RoundsAddLines(rounds[..n], runs[..n], ends[..n + 1]);
      RoundAddsLine(ends[n], rounds[n], runs[n], ends[n + 1]);
      AppendLine(ends[0].file, Lines(rounds[..n]), Transcript(rounds[n], |rounds[n]|));
    }
  }

  lemma AppendLine(base: string, lines: string, line: string)
    ensures base + lines + line + "\n" == base + (lines + line + "\n")
  {
  }
}
