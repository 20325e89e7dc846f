/** The shared clock of tm_task.cpp: one writer bumps a counter and then stores the fields of a
    publication one by one; any number of readers read the counter, the fields and the counter
    again, and start over if it has changed. Every access to a field is one step, in the order
    of one interleaving. */
module Clock {

  // The counters are 32-bit
  const WRAP := 0x1_0000_0000

  /** What a counter holds after `bumps` bumps. */
  function Counted(base: nat, bumps: nat): nat { (base + bumps) % WRAP }

  /** The values of the k-th publication, and of the counters before the first bump. */
  datatype Times = Times(sec: nat -> int, usec: nat -> int, tm: nat -> int, tvalBase: nat, tmBase: nat)

  // ---- The writer

  /** Where the writer's loop stands: gettimeofday stores the two fields in either order. */
  datatype Place = Idle | Bumped | SecStored | UsecStored | Published | TmBumped

  /** How often the counters were bumped, and which publication each field is from. */
  datatype Shared = Shared(place: Place, count: nat, tvalBumps: nat, secPub: nat, usecPub: nat, tmBumps: nat, tmPub: nat)

  /** One step of the loop of get_timetask. */
  function Write(s: Shared, secFirst: bool): Shared {
    match s.place
    case Idle => s.(place := Bumped, tvalBumps := s.tvalBumps + 1)
    case Bumped =>
      if secFirst then s.(place := SecStored, secPub := s.tvalBumps) else s.(place := UsecStored, usecPub := s.tvalBumps)
    case SecStored => s.(place := Published, usecPub := s.tvalBumps)
    case UsecStored => s.(place := Published, secPub := s.tvalBumps)
    case Published =>
      if s.count + 1 > 20 then s.(place := TmBumped, count := 0, tmBumps := s.tmBumps + 1)
      else s.(place := Idle, count := s.count + 1)
    case TmBumped => s.(place := Idle, tmPub := s.tmBumps)
  }

  // ---- The readers

  /** A round of the loop of get_timeofday. `start` and `end` are how often the counter had been bumped at its
      two reads, `quiet` whether the fields were both of the latest publication at the first. */
  datatype Reader =
    | Ready
    | Flagged(flag: nat, start: nat, quiet: bool)
    | GotSec(flag: nat, start: nat, quiet: bool, sec: int, secFrom: nat)
    | GotBoth(flag: nat, start: nat, quiet: bool, sec: int, secFrom: nat, usec: int, usecFrom: nat)
    | Accepted(flag: nat, start: nat, end: nat, quiet: bool, sec: int, secFrom: nat, usec: int, usecFrom: nat)

  function TvalFag(t: Times, s: Shared): nat { Counted(t.tvalBase, s.tvalBumps) }

  function TmFag(t: Times, s: Shared): nat { Counted(t.tmBase, s.tmBumps) }

  /** One step of get_timeofday. Ready is before the first read of a round: a round whose counter
      has changed is done over, and after an accepted one the reader may call again. */
  function Read(t: Times, s: Shared, r: Reader): Reader {
    match r
    case Ready => Flagged(TvalFag(t, s), s.tvalBumps, s.secPub == s.usecPub == s.tvalBumps)
    case Flagged(flag, start, quiet) => GotSec(flag, start, quiet, t.sec(s.secPub), s.secPub)
    case GotSec(flag, start, quiet, sec, from) => GotBoth(flag, start, quiet, sec, from, t.usec(s.usecPub), s.usecPub)
    case GotBoth(flag, start, quiet, sec, secFrom, usec, usecFrom) =>
      if TvalFag(t, s) != flag then Ready
      else Accepted(flag, start, s.tvalBumps, quiet, sec, secFrom, usec, usecFrom)
    case Accepted(_, _, _, _, _, _, _, _) => Ready
  }

  /** A round of the loop of get_time. */
  datatype TmReader =
    | TmReady
    | TmFlagged(flag: nat, start: nat)
    | GotTm(flag: nat, start: nat, tm: int, from: nat)
    | TmAccepted(flag: nat, start: nat, end: nat, tm: int, from: nat)

  function ReadTm(t: Times, s: Shared, r: TmReader): TmReader {
    match r
    case TmReady => TmFlagged(TmFag(t, s), s.tmBumps)
    case TmFlagged(flag, start) => GotTm(flag, start, t.tm(s.tmPub), s.tmPub)
    case GotTm(flag, start, tm, from) =>
      if TmFag(t, s) != flag then TmReady else TmAccepted(flag, start, s.tmBumps, tm, from)
    case TmAccepted(_, _, _, _, _) => TmReady
  }

  // ---- Runs

  datatype State = State(shared: Shared, readers: seq<Reader>, tmReaders: seq<TmReader>)

  datatype Step = WriterStep(secFirst: bool) | ReaderStep(i: nat) | TmReaderStep(i: nat)

  function Apply(t: Times, s: State, step: Step): (r: State)
    ensures |r.readers| == |s.readers| && |r.tmReaders| == |s.tmReaders|
  {
    match step
    case WriterStep(secFirst) => s.(shared := Write(s.shared, secFirst))
    case ReaderStep(i) => if i < |s.readers| then s.(readers := s.readers[i := Read(t, s.shared, s.readers[i])]) else s
    case TmReaderStep(i) =>
      if i < |s.tmReaders| then s.(tmReaders := s.tmReaders[i := ReadTm(t, s.shared, s.tmReaders[i])]) else s
  }

  function Run(t: Times, s: State, steps: seq<Step>): (r: State)
    ensures |r.readers| == |s.readers| && |r.tmReaders| == |s.tmReaders|
    decreases |steps|
  {
    if steps == [] then s else Run(t, Apply(t, s, steps[0]), steps[1..])
  }

  /** get_timetask stores publication 0 before it forks the writer. */
  function Start(readers: nat, tmReaders: nat): State {
    State(Shared(Idle, 0, 0, 0, 0, 0, 0), seq(readers, i => Ready), seq(tmReaders, i => TmReady))
  }

  // ---- What every step keeps

  /** A field is from the latest publication, or from the one before until it is stored. */
  predicate WriterOk(s: Shared) {
    s.count <= 20
    && (match s.place
        case Bumped => s.tvalBumps > 0 && s.secPub == s.usecPub == s.tvalBumps - 1
        case SecStored => s.tvalBumps > 0 && s.secPub == s.tvalBumps && s.usecPub == s.tvalBumps - 1
        case UsecStored => s.tvalBumps > 0 && s.secPub == s.tvalBumps - 1 && s.usecPub == s.tvalBumps
        case _ => s.secPub == s.usecPub == s.tvalBumps)
    && s.tmPub == (if s.place == TmBumped then s.tmBumps - 1 else s.tmBumps)
    && 21 * s.tmBumps + s.count ==
       (match s.place case Bumped | SecStored | UsecStored | Published => s.tvalBumps - 1 case _ => s.tvalBumps)
  }

  /** A field read after `start` bumps: from no publication before the previous one, and from the
      very publication if the fields were up to date then and no bump has come since. */
  predicate FieldOk(start: nat, now: nat, quiet: bool, from: nat) {
    start <= from + 1 && from <= now && (quiet ==> start <= from)
  }

  predicate ReaderOk(t: Times, s: Shared, r: Reader) {
    match r
    case Ready => true
    case Flagged(flag, start, quiet) =>
      flag == Counted(t.tvalBase, start) && start <= s.tvalBumps
      && (quiet ==> start <= s.secPub && start <= s.usecPub)
    case GotSec(flag, start, quiet, sec, from) =>
      flag == Counted(t.tvalBase, start) && start <= s.tvalBumps && (quiet ==> start <= s.usecPub)
      && FieldOk(start, s.tvalBumps, quiet, from) && sec == t.sec(from)
    case GotBoth(flag, start, quiet, sec, secFrom, usec, usecFrom) =>
      flag == Counted(t.tvalBase, start) && start <= s.tvalBumps
      && FieldOk(start, s.tvalBumps, quiet, secFrom) && sec == t.sec(secFrom)
      && FieldOk(start, s.tvalBumps, quiet, usecFrom) && usec == t.usec(usecFrom)
    case Accepted(flag, start, end, quiet, sec, secFrom, usec, usecFrom) =>
      flag == Counted(t.tvalBase, start) == Counted(t.tvalBase, end) && start <= end
      && FieldOk(start, end, quiet, secFrom) && sec == t.sec(secFrom)
      && FieldOk(start, end, quiet, usecFrom) && usec == t.usec(usecFrom)
  }

  predicate TmReaderOk(t: Times, s: Shared, r: TmReader) {
    match r
    case TmReady => true
    case TmFlagged(flag, start) => flag == Counted(t.tmBase, start) && start <= s.tmBumps
    case GotTm(flag, start, tm, from) =>
      flag == Counted(t.tmBase, start) && start <= s.tmBumps && FieldOk(start, s.tmBumps, false, from) && tm == t.tm(from)
    case TmAccepted(flag, start, end, tm, from) =>
      flag == Counted(t.tmBase, start) == Counted(t.tmBase, end) && start <= end
      && FieldOk(start, end, false, from) && tm == t.tm(from)
  }

  predicate Ok(t: Times, s: State) {
    WriterOk(s.shared)
    && (forall i :: 0 <= i < |s.readers| ==> ReaderOk(t, s.shared, s.readers[i]))
    && (forall i :: 0 <= i < |s.tmReaders| ==> TmReaderOk(t, s.shared, s.tmReaders[i]))
  }

  lemma OthersKeep(t: Times, s: Shared, secFirst: bool, r: Reader, q: TmReader)
    requires WriterOk(s)
    ensures WriterOk(Write(s, secFirst))
    ensures ReaderOk(t, s, r) ==> ReaderOk(t, Write(s, secFirst), r)
    ensures TmReaderOk(t, s, q) ==> TmReaderOk(t, Write(s, secFirst), q)
  {
    hide Counted;
  }

  lemma ReaderKeeps(t: Times, s: Shared, r: Reader)
    requires WriterOk(s) && ReaderOk(t, s, r)
    ensures ReaderOk(t, s, Read(t, s, r))
  {
    hide Counted;
  }

  lemma TmReaderKeeps(t: Times, s: Shared, r: TmReader)
    requires WriterOk(s) && TmReaderOk(t, s, r)
    ensures TmReaderOk(t, s, ReadTm(t, s, r))
  {
    hide Counted;
  }

  lemma StepKeeps(t: Times, s: State, step: Step)
    requires Ok(t, s)
    ensures Ok(t, Apply(t, s, step))
    ensures |Apply(t, s, step).readers| == |s.readers| && |Apply(t, s, step).tmReaders| == |s.tmReaders|
  {
    hide WriterOk, ReaderOk, TmReaderOk, Write, Read, ReadTm;
    match step
    case WriterStep(secFirst) =>
      OthersKeep(t, s.shared, secFirst, Ready, TmReady);
      forall i | 0 <= i < |s.readers|
        ensures ReaderOk(t, Write(s.shared, secFirst), s.readers[i])
      {
        OthersKeep(t, s.shared, secFirst, s.readers[i], TmReady);
      }
      forall i | 0 <= i < |s.tmReaders|
        ensures TmReaderOk(t, Write(s.shared, secFirst), s.tmReaders[i])
      {
        OthersKeep(t, s.shared, secFirst, Ready, s.tmReaders[i]);
      }
    case ReaderStep(i) => if i < |s.readers| { ReaderKeeps(t, s.shared, s.readers[i]); }
    case TmReaderStep(i) => if i < |s.tmReaders| { TmReaderKeeps(t, s.shared, s.tmReaders[i]); }
  }

  lemma {:induction false} RunKeeps(t: Times, s: State, steps: seq<Step>)
    requires Ok(t, s)
    ensures Ok(t, Run(t, s, steps)) && |Run(t, s, steps).readers| == |s.readers|
    ensures |Run(t, s, steps).tmReaders| == |s.tmReaders|
    decreases |steps|
  {
    hide Ok, Apply;
    if steps != [] {
      StepKeeps(t, s, steps[0]);
      RunKeeps(t, Apply(t, s, steps[0]), steps[1..]);
    }
  }

  // ---- What a reader gets

  /** Counts that agree modulo the wrap and are less than one wrap apart are the same. */
  lemma SameCount(base: nat, a: nat, b: nat)
    requires a <= b < a + WRAP && Counted(base, a) == Counted(base, b)
    ensures a == b
  {
  }

  lemma StartOk(t: Times, readers: nat, tmReaders: nat)
    ensures var s := Start(readers, tmReaders); Ok(t, s) && |s.readers| == readers && |s.tmReaders| == tmReaders
  {
    hide WriterOk, ReaderOk, TmReaderOk;
    var s := Start(readers, tmReaders);
    WriterStarts(s.shared);
    ReadyOk(t, s.shared);
    assert forall i :: 0 <= i < readers ==> s.readers[i] == Ready;
    assert forall i :: 0 <= i < tmReaders ==> s.tmReaders[i] == TmReady;
  }

  lemma WriterStarts(s: Shared)
    requires s.place == Idle && s.count == s.tvalBumps == s.secPub == s.usecPub == s.tmBumps == s.tmPub == 0
    ensures WriterOk(s)
  {
  }

  lemma ReadyOk(t: Times, s: Shared)
    ensures ReaderOk(t, s, Ready) && TmReaderOk(t, s, TmReady)
  {
    hide Counted, FieldOk;
  }

  /** In every interleaving of the writer and any number of readers: an accepted snapshot with the
      counter at the k-th bump takes each field from publication k or k - 1, and both from
      publication k if the writer was not storing when that round of the loop began. */
  lemma Snapshot(t: Times, readers: nat, tmReaders: nat, steps: seq<Step>, i: nat)
    requires i < readers
    ensures var s := Run(t, Start(readers, tmReaders), steps);
            |s.readers| == readers &&
            (s.readers[i].Accepted? && s.readers[i].end - s.readers[i].start < WRAP ==>
              var r := s.readers[i];
              var k := r.start;
              r.flag == Counted(t.tvalBase, k)
              && ((r.secFrom == k && r.sec == t.sec(k)) || (k > 0 && r.secFrom == k - 1 && r.sec == t.sec(k - 1)))
              && ((r.usecFrom == k && r.usec == t.usec(k)) || (k > 0 && r.usecFrom == k - 1 && r.usec == t.usec(k - 1)))
              && (r.quiet ==> r.sec == t.sec(k) && r.usec == t.usec(k)))
  {
    hide *;
    StartOk(t, readers, tmReaders);
    RunKeeps(t, Start(readers, tmReaders), steps);
    TvalRead(t, Run(t, Start(readers, tmReaders), steps), i);
  }

  lemma TvalRead(t: Times, s: State, i: nat)
    requires Ok(t, s) && i < |s.readers|
    ensures var r := s.readers[i];
            r.Accepted? && r.end - r.start < WRAP ==>
              var k := r.start;
              r.flag == Counted(t.tvalBase, k)
              && ((r.secFrom == k && r.sec == t.sec(k)) || (k > 0 && r.secFrom == k - 1 && r.sec == t.sec(k - 1)))
              && ((r.usecFrom == k && r.usec == t.usec(k)) || (k > 0 && r.usecFrom == k - 1 && r.usec == t.usec(k - 1)))
              && (r.quiet ==> r.sec == t.sec(k) && r.usec == t.usec(k))
  {
    hide WriterOk, TmReaderOk, Counted;
    var r := s.readers[i];
    assert ReaderOk(t, s.shared, r);
    if r.Accepted? && r.end - r.start < WRAP { SameCount(t.tvalBase, r.start, r.end); }
  }

  /** The same for get_time, whose one field cannot be torn; and it is published once for every
      21 publications of the time of day. */
  lemma TmSnapshot(t: Times, readers: nat, tmReaders: nat, steps: seq<Step>, i: nat)
    requires i < tmReaders
    ensures var s := Run(t, Start(readers, tmReaders), steps);
            |s.tmReaders| == tmReaders
            && 21 * s.shared.tmBumps <= s.shared.tvalBumps <= 21 * s.shared.tmBumps + 21 &&
            (s.tmReaders[i].TmAccepted? && s.tmReaders[i].end - s.tmReaders[i].start < WRAP ==>
              var r := s.tmReaders[i];
              var k := r.start;
              r.flag == Counted(t.tmBase, k) && (r.tm == t.tm(k) || (k > 0 && r.tm == t.tm(k - 1))))
  {
    hide *;
    StartOk(t, readers, tmReaders);
    RunKeeps(t, Start(readers, tmReaders), steps);
    var s := Run(t, Start(readers, tmReaders), steps);
    OnceIn21(t, s);
    TmRead(t, s, i);
  }

  lemma OnceIn21(t: Times, s: State)
    requires Ok(t, s)
    ensures 21 * s.shared.tmBumps <= s.shared.tvalBumps <= 21 * s.shared.tmBumps + 21
  {
    hide ReaderOk, TmReaderOk;
  }

  lemma TmRead(t: Times, s: State, i: nat)
    requires Ok(t, s) && i < |s.tmReaders|
    ensures var r := s.tmReaders[i];
            r.TmAccepted? && r.end - r.start < WRAP ==>
              r.flag == Counted(t.tmBase, r.start)
              && (r.tm == t.tm(r.start) || (r.start > 0 && r.tm == t.tm(r.start - 1)))
  {
    hide WriterOk, ReaderOk, Counted;
    var r := s.tmReaders[i];
    assert TmReaderOk(t, s.shared, r);
    if r.TmAccepted? && r.end - r.start < WRAP { SameCount(t.tmBase, r.start, r.end); }
  }

  // ---- When a snapshot is whole

  /** Both fields are of the latest publication: the writer is not storing. */
  predicate Quiet(s: Shared) { s.secPub == s.usecPub == s.tvalBumps }

  function TurnsOf(steps: seq<Step>, i: nat): nat
    decreases |steps|
  {
    if steps == [] then 0 else (if steps[0] == ReaderStep(i) then 1 else 0) + TurnsOf(steps[1..], i)
  }

  /** How many steps a reader takes until it accepts or starts over. */
  function Left(r: Reader): nat {
    if r.Flagged? then 3 else if r.GotSec? then 2 else if r.GotBoth? then 1 else 0
  }

  predicate Whole(s: State, i: nat)
    requires i < |s.readers|
  {
    var r := s.readers[i];
    r.Accepted? && r.end - r.start < WRAP ==> r.secFrom == r.usecFrom
  }

  /** The rest of a round, whatever the others do in between. */
  lemma {:induction false} Tracks(t: Times, s: State, steps: seq<Step>, i: nat)
    requires i < |s.readers| && TurnsOf(steps, i) == Left(s.readers[i])
    ensures var r, r' := s.readers[i], Run(t, s, steps).readers[i];
            r'.Accepted? ==> if Left(r) == 0 then r' == r else r'.quiet == r.quiet && r'.start == r.start
    decreases |steps|
  {
    hide Write, ReadTm;
    if steps != [] { Tracks(t, Apply(t, s, steps[0]), steps[1..], i); }
  }

  /** The reader has just read the counter for the first time in a round. */
  predicate Begins(t: Times, s: State, i: nat) {
    i < |s.readers| && s.readers[i] == Read(t, s.shared, Ready)
  }

  /** A round that begins in a given state gets fields of one publication, in every interleaving,
      exactly if the writer is not storing in that state. */
  lemma RoundIsWhole(t: Times, s: State, i: nat)
    requires Ok(t, s) && Begins(t, s, i)
    ensures Quiet(s.shared) <==> forall steps :: TurnsOf(steps, i) == 3 ==> Whole(Run(t, s, steps), i)
  {
    forall steps | Quiet(s.shared) && TurnsOf(steps, i) == 3
      ensures Whole(Run(t, s, steps), i)
    {
      Tracks(t, s, steps, i);
      hide Run, TurnsOf;
      RunKeeps(t, s, steps);
      QuietIsWhole(t, Run(t, s, steps), i);
    }
    if !Quiet(s.shared) {
      hide Quiet;
      var steps := TornSteps(t, s, i);
      assert TurnsOf(steps, i) == 3 && !Whole(Run(t, s, steps), i);
    }
  }

  /** An accepted round that began while the writer was not storing is whole. */
  lemma QuietIsWhole(t: Times, s: State, i: nat)
    requires Ok(t, s) && i < |s.readers| && (s.readers[i].Accepted? ==> s.readers[i].quiet)
    ensures Whole(s, i)
  {
    var r := s.readers[i];
    assert ReaderOk(t, s.shared, r);
    if r.Accepted? && r.end - r.start < WRAP { SameCount(t.tvalBase, r.start, r.end); }
  }

  /** Three turns from the first read of the counter on that end in a torn snapshot. */
  lemma TornSteps(t: Times, s: State, i: nat) returns (steps: seq<Step>)
    requires Ok(t, s) && Begins(t, s, i) && !Quiet(s.shared)
    ensures TurnsOf(steps, i) == 3 && steps != [] && steps[|steps| - 1] == ReaderStep(i) && !Whole(Run(t, s, steps), i)
    ensures Run(t, s, steps).shared.tvalBumps == s.shared.tvalBumps
  {
    hide Run, TurnsOf, ReaderOk, TmReaderOk, Apply, Read;
    var w, r := WriterStep(true), ReaderStep(i);
    var now := s.shared.place;
    NotQuiet(s.shared);
    if now == Bumped {
      steps := [r, w, w, r, r];
      Five(t, s, r, w, w, r, r);
      Turns5(i);
      TornAcross(t, s, i);
    } else {
      steps := [r, r, r];
      Three(t, s, r, r, r);
      Turns3(i);
      TornNow(t, s, i);
    }
  }

  lemma NotQuiet(s: Shared)
    requires WriterOk(s) && !Quiet(s)
    ensures s.secPub != s.usecPub || (s.place == Bumped && s.secPub == s.usecPub == s.tvalBumps - 1)
    ensures s.place == Bumped ==> s.secPub == s.usecPub == s.tvalBumps - 1
  {
  }

  /** The reader runs on while one field is stored and the other is not. */
  lemma TornNow(t: Times, s: State, i: nat)
    requires i < |s.readers| && s.readers[i] == Read(t, s.shared, Ready) && s.shared.secPub != s.shared.usecPub
    ensures var r := ReaderStep(i);
            var s' := Apply(t, Apply(t, Apply(t, s, r), r), r);
            !Whole(s', i) && s'.shared.tvalBumps == s.shared.tvalBumps
  {
    hide TvalFag;
  }

  /** The reader takes one field before, and the other after the writer stores both. */
  lemma TornAcross(t: Times, s: State, i: nat)
    requires i < |s.readers| && s.readers[i] == Read(t, s.shared, Ready)
    requires s.shared.place == Bumped && s.shared.secPub == s.shared.usecPub == s.shared.tvalBumps - 1
    ensures var w, r := WriterStep(true), ReaderStep(i);
            var s' := Apply(t, Apply(t, Apply(t, Apply(t, Apply(t, s, r), w), w), r), r);
            !Whole(s', i) && s'.shared.tvalBumps == s.shared.tvalBumps
  {
    var w, r := WriterStep(true), ReaderStep(i);
    var s1 := Apply(t, s, r);
    var s2 := Apply(t, s1, w);
    var s3 := Apply(t, s2, w);
    assert s3.readers == s1.readers && s3.shared.usecPub == s3.shared.tvalBumps == s.shared.tvalBumps;
    assert TvalFag(t, s3.shared) == TvalFag(t, s.shared);
    hide TvalFag;
    var s4 := Apply(t, s3, r);
    var s5 := Apply(t, s4, r);
    assert s5.readers[i].Accepted?;
  }

  lemma Three(t: Times, s: State, a: Step, b: Step, c: Step)
    ensures Run(t, s, [a, b, c]) == Apply(t, Apply(t, Apply(t, s, a), b), c)
  {
    hide Apply;
    assert [a, b, c][1..] == [b, c] && [b, c][1..] == [c] && [c][1..] == [];
    var s1 := Apply(t, s, a);
    var s2 := Apply(t, s1, b);
    assert Run(t, s2, [c]) == Apply(t, s2, c);
    assert Run(t, s1, [b, c]) == Apply(t, s2, c);
  }

  lemma Five(t: Times, s: State, a: Step, b: Step, c: Step, d: Step, e: Step)
    ensures Run(t, s, [a, b, c, d, e]) == Apply(t, Apply(t, Apply(t, Apply(t, Apply(t, s, a), b), c), d), e)
  {
    hide Apply;
    var s2 := Apply(t, Apply(t, s, a), b);
    assert [a, b, c, d, e][1..] == [b, c, d, e] && [b, c, d, e][1..] == [c, d, e];
    Three(t, s2, c, d, e);
    assert Run(t, Apply(t, s, a), [b, c, d, e]) == Run(t, s2, [c, d, e]);
  }

  lemma Turns3(i: nat)
    ensures TurnsOf([ReaderStep(i), ReaderStep(i), ReaderStep(i)], i) == 3
  {
    var r := ReaderStep(i);
    assert [r, r, r][1..] == [r, r] && [r, r][1..] == [r] && [r][1..] == [];
    assert TurnsOf([r], i) == 1;
    assert TurnsOf([r, r], i) == 2;
  }

  lemma Turns5(i: nat)
    ensures var w, r := WriterStep(true), ReaderStep(i); TurnsOf([r, w, w, r, r], i) == 3
  {
    var w, r := WriterStep(true), ReaderStep(i);
    assert [r, w, w, r, r][1..] == [w, w, r, r] && [w, w, r, r][1..] == [w, r, r] && [w, r, r][1..] == [r, r];
    assert [r, r][1..] == [r] && [r][1..] == [];
    assert TurnsOf([r], i) == 1;
    assert TurnsOf([r, r], i) == 2;
    assert TurnsOf([w, r, r], i) == 2;
    assert TurnsOf([w, w, r, r], i) == 2;
  }

  // ---- Whole calls: any number of rounds

  /** Nothing but one call of reader `i`: it has not ended before the last step. */
  predicate InCall(t: Times, s: State, steps: seq<Step>, i: nat)
    requires i < |s.readers|
    decreases |steps|
  {
    steps == [] || (!s.readers[i].Accepted? && InCall(t, Apply(t, s, steps[0]), steps[1..], i))
  }

  lemma {:induction false} RunJoin(t: Times, s: State, a: seq<Step>, b: seq<Step>, i: nat)
    requires i < |s.readers|
    ensures Run(t, s, a + b) == Run(t, Run(t, s, a), b)
    ensures InCall(t, s, a, i) && InCall(t, Run(t, s, a), b, i) ==> InCall(t, s, a + b, i)
    ensures TurnsOf(a + b, i) == TurnsOf(a, i) + TurnsOf(b, i)
    decreases |a|
  {
    hide Apply;
    if a == [] {
      assert a + b == b;
    } else {
      assert (a + b)[1..] == a[1..] + b;
      RunJoin(t, Apply(t, s, a[0]), a[1..], b, i);
    }
  }

  lemma RunLast(t: Times, s: State, a: seq<Step>, x: Step, i: nat)
    requires i < |s.readers|
    ensures Run(t, s, a + [x]) == Apply(t, Run(t, s, a), x)
    ensures TurnsOf(a + [x], i) == TurnsOf(a, i) + (if x == ReaderStep(i) then 1 else 0)
  {
    hide Apply;
    RunJoin(t, s, a, [x], i);
    assert [x][1..] == [];
    var m := Run(t, s, a);
    assert Run(t, m, [x]) == Apply(t, m, x);
  }

  /** Whatever a reader has read, it read in a round that began after some of the steps, and it has
      taken no more turns since than that round has. */
  lemma {:induction false} RoundOf(t: Times, s: State, steps: seq<Step>, i: nat) returns (k: nat)
    requires Begins(t, s, i) && !Run(t, s, steps).readers[i].Ready?
    ensures k <= |steps| && Begins(t, Run(t, s, steps[..k]), i)
    ensures var r := Run(t, s, steps).readers[i];
            TurnsOf(steps[k..], i) + Left(r) == 3 && QuietOf(r) == Quiet(Run(t, s, steps[..k]).shared)
    decreases |steps|
  {
    hide Run, TurnsOf, Apply, Read;
    NoSteps(t, s, i);
    if steps == [] {
      k := 0;
      ReadAt(t, s, i);
      assert steps[0..] == [] && steps[..0] == [];
    } else {
      var p, x := steps[..|steps| - 1], steps[|steps| - 1];
      assert steps == p + [x];
      RunLast(t, s, p, x, i);
      var m := Run(t, s, p);
      NextRead(t, m, x, i);
      if x == ReaderStep(i) && m.readers[i].Ready? {
        k := |steps|;
        assert steps[..k] == steps && steps[k..] == [];
        ReadAt(t, Run(t, s, steps), i);
      } else {
        k := RoundOf(t, s, p, i);
        assert steps[..k] == p[..k] && steps[k..] == p[k..] + [x];
        RunLast(t, s, p[k..], x, i);
      }
    }
  }

  predicate QuietOf(r: Reader) { !r.Ready? && r.quiet }

  lemma NoSteps(t: Times, s: State, i: nat)
    ensures Run(t, s, []) == s && TurnsOf([], i) == 0
  {
  }

  lemma ReadAt(t: Times, s: State, i: nat)
    requires Begins(t, s, i)
    ensures Left(s.readers[i]) == 3 && QuietOf(s.readers[i]) == Quiet(s.shared)
  {
  }

  /** One step, as far as it concerns the round of a reader. */
  lemma NextRead(t: Times, s: State, x: Step, i: nat)
    requires i < |s.readers|
    ensures var r, r' := s.readers[i], Apply(t, s, x).readers[i];
            if x != ReaderStep(i) then r' == r
            else if r.Ready? then Begins(t, Apply(t, s, x), i)
            else (r'.Ready? && Left(r) <= 1) || (Left(r') + 1 == Left(r) && QuietOf(r') == QuietOf(r))
  {
    hide TvalFag, ReadTm;
  }

  /** A call of get_timeofday over any number of rounds: the snapshot it ends with is that of one
      round, and it is whole in every interleaving of that round exactly if the writer was not
      storing when the round began. */
  lemma CallIsWhole(t: Times, s: State, steps: seq<Step>, i: nat) returns (k: nat)
    requires Ok(t, s) && Begins(t, s, i) && Run(t, s, steps).readers[i].Accepted?
    ensures k <= |steps| && Begins(t, Run(t, s, steps[..k]), i) && TurnsOf(steps[k..], i) == 3
    ensures Run(t, s, steps) == Run(t, Run(t, s, steps[..k]), steps[k..])
    ensures var q := Quiet(Run(t, s, steps[..k]).shared);
            && Run(t, s, steps).readers[i].quiet == q && (q ==> Whole(Run(t, s, steps), i))
            && (q <==> forall more :: TurnsOf(more, i) == 3 ==> Whole(Run(t, Run(t, s, steps[..k]), more), i))
  {
    hide Run, TurnsOf, Read, Ok, Whole, Quiet;
    k := RoundOf(t, s, steps, i);
    RunKeeps(t, s, steps[..k]);
    RunKeeps(t, s, steps);
    RoundIsWhole(t, Run(t, s, steps[..k]), i);
    assert steps == steps[..k] + steps[k..];
    RunJoin(t, s, steps[..k], steps[k..], i);
    if Run(t, s, steps).readers[i].quiet { QuietIsWhole(t, Run(t, s, steps), i); }
  }

  // ---- Calls that are torn all the same

  /** The last turn of a round is the first that can end it. */
  lemma {:induction false} RoundInCall(t: Times, s: State, steps: seq<Step>, i: nat)
    requires i < |s.readers| && steps != [] && steps[|steps| - 1] == ReaderStep(i)
    requires TurnsOf(steps, i) <= Left(s.readers[i])
    ensures InCall(t, s, steps, i) && TurnsOf(steps, i) > 0
    decreases |steps|
  {
    hide Apply;
    NextRead(t, s, steps[0], i);
    if |steps| == 1 {
      assert TurnsOf(steps[1..], i) == 0;
      assert InCall(t, Apply(t, s, steps[0]), steps[1..], i);
    } else {
      var s1 := Apply(t, s, steps[0]);
      assert steps[1..][|steps| - 2] == steps[|steps| - 1];
      LastTurn(steps[1..], i);
      RoundInCall(t, s1, steps[1..], i);
    }
  }

  lemma {:induction false} LastTurn(steps: seq<Step>, i: nat)
    requires steps != [] && steps[|steps| - 1] == ReaderStep(i)
    ensures TurnsOf(steps, i) > 0
    decreases |steps|
  {
    if |steps| > 1 { LastTurn(steps[1..], i); }
  }

  /** The writer goes on to its next bump, while the reader waits. */
  lemma {:induction false} ToBump(t: Times, s: State, i: nat) returns (steps: seq<Step>)
    requires i < |s.readers| && !s.readers[i].Accepted? && s.shared.place in {Idle, Published, TmBumped}
    ensures InCall(t, s, steps, i)
    ensures var s' := Run(t, s, steps);
            s'.readers == s.readers && s'.shared.place == Bumped && s'.shared.tvalBumps == s.shared.tvalBumps + 1
    decreases if s.shared.place == Published then 2 else if s.shared.place == TmBumped then 1 else 0
  {
    var w := WriterStep(true);
    var s1 := Apply(t, s, w);
    if s.shared.place == Idle {
      steps := [w];
      assert [w][1..] == [];
      NoSteps(t, s1, i);
    } else {
      var rest := ToBump(t, s1, i);
      steps := [w] + rest;
      assert steps[1..] == rest;
    }
  }

  /** A round that the writer has bumped the counter in is done over, and the next one begins. */
  lemma BeginAgain(t: Times, s: State, i: nat)
    requires i < |s.readers| && s.readers[i].Flagged? && s.readers[i].flag != TvalFag(t, s.shared)
    ensures var r := ReaderStep(i);
            var s' := Apply(t, Apply(t, Apply(t, Apply(t, s, r), r), r), r);
            && Run(t, s, [r, r, r, r]) == s' && InCall(t, s, [r, r, r, r], i)
            && Begins(t, s', i) && s'.shared == s.shared
  {
    var r := ReaderStep(i);
    hide TvalFag, Write, ReadTm;
    var s1 := Apply(t, s, r);
    var s2 := Apply(t, s1, r);
    var s3 := Apply(t, s2, r);
    var s4 := Apply(t, s3, r);
    assert s1.readers[i].GotSec? && s2.readers[i].GotBoth? && s3.readers[i].Ready? && Begins(t, s4, i);
    hide Apply, Read, Begins;
    assert [r, r, r, r][1..] == [r, r, r] && [r, r, r][1..] == [r, r] && [r, r][1..] == [r] && [r][1..] == [];
    Three(t, s1, r, r, r);
    assert InCall(t, s4, [], i);
    assert InCall(t, s3, [r], i);
    assert InCall(t, s2, [r, r], i);
    assert InCall(t, s1, [r, r, r], i);
  }

  /** From every state in which a call begins, whether or not the writer is storing, some
      interleaving lets that call end with fields of two publications: it is enough that the
      writer bumps the counter in the first round, so that the next one begins while it stores. */
  lemma AnyCallTorn(t: Times, s: State, i: nat) returns (steps: seq<Step>)
    requires Ok(t, s) && Begins(t, s, i)
    ensures InCall(t, s, steps, i) && !Whole(Run(t, s, steps), i)
  {
    hide Run, InCall, TurnsOf, Ok, Apply, Whole;
    if Quiet(s.shared) {
      QuietPlace(t, s);
      ReadAt(t, s, i);
      var a := ToBump(t, s, i);
      var s1 := Run(t, s, a);
      Bumped1(t, s, s1, i);
      var r := ReaderStep(i);
      BeginAgain(t, s1, i);
      RunJoin(t, s, a, [r, r, r, r], i);
      var s2 := Run(t, s1, [r, r, r, r]);
      RunKeeps(t, s, a + [r, r, r, r]);
      BumpedStores(t, s2);
      var b := TornRound(t, s2, i);
      RunJoin(t, s, a + [r, r, r, r], b, i);
      steps := (a + [r, r, r, r]) + b;
    } else {
      steps := TornRound(t, s, i);
    }
  }

  lemma TornRound(t: Times, s: State, i: nat) returns (steps: seq<Step>)
    requires Ok(t, s) && Begins(t, s, i) && !Quiet(s.shared)
    ensures InCall(t, s, steps, i) && !Whole(Run(t, s, steps), i)
    ensures Run(t, s, steps).shared.tvalBumps == s.shared.tvalBumps
  {
    hide Run, InCall, TurnsOf, Ok, Whole;
    ReadAt(t, s, i);
    steps := TornSteps(t, s, i);
    RoundInCall(t, s, steps, i);
  }

  lemma QuietPlace(t: Times, s: State)
    requires Ok(t, s) && Quiet(s.shared)
    ensures s.shared.place in {Idle, Published, TmBumped}
  {
  }

  lemma BumpedStores(t: Times, s: State)
    requires Ok(t, s) && s.shared.place == Bumped
    ensures !Quiet(s.shared)
  {
  }

  /** A bump shows in the counter. */
  lemma Bumped1(t: Times, s: State, s1: State, i: nat)
    requires Begins(t, s, i) && s1.readers == s.readers && s1.shared.tvalBumps == s.shared.tvalBumps + 1
    ensures s1.readers[i].Flagged? && s1.readers[i].flag != TvalFag(t, s1.shared)
  {
    if TvalFag(t, s.shared) == TvalFag(t, s1.shared) {
      SameCount(t.tvalBase, s.shared.tvalBumps, s1.shared.tvalBumps);
    }
  }

  // ---- When a call is whole for certain

  lemma {:induction false} BumpsGrow(t: Times, s: State, steps: seq<Step>)
    ensures s.shared.tvalBumps <= Run(t, s, steps).shared.tvalBumps
    decreases |steps|
  {
    if steps != [] { BumpsGrow(t, Apply(t, s, steps[0]), steps[1..]); }
  }

  /** Without a bump, a writer that is not storing does not begin to. */
  lemma {:induction false} StaysQuiet(t: Times, s: State, steps: seq<Step>)
    requires Ok(t, s) && Quiet(s.shared) && Run(t, s, steps).shared.tvalBumps == s.shared.tvalBumps
    ensures Quiet(Run(t, s, steps).shared)
    decreases |steps|
  {
    hide Ok, Read, ReadTm;
    if steps != [] {
      var s1 := Apply(t, s, steps[0]);
      BumpsGrow(t, s1, steps[1..]);
      StepKeeps(t, s, steps[0]);
      QuietPlace(t, s);
      StaysQuiet(t, s1, steps[1..]);
    }
  }

  /** Over any number of rounds: a call during which the counter is not bumped gets fields of one
      publication, in every interleaving, exactly if the writer is not storing when it begins. */
  lemma WholeIfQuiet(t: Times, s: State, i: nat)
    requires Ok(t, s) && Begins(t, s, i)
    ensures Quiet(s.shared) <==>
      forall steps :: InCall(t, s, steps, i) && Run(t, s, steps).shared.tvalBumps == s.shared.tvalBumps ==>
        Whole(Run(t, s, steps), i)
  {
    hide Run, InCall, TurnsOf, Ok;
    if Quiet(s.shared) {
      forall steps | Run(t, s, steps).shared.tvalBumps == s.shared.tvalBumps
        ensures Whole(Run(t, s, steps), i)
      {
        if Run(t, s, steps).readers[i].Accepted? {
          var k := CallIsWhole(t, s, steps, i);
          BumpsGrow(t, s, steps[..k]);
          BumpsGrow(t, Run(t, s, steps[..k]), steps[k..]);
          StaysQuiet(t, s, steps[..k]);
        }
      }
    } else {
      var steps := TornRound(t, s, i);
    }
  }

  /** A snapshot can be torn: the reader begins between the bump and the stores, and takes the
      seconds before and the microseconds after they are stored. */
  lemma Torn(t: Times)
    ensures var w, r := WriterStep(true), ReaderStep(0);
            var s := Run(t, Start(1, 0), [w, r, r, w, w, r, r]);
            s.readers[..] == [Accepted(Counted(t.tvalBase, 1), 1, 1, false, t.sec(0), 0, t.usec(1), 1)]
  {
    var w, r := WriterStep(true), ReaderStep(0);
    var s0 := Start(1, 0);
    var s1 := Apply(t, s0, w);
    var s2 := Apply(t, s1, r);
    var s3 := Apply(t, s2, r);
    var s4 := Apply(t, s3, w);
    var s5 := Apply(t, s4, w);
    var s6 := Apply(t, s5, r);
    var s7 := Apply(t, s6, r);
    var steps := [w, r, r, w, w, r, r];
    assert steps[1..] == [r, r, w, w, r, r] && [r, r, w, w, r, r][1..] == [r, w, w, r, r];
    assert [r, w, w, r, r][1..] == [w, w, r, r] && [w, w, r, r][1..] == [w, r, r];
    assert [w, r, r][1..] == [r, r] && [r, r][1..] == [r] && [r][1..] == [];
    hide Apply;
    assert Run(t, s6, [r]) == s7;
    assert Run(t, s5, [r, r]) == s7;
    assert Run(t, s4, [w, r, r]) == s7;
    assert Run(t, s3, [w, w, r, r]) == s7;
    assert Run(t, s2, [r, w, w, r, r]) == s7;
    assert Run(t, s1, [r, r, w, w, r, r]) == s7;
  }
}
