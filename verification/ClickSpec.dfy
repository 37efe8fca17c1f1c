/**
 The click pipeline as a state machine: a bounded queue, a batch, a table, and
 spool files for batches the table would not take.

 What the environment decides, such as whether an insert succeeds, comes with
 each step. Ledgers of events record where each one went.
 */
module ClickSpec {
  import opened Wrappers

  /** A click as the redirect handler saw it. Whether the visitor is a bot follows from its user agent. */
  datatype Event = Event(link: string, ts: int, isBot: bool, visitor: int)

  /** An event with what the enrichment found out. */
  datatype Click = Click(event: Event, country: string)

  /** A line of a spool file; nothing can be decoded from a torn one on. */
  datatype Line = Record(click: Click) | Torn

  /**
   What became of one line while a file was written: a click that cannot be
   encoded leaves nothing, a failed write leaves nothing or part of a line.
   */
  datatype Outcome = Written | Unencodable | Failed | Cut

  /** A spool file, named by the time of its creation. */
  datatype File = File(name: int, lines: seq<Line>)

  datatype Table = Table(clicks: seq<Click>, counts: map<string, int>)

  datatype Phase = Running | Draining | Returned(afterClose: bool)

  datatype Config = Config(queueSize: nat, batchSize: nat, spools: bool)

  datatype State = State(
    config: Config, countBots: bool, phase: Phase, closed: bool,
    queue: seq<Event>, batch: seq<Click>, table: Table, files: seq<File>,
    given: seq<Event>, dropped: seq<Event>, lost: seq<Event>, doubled: seq<Event>)

  /** The outside world during one flush: how many inserts fail, and how spooling goes. */
  datatype Env = Env(failures: nat, makes: bool, opens: bool, name: int, outcomes: seq<Outcome>)

  /** The outside world during the replay of one file. */
  datatype Try = Try(opens: bool, inserts: bool, removes: bool)

  datatype Op =
    | Enqueue(event: Event)
    | SetCountBots(on: bool)
    | Close
    | Receive(country: Option<string>, env: Env)
    | Tick(env: Env)
    | Cancel
    | Drain(country: Option<string>)
    | Finish(env: Env)
    | Restart(tries: seq<Try>)

  const ATTEMPTS: nat := 4

  // ------------------------------------------------------------------ table

  /** How often a batch counts for a link. */
  function Counted(clicks: seq<Click>, countBots: bool, link: string): nat {
    if clicks == [] then 0
    else
      var e := clicks[|clicks| - 1].event;
      Counted(clicks[..|clicks| - 1], countBots, link) + (if e.link == link && (countBots || !e.isBot) then 1 else 0)
  }

  function Bumped(counts: map<string, int>, clicks: seq<Click>, countBots: bool): map<string, int> {
    map link | link in counts :: counts[link] + Counted(clicks, countBots, link)
  }

  /** The transaction: all rows, and the counters of the links that exist. */
  function Inserted(t: Table, clicks: seq<Click>, countBots: bool): Table {
    Table(t.clicks + clicks, Bumped(t.counts, clicks, countBots))
  }

  // ------------------------------------------------------------------ files

  function EventsOf(clicks: seq<Click>): seq<Event> {
    seq(|clicks|, i requires 0 <= i < |clicks| => clicks[i].event)
  }

  function Recorded(lines: seq<Line>): seq<Event> {
    if lines == [] then []
    else
      var l := lines[|lines| - 1];
      Recorded(lines[..|lines| - 1]) + (if l.Record? then [l.click.event] else [])
  }

  function Spooled(files: seq<File>): seq<Event> {
    if files == [] then [] else Spooled(files[..|files| - 1]) + Recorded(files[|files| - 1].lines)
  }

  /** The encoder of a file remembers a failed write and writes nothing from then on. */
  predicate Stopped(outcomes: seq<Outcome>, i: nat) {
    exists j :: 0 <= j < i && j < |outcomes| && outcomes[j] in {Failed, Cut}
  }

  function OutcomeOf(outcomes: seq<Outcome>, i: nat): Outcome {
    if Stopped(outcomes, i) then Failed else if i < |outcomes| then outcomes[i] else Written
  }

  /** The lines a batch leaves in its file. */
  function Encode(clicks: seq<Click>, outcomes: seq<Outcome>): seq<Line> {
    if clicks == [] then []
    else
      var n := |clicks| - 1;
      Encode(clicks[..n], outcomes) + LineOf(clicks[n], OutcomeOf(outcomes, n))
  }

  function LineOf(c: Click, o: Outcome): seq<Line> {
    match o
    case Written => [Record(c)]
    case Cut => [Torn]
    case _ => []
  }

  /** The events whose lines were not written. */
  function Unwritten(clicks: seq<Click>, outcomes: seq<Outcome>): seq<Event> {
    if clicks == [] then []
    else
      var n := |clicks| - 1;
      Unwritten(clicks[..n], outcomes)
      + (if OutcomeOf(outcomes, n) == Written then [] else [clicks[n].event])
  }

  /** The number of lines before the first torn one. */
  function Readable(lines: seq<Line>): (n: nat)
    ensures n <= |lines| && (forall i :: 0 <= i < n ==> lines[i].Record?) && (n < |lines| ==> lines[n].Torn?)
  {
    if lines == [] || lines[0].Torn? then 0 else 1 + Readable(lines[1..])
  }

  function ClicksOf(lines: seq<Line>): seq<Click>
    requires forall i :: 0 <= i < |lines| ==> lines[i].Record?
  {
    seq(|lines|, i requires 0 <= i < |lines| => lines[i].click)
  }

  /** What the decoder gets out of a file. */
  function Decode(lines: seq<Line>): seq<Click> {
    ClicksOf(lines[..Readable(lines)])
  }

  /** The events recorded behind a torn line. */
  function Behind(lines: seq<Line>): seq<Event> {
    Recorded(lines[Readable(lines)..])
  }

  predicate NameTaken(files: seq<File>, name: int) {
    exists i :: 0 <= i < |files| && files[i].name == name
  }

  /** The directory in name order, with one more file. */
  function WithFile(files: seq<File>, f: File): seq<File> {
    if files == [] || files[|files| - 1].name < f.name then files + [f]
    else WithFile(files[..|files| - 1], f) + [files[|files| - 1]]
  }

  // ------------------------------------------------------------------ steps

  /** One event taken off the queue: into the batch, or dropped when the enrichment panics. */
  function Taken(s: State, country: Option<string>): State
    requires s.queue != []
  {
    var e := s.queue[0];
    var t := s.(queue := s.queue[1..]);
    if country.Some? then t.(batch := s.batch + [Click(e, country.value)])
    else t.(dropped := s.dropped + [e])
  }

  predicate CanSpool(s: State, env: Env) {
    s.config.spools && env.makes && env.opens && !NameTaken(s.files, env.name)
  }

  function SpoolBatch(s: State, env: Env): State {
    if CanSpool(s, env) then
      s.(batch := [], files := WithFile(s.files, File(env.name, Encode(s.batch, env.outcomes))),
         lost := s.lost + Unwritten(s.batch, env.outcomes))
    else
      s.(batch := [], dropped := s.dropped + EventsOf(s.batch))
  }

  function Flush(s: State, env: Env): State {
    if s.batch == [] then s
    else if env.failures < ATTEMPTS then
      s.(batch := [], table := Inserted(s.table, s.batch, s.countBots))
    else
      SpoolBatch(s, env)
  }

  /** The replay of the spool, part way through the directory. */
  datatype Replay = Replay(table: Table, kept: seq<File>, lost: seq<Event>, doubled: seq<Event>)

  function TryAt(tries: seq<Try>, i: nat): Try {
    if i < |tries| then tries[i] else Try(false, false, false)
  }

  /** Whether the replay of a file ends in an attempt to remove it. */
  predicate Replays(f: File, how: Try) {
    how.opens && (Decode(f.lines) == [] || how.inserts)
  }

  function ReplayOne(r: Replay, f: File, how: Try, countBots: bool): Replay {
    if !Replays(f, how) then r.(kept := r.kept + [f])
    else
      var clicks := Decode(f.lines);
      var t := r.(table := if clicks == [] then r.table else Inserted(r.table, clicks, countBots));
      if how.removes then t.(lost := r.lost + Behind(f.lines))
      else t.(kept := r.kept + [f], doubled := r.doubled + EventsOf(clicks))
  }

  /** The replay after the first files of the directory. */
  function ReplayFiles(table: Table, files: seq<File>, tries: seq<Try>, countBots: bool): Replay {
    if files == [] then Replay(table, [], [], [])
    else
      var n := |files| - 1;
      ReplayOne(ReplayFiles(table, files[..n], tries, countBots), files[n], TryAt(tries, n), countBots)
  }

  /** The next process: what was still queued is gone, and the spool is replayed if there is one. */
  function Restarted(s: State, tries: seq<Try>): State {
    var t := s.(phase := Running, closed := false, queue := [], lost := s.lost + s.queue);
    if !s.config.spools then t
    else
      var r := ReplayFiles(s.table, s.files, tries, s.countBots);
      t.(table := r.table, files := r.kept, lost := t.lost + r.lost, doubled := s.doubled + r.doubled)
  }

  function Offered(s: State, e: Event): State {
    var t := s.(given := s.given + [e]);
    if |s.queue| < s.config.queueSize then t.(queue := s.queue + [e]) else t.(dropped := s.dropped + [e])
  }

  predicate Enabled(s: State, op: Op) {
    match op
    case Enqueue(_) => !s.closed
    case SetCountBots(_) => true
    case Close => !s.closed
    case Receive(_, _) => s.phase == Running && s.queue != []
    case Tick(_) => s.phase == Running
    case Cancel => s.phase == Running
    case Drain(_) => s.phase == Draining && s.queue != []
    case Finish(_) => s.queue == [] && (s.phase == Draining || (s.phase == Running && s.closed))
    case Restart(_) => s.phase.Returned?
  }

  function Step(s: State, op: Op): State
    requires Enabled(s, op)
  {
    match op
    case Enqueue(e) => Offered(s, e)
    case SetCountBots(on) => s.(countBots := on)
    case Close => s.(closed := true)
    case Receive(country, env) =>
      var t := Taken(s, country);
      if |t.batch| >= s.config.batchSize then Flush(t, env) else t
    case Tick(env) => Flush(s, env)
    case Cancel => s.(phase := Draining)
    case Drain(country) => Taken(s, country)
    case Finish(env) => Flush(s, env).(phase := Returned(s.closed))
    case Restart(tries) => Restarted(s, tries)
  }

  /** A new writer on a table as it stands; the events already stored count as given. */
  function Start(config: Config, countBots: bool, table: Table): State {
    State(config, countBots, Running, false, [], [], table, [], EventsOf(table.clicks), [], [], [])
  }

  predicate Possible(s: State, run: seq<Op>)
    decreases |run|
  {
    run == [] || (Enabled(s, run[0]) && Possible(Step(s, run[0]), run[1..]))
  }

  function Exec(s: State, run: seq<Op>): State
    requires Possible(s, run)
    decreases |run|
  {
    if run == [] then s else Exec(Step(s, run[0]), run[1..])
  }
}

/** Where the events of a run end up. */
module ClickLedger {
  import opened Wrappers
  import opened ClickSpec

  /** How often an event occurs. */
  function Times(e: Event, events: seq<Event>): nat {
    if events == [] then 0
    else Times(e, events[..|events| - 1]) + (if events[|events| - 1] == e then 1 else 0)
  }

  lemma {:induction false} TimesConcat(e: Event, a: seq<Event>, b: seq<Event>)
    ensures Times(e, a + b) == Times(e, a) + Times(e, b)
  {
    if b == [] {
      assert a + b == a;
    } else {
      TimesConcat(e, a, b[..|b| - 1]);
      assert (a + b)[..|a + b| - 1] == a + b[..|b| - 1];
    }
  }

  lemma TimesOneMore(e: Event, events: seq<Event>, event: Event)
    ensures Times(e, events + [event]) == Times(e, events) + (if event == e then 1 else 0)
  {
    assert (events + [event])[..|events|] == events;
  }

  lemma EventsOfConcat(a: seq<Click>, b: seq<Click>)
    ensures EventsOf(a + b) == EventsOf(a) + EventsOf(b)
  {
  }

  lemma {:induction false} RecordedConcat(a: seq<Line>, b: seq<Line>)
    ensures Recorded(a + b) == Recorded(a) + Recorded(b)
  {
    if b == [] {
      assert a + b == a;
    } else {
      RecordedConcat(a, b[..|b| - 1]);
      assert (a + b)[..|a + b| - 1] == a + b[..|b| - 1];
    }
  }

  lemma LineConserves(c: Click, o: Outcome, e: Event)
    ensures Times(e, [c.event]) == Times(e, Recorded(LineOf(c, o))) + Times(e, if o == Written then [] else [c.event])
  {
    var line := LineOf(c, o);
    if line != [] { assert line[..0] == []; }
    if o == Written { assert Recorded(line) == [c.event]; }
  }

  lemma {:induction false} EncodeConserves(clicks: seq<Click>, outcomes: seq<Outcome>, e: Event)
    ensures Times(e, EventsOf(clicks)) ==
            Times(e, Recorded(Encode(clicks, outcomes))) + Times(e, Unwritten(clicks, outcomes))
  {
    if clicks != [] {
      var n := |clicks| - 1;
      var c, o := clicks[n], OutcomeOf(outcomes, n);
      var front, line := clicks[..n], LineOf(c, o);
      assert Times(e, EventsOf(clicks)) == Times(e, EventsOf(front)) + Times(e, [c.event]) by {
        assert EventsOf(clicks) == EventsOf(front) + [c.event];
        TimesConcat(e, EventsOf(front), [c.event]);
      }
      assert Times(e, Recorded(Encode(clicks, outcomes))) ==
             Times(e, Recorded(Encode(front, outcomes))) + Times(e, Recorded(line)) by {
        RecordedConcat(Encode(front, outcomes), line);
        TimesConcat(e, Recorded(Encode(front, outcomes)), Recorded(line));
      }
      TimesConcat(e, Unwritten(front, outcomes), if o == Written then [] else [c.event]);
      LineConserves(c, o, e);
      EncodeConserves(front, outcomes, e);
    }
  }

  lemma {:induction false} RecordsAreClicks(lines: seq<Line>)
    requires forall i :: 0 <= i < |lines| ==> lines[i].Record?
    ensures EventsOf(ClicksOf(lines)) == Recorded(lines)
  {
    if lines != [] {
      var n := |lines| - 1;
      RecordsAreClicks(lines[..n]);
      assert ClicksOf(lines)[..n] == ClicksOf(lines[..n]);
    }
  }

  lemma RecordedSplit(lines: seq<Line>, n: nat)
    requires n <= |lines|
    ensures Recorded(lines) == Recorded(lines[..n]) + Recorded(lines[n..])
  {
    RecordedConcat(lines[..n], lines[n..]);
    assert lines[..n] + lines[n..] == lines;
  }

  lemma DecodeConserves(lines: seq<Line>)
    ensures Recorded(lines) == EventsOf(Decode(lines)) + Behind(lines)
  {
    RecordsAreClicks(lines[..Readable(lines)]);
    RecordedSplit(lines, Readable(lines));
  }

  lemma SpooledOneMore(files: seq<File>, f: File, e: Event)
    ensures Times(e, Spooled(files + [f])) == Times(e, Spooled(files)) + Times(e, Recorded(f.lines))
  {
    assert (files + [f])[..|files|] == files;
    TimesConcat(e, Spooled(files), Recorded(f.lines));
  }

  lemma SpooledLast(files: seq<File>, e: Event)
    requires files != []
    ensures Times(e, Spooled(files)) ==
            Times(e, Spooled(files[..|files| - 1])) + Times(e, Recorded(files[|files| - 1].lines))
  {
    TimesConcat(e, Spooled(files[..|files| - 1]), Recorded(files[|files| - 1].lines));
  }

  lemma {:induction false} SpooledWithFile(files: seq<File>, f: File, e: Event)
    ensures Times(e, Spooled(WithFile(files, f))) == Times(e, Spooled(files)) + Times(e, Recorded(f.lines))
  {
    if files == [] || files[|files| - 1].name < f.name {
      SpooledOneMore(files, f, e);
    } else {
      SpooledWithFile(files[..|files| - 1], f, e);
      SpooledOneMore(WithFile(files[..|files| - 1], f), files[|files| - 1], e);
      SpooledLast(files, e);
    }
  }

  /** Where the table and the files hold an event. */
  function Held(table: Table, files: seq<File>, e: Event): nat {
    Times(e, EventsOf(table.clicks)) + Times(e, Spooled(files))
  }

  /** The event is in one place each time it was given, but for the times written down as doubled. */
  ghost predicate Balanced(s: State, e: Event) {
    Times(e, s.given) + Times(e, s.doubled) ==
    Times(e, s.dropped) + Times(e, s.queue) + Times(e, EventsOf(s.batch)) + Held(s.table, s.files, e) + Times(e, s.lost)
  }

  lemma TakenBalances(s: State, country: Option<string>, e: Event)
    requires Balanced(s, e) && s.queue != []
    ensures Balanced(Taken(s, country), e)
  {
    var first := s.queue[0];
    assert s.queue == [first] + s.queue[1..];
    TimesConcat(e, [first], s.queue[1..]);
    if country.Some? {
      var c := Click(first, country.value);
      EventsOfConcat(s.batch, [c]);
      assert EventsOf([c]) == [first];
      TimesConcat(e, EventsOf(s.batch), [first]);
    } else {
      TimesConcat(e, s.dropped, [first]);
    }
  }

  lemma OfferedBalances(s: State, event: Event, e: Event)
    requires Balanced(s, e)
    ensures Balanced(Offered(s, event), e)
  {
    var t := Offered(s, event);
    assert Held(t.table, t.files, e) == Held(s.table, s.files, e) && EventsOf(t.batch) == EventsOf(s.batch);
    TimesOneMore(e, s.given, event);
    if |s.queue| < s.config.queueSize {
      TimesOneMore(e, s.queue, event);
    } else {
      TimesOneMore(e, s.dropped, event);
    }
  }

  lemma SpoolBalances(s: State, env: Env, e: Event)
    requires Balanced(s, e)
    ensures Balanced(SpoolBatch(s, env), e)
  {
    if CanSpool(s, env) {
      EncodeConserves(s.batch, env.outcomes, e);
      SpooledWithFile(s.files, File(env.name, Encode(s.batch, env.outcomes)), e);
      TimesConcat(e, s.lost, Unwritten(s.batch, env.outcomes));
    } else {
      TimesConcat(e, s.dropped, EventsOf(s.batch));
    }
  }

  lemma InsertedHolds(t: Table, clicks: seq<Click>, countBots: bool, e: Event)
    ensures Times(e, EventsOf(Inserted(t, clicks, countBots).clicks)) ==
            Times(e, EventsOf(t.clicks)) + Times(e, EventsOf(clicks))
  {
    EventsOfConcat(t.clicks, clicks);
    TimesConcat(e, EventsOf(t.clicks), EventsOf(clicks));
  }

  lemma FlushBalances(s: State, env: Env, e: Event)
    requires Balanced(s, e)
    ensures Balanced(Flush(s, env), e)
  {
    if s.batch != [] {
      if env.failures < ATTEMPTS {
        InsertedHolds(s.table, s.batch, s.countBots, e);
      } else {
        SpoolBalances(s, env, e);
      }
    }
  }

  lemma ReplayOneBalances(r: Replay, f: File, how: Try, countBots: bool, e: Event)
    ensures var t := ReplayOne(r, f, how, countBots);
            Held(r.table, r.kept, e) + Times(e, r.lost) + Times(e, Recorded(f.lines)) + Times(e, t.doubled) ==
            Held(t.table, t.kept, e) + Times(e, t.lost) + Times(e, r.doubled)
  {
    if !Replays(f, how) {
      SpooledOneMore(r.kept, f, e);
    } else {
      var clicks := Decode(f.lines);
      assert Times(e, Recorded(f.lines)) == Times(e, EventsOf(clicks)) + Times(e, Behind(f.lines)) by {
        DecodeConserves(f.lines);
        TimesConcat(e, EventsOf(clicks), Behind(f.lines));
      }
      InsertedHolds(r.table, clicks, countBots, e);
      if how.removes {
        TimesConcat(e, r.lost, Behind(f.lines));
      } else {
        SpooledOneMore(r.kept, f, e);
        TimesConcat(e, r.doubled, EventsOf(clicks));
      }
    }
  }

  lemma {:induction false} ReplayBalances(table: Table, files: seq<File>, tries: seq<Try>, countBots: bool, e: Event)
    ensures var r := ReplayFiles(table, files, tries, countBots);
            Held(table, files, e) + Times(e, r.doubled) == Held(r.table, r.kept, e) + Times(e, r.lost)
  {
    if files != [] {
      var n := |files| - 1;
      ReplayBalances(table, files[..n], tries, countBots, e);
      ReplayOneBalances(ReplayFiles(table, files[..n], tries, countBots), files[n], TryAt(tries, n), countBots, e);
      SpooledLast(files, e);
    }
  }

  lemma RestartBalances(s: State, tries: seq<Try>, e: Event)
    requires Balanced(s, e)
    ensures Balanced(Restarted(s, tries), e)
  {
    TimesConcat(e, s.lost, s.queue);
    if s.config.spools {
      var r := ReplayFiles(s.table, s.files, tries, s.countBots);
      ReplayBalances(s.table, s.files, tries, s.countBots, e);
      TimesConcat(e, s.lost + s.queue, r.lost);
      TimesConcat(e, s.doubled, r.doubled);
    }
  }

  lemma StepBalances(s: State, op: Op, e: Event)
    requires Balanced(s, e) && Enabled(s, op)
    ensures Balanced(Step(s, op), e)
  {
    match op
    case Enqueue(event) => OfferedBalances(s, event, e);
    case Receive(country, env) =>
      TakenBalances(s, country, e);
      FlushBalances(Taken(s, country), env, e);
    case Tick(env) => FlushBalances(s, env, e);
    case Drain(country) => TakenBalances(s, country, e);
    case Finish(env) => FlushBalances(s, env, e);
    case Restart(tries) => RestartBalances(s, tries, e);
    case _ =>
  }

  lemma {:induction false} RunBalances(s: State, run: seq<Op>, e: Event)
    requires Balanced(s, e) && Possible(s, run)
    ensures Balanced(Exec(s, run), e)
    decreases |run|
  {
    if run != [] {
      StepBalances(s, run[0], e);
      RunBalances(Step(s, run[0]), run[1..], e);
    }
  }

  // ------------------------------------------------------ what holds on return

  /** The bounds on queue and batch, and what is left when the writer has returned. */
  ghost predicate Settled(s: State) {
    && s.config.batchSize >= 1 && |s.queue| <= s.config.queueSize
    && (s.phase == Running ==> |s.batch| < s.config.batchSize)
    && (s.phase.Returned? ==> s.batch == [])
    && (s.phase == Returned(true) ==> s.closed && s.queue == [])
  }

  lemma FlushEmptiesTheBatch(s: State, env: Env)
    ensures var t := Flush(s, env);
            t.batch == [] && t.config == s.config && t.queue == s.queue && t.phase == s.phase && t.closed == s.closed
  {
  }

  lemma StepKeepsSettled(s: State, op: Op)
    requires Settled(s) && Enabled(s, op)
    ensures Settled(Step(s, op))
  {
    match op
    case Receive(country, env) => FlushEmptiesTheBatch(Taken(s, country), env);
    case Tick(env) => FlushEmptiesTheBatch(s, env);
    case Finish(env) => FlushEmptiesTheBatch(s, env);
    case _ =>
  }

  lemma {:induction false} RunKeepsSettled(s: State, run: seq<Op>)
    requires Settled(s) && Possible(s, run)
    ensures Settled(Exec(s, run))
    decreases |run|
  {
    if run != [] {
      StepKeepsSettled(s, run[0]);
      RunKeepsSettled(Step(s, run[0]), run[1..]);
    }
  }

  /** The order of a shutdown: the context is cancelled only after the queue was closed. */
  predicate Orderly(s: State, run: seq<Op>)
    requires Possible(s, run)
    decreases |run|
  {
    run == [] || ((run[0].Cancel? ==> s.closed) && Orderly(Step(s, run[0]), run[1..]))
  }

  /** In an orderly run the writer returns only after the close. */
  lemma {:induction false} OrderlyReturnsAfterClose(s: State, run: seq<Op>)
    requires Possible(s, run) && Orderly(s, run)
    requires (s.phase == Draining ==> s.closed) && s.phase != Returned(false)
    ensures Exec(s, run).phase != Returned(false)
    decreases |run|
  {
    if run != [] { OrderlyReturnsAfterClose(Step(s, run[0]), run[1..]); }
  }

  // ------------------------------------------------------ what stays behind

  /** Whether an event came after the last return, given whether one had before. */
  function LateAfter(run: seq<Op>, late: bool): bool {
    if run == [] then late else LateAfter(run[1..], LateNext(run[0], late))
  }

  function LateNext(op: Op, late: bool): bool {
    match op
    case Enqueue(_) => true
    case Finish(_) => false
    case _ => late
  }

  /** The run holds an Enqueue after its last Finish. */
  predicate EnqueuesLate(run: seq<Op>) {
    exists i :: 0 <= i < |run| && run[i].Enqueue? && forall j :: i < j < |run| ==> !run[j].Finish?
  }

  lemma {:induction false} LateIsAfterFinish(run: seq<Op>, late: bool)
    ensures LateAfter(run, late) <==>
              EnqueuesLate(run) || (late && forall j :: 0 <= j < |run| ==> !run[j].Finish?)
  {
    if run != [] {
      var rest := run[1..];
      assert forall i :: 0 <= i < |rest| ==> rest[i] == run[i + 1];
      LateIsAfterFinish(rest, LateNext(run[0], late));
      if i :| 0 <= i < |rest| && rest[i].Enqueue? && forall j :: i < j < |rest| ==> !rest[j].Finish? {
        assert run[i + 1].Enqueue? && forall j :: i + 1 < j < |run| ==> !run[j].Finish? by {
          forall j | i + 1 < j < |run| ensures !run[j].Finish? { assert rest[j - 1] == run[j]; }
        }
      }
      if i :| 0 <= i < |run| && run[i].Enqueue? && forall j :: i < j < |run| ==> !run[j].Finish? {
        if i > 0 {
          assert rest[i - 1].Enqueue? && forall j :: i - 1 < j < |rest| ==> !rest[j].Finish?;
        } else {
          assert forall j :: 0 <= j < |rest| ==> !rest[j].Finish?;
        }
      }
    }
  }

  lemma LateEventStays(s: State, op: Op, late: bool)
    requires Enabled(s, op) && s.config.queueSize >= 1
    requires s.phase.Returned? ==> (s.queue == [] <==> !late)
    ensures var t := Step(s, op);
            && t.config == s.config
            && (t.phase.Returned? ==> (t.queue == [] <==> !LateNext(op, late)))
  {
    match op
    case Receive(country, env) => FlushEmptiesTheBatch(Taken(s, country), env);
    case Tick(env) => FlushEmptiesTheBatch(s, env);
    case Finish(env) => FlushEmptiesTheBatch(s, env);
    case _ =>
  }

  /** While the writer has returned, the queue is empty unless an event came too late. */
  lemma {:induction false} LateEventsStay(s: State, run: seq<Op>, late: bool)
    requires Possible(s, run) && s.config.queueSize >= 1
    requires s.phase.Returned? ==> (s.queue == [] <==> !late)
    ensures var t := Exec(s, run); t.phase.Returned? ==> (t.queue == [] <==> !LateAfter(run, late))
    decreases |run|
  {
    if run != [] {
      LateEventStays(s, run[0], late);
      LateEventsStay(Step(s, run[0]), run[1..], LateNext(run[0], late));
    }
  }

  /**
   When the writer has returned, its queue is empty if and only if no event
   was offered after its last return.
   */
  lemma QueueIsEmptyIffNothingCameLate(config: Config, countBots: bool, table: Table, run: seq<Op>)
    requires config.queueSize >= 1 && Possible(Start(config, countBots, table), run)
    requires Exec(Start(config, countBots, table), run).phase.Returned?
    ensures Exec(Start(config, countBots, table), run).queue == [] <==> !EnqueuesLate(run)
  {
    LateEventsStay(Start(config, countBots, table), run, false);
    LateIsAfterFinish(run, false);
  }

  /** After an orderly return nothing is offered: the queue is closed until the next start. */
  lemma {:induction false} NothingIsOfferedLate(s: State, run: seq<Op>)
    requires Possible(s, run) && Orderly(s, run)
    requires s.phase.Returned? || s.phase == Draining ==> s.closed
    ensures Exec(s, run).phase.Returned? ==> Exec(s, run).closed && !LateAfter(run, false)
    decreases |run|
  {
    if run != [] {
      NothingIsOfferedLate(Step(s, run[0]), run[1..]);
      if run[0].Enqueue? && Exec(s, run).phase.Returned? { LateOnlyIfNoFinish(Step(s, run[0]), run[1..]); }
    }
  }

  /** A writer that has not returned returns by a Finish, which forgets what came before. */
  lemma {:induction false} LateOnlyIfNoFinish(s: State, run: seq<Op>)
    requires Possible(s, run) && !s.phase.Returned? && Exec(s, run).phase.Returned?
    ensures LateAfter(run, true) == LateAfter(run, false)
    decreases |run|
  {
    if run[0].Finish? {
    } else if run[0].Enqueue? {
    } else {
      LateOnlyIfNoFinish(Step(s, run[0]), run[1..]);
    }
  }

  /** Once returned, an orderly run has left nothing in queue or batch. */
  lemma NothingIsLeftBehind(config: Config, countBots: bool, table: Table, run: seq<Op>)
    requires config.batchSize >= 1
    requires Possible(Start(config, countBots, table), run) && Orderly(Start(config, countBots, table), run)
    ensures var t := Exec(Start(config, countBots, table), run);
            t.phase.Returned? ==> t.closed && t.queue == [] && t.batch == []
  {
    var s := Start(config, countBots, table);
    RunKeepsSettled(s, run);
    if config.queueSize >= 1 {
      NothingIsOfferedLate(s, run);
      LateEventsStay(s, run, false);
    } else {
      NothingIsOfferedLate(s, run);
      ConfigStays(s, run);
    }
  }

  /** Cancelled before the close, the writer returns and leaves later events in the queue. */
  lemma EarlyCancelStrandsEvents(config: Config, countBots: bool, table: Table, env: Env, e: Event)
    requires config.batchSize >= 1 && config.queueSize >= 1
    ensures var run := [Cancel, Finish(env), Enqueue(e), Close];
            && Possible(Start(config, countBots, table), run) && EnqueuesLate(run)
            && var t := Exec(Start(config, countBots, table), run); t.phase.Returned? && t.closed && t.queue == [e]
  {
    var s := Start(config, countBots, table);
    var s1 := Step(s, Cancel);
    var s2 := Step(s1, Finish(env));
    var s3 := Step(s2, Enqueue(e));
    var run := [Cancel, Finish(env), Enqueue(e), Close];
    assert run[1..] == [Finish(env), Enqueue(e), Close];
    assert run[1..][1..] == [Enqueue(e), Close];
    assert run[1..][1..][1..] == [Close];
    assert Possible(s3, [Close]) && Exec(s3, [Close]) == Step(s3, Close);
    assert Possible(s2, [Enqueue(e), Close]) && Exec(s2, [Enqueue(e), Close]) == Step(s3, Close);
    assert Possible(s1, run[1..]) && Exec(s1, run[1..]) == Step(s3, Close);
    assert run[2].Enqueue?;
  }

  // -------------------------------------------------------------- refusals

  /** A batch that goes: every attempt to insert it fails, and it cannot be spooled either. */
  predicate FlushFails(s: State, env: Env) {
    s.batch != [] && env.failures >= ATTEMPTS && !CanSpool(s, env)
  }

  /** The steps that lose an event on purpose: a full queue, a panic, or a batch with nowhere to go. */
  predicate Refuses(s: State, op: Op)
    requires Enabled(s, op)
  {
    match op
    case Enqueue(_) => |s.queue| >= s.config.queueSize
    case Receive(country, env) =>
      var t := Taken(s, country);
      country.None? || (|t.batch| >= s.config.batchSize && FlushFails(t, env))
    case Drain(country) => country.None?
    case Tick(env) => FlushFails(s, env)
    case Finish(env) => FlushFails(s, env)
    case _ => false
  }

  lemma FlushDropsIffItFails(s: State, env: Env)
    ensures s.dropped <= Flush(s, env).dropped
    ensures Flush(s, env).dropped == s.dropped <==> !FlushFails(s, env)
  {
    if FlushFails(s, env) { assert |EventsOf(s.batch)| > 0; }
  }

  lemma StepDropsIffRefused(s: State, op: Op)
    requires Enabled(s, op)
    ensures s.dropped <= Step(s, op).dropped
    ensures Step(s, op).dropped == s.dropped <==> !Refuses(s, op)
  {
    match op
    case Enqueue(e) => assert |s.dropped + [e]| > |s.dropped|;
    case Receive(country, env) => FlushDropsIffItFails(Taken(s, country), env);
    case Tick(env) => FlushDropsIffItFails(s, env);
    case Finish(env) => FlushDropsIffItFails(s, env);
    case _ =>
  }

  predicate NeverRefuses(s: State, run: seq<Op>)
    requires Possible(s, run)
    decreases |run|
  {
    run == [] || (!Refuses(s, run[0]) && NeverRefuses(Step(s, run[0]), run[1..]))
  }

  /** Over every run, the events dropped only grow, and grow exactly if some step had to refuse one. */
  lemma {:induction false} DropsIffRefused(s: State, run: seq<Op>)
    requires Possible(s, run)
    ensures s.dropped <= Exec(s, run).dropped
    ensures Exec(s, run).dropped == s.dropped <==> NeverRefuses(s, run)
    decreases |run|
  {
    if run != [] {
      StepDropsIffRefused(s, run[0]);
      DropsIffRefused(Step(s, run[0]), run[1..]);
    }
  }

  // ------------------------------------------------------------ clean runs

  /** No line is lost in writing, and every replayed file is removed. */
  predicate Clean(op: Op) {
    match op
    case Receive(_, env) => WritesAll(env)
    case Tick(env) => WritesAll(env)
    case Finish(env) => WritesAll(env)
    case Restart(tries) => forall i :: 0 <= i < |tries| ==> tries[i].removes
    case _ => true
  }

  predicate WritesAll(env: Env) {
    forall i :: 0 <= i < |env.outcomes| ==> env.outcomes[i] == Written
  }

  predicate TornFree(f: File) {
    forall i :: 0 <= i < |f.lines| ==> f.lines[i].Record?
  }

  /** No line is torn, and nothing was stored twice. */
  ghost predicate Intact(s: State) {
    s.doubled == [] && forall i :: 0 <= i < |s.files| ==> TornFree(s.files[i])
  }

  lemma {:induction false} EncodedIsTornFree(clicks: seq<Click>, outcomes: seq<Outcome>)
    requires forall i :: 0 <= i < |outcomes| ==> outcomes[i] == Written
    ensures (forall i :: 0 <= i < |Encode(clicks, outcomes)| ==> Encode(clicks, outcomes)[i].Record?)
    ensures Unwritten(clicks, outcomes) == []
  {
    if clicks != [] { EncodedIsTornFree(clicks[..|clicks| - 1], outcomes); }
  }

  lemma {:induction false} WithFileKeepsTornFree(files: seq<File>, f: File)
    requires TornFree(f) && forall i :: 0 <= i < |files| ==> TornFree(files[i])
    ensures forall i :: 0 <= i < |WithFile(files, f)| ==> TornFree(WithFile(files, f)[i])
  {
    if files != [] && files[|files| - 1].name >= f.name { WithFileKeepsTornFree(files[..|files| - 1], f); }
  }

  lemma FlushKeepsIntact(s: State, env: Env)
    requires Intact(s) && WritesAll(env)
    ensures Intact(Flush(s, env)) && Flush(s, env).lost == s.lost
  {
    if s.batch != [] && env.failures >= ATTEMPTS && CanSpool(s, env) {
      EncodedIsTornFree(s.batch, env.outcomes);
      WithFileKeepsTornFree(s.files, File(env.name, Encode(s.batch, env.outcomes)));
    }
  }

  lemma {:induction false} ReplayKeepsIntact(table: Table, files: seq<File>, tries: seq<Try>, countBots: bool)
    requires forall i :: 0 <= i < |files| ==> TornFree(files[i])
    requires forall i :: 0 <= i < |tries| ==> tries[i].removes
    ensures var r := ReplayFiles(table, files, tries, countBots);
            r.lost == [] && r.doubled == [] && forall i :: 0 <= i < |r.kept| ==> TornFree(r.kept[i])
  {
    if files != [] {
      var n := |files| - 1;
      ReplayKeepsIntact(table, files[..n], tries, countBots);
      assert TornFree(files[n]) && Behind(files[n].lines) == [];
    }
  }

  /** A clean step loses nothing, but a restart loses what is queued. */
  lemma StepKeepsIntact(s: State, op: Op)
    requires Intact(s) && Enabled(s, op) && Clean(op)
    ensures Intact(Step(s, op)) && Step(s, op).lost == s.lost + (if op.Restart? then s.queue else [])
  {
    match op
    case Receive(country, env) => FlushKeepsIntact(Taken(s, country), env);
    case Tick(env) => FlushKeepsIntact(s, env);
    case Finish(env) => FlushKeepsIntact(s, env);
    case Restart(tries) =>
      if s.config.spools { ReplayKeepsIntact(s.table, s.files, tries, s.countBots); }
    case _ =>
  }

  /** Every restart of the run finds the queue empty. */
  predicate RestartsEmpty(s: State, run: seq<Op>)
    requires Possible(s, run)
    decreases |run|
  {
    run == [] || ((run[0].Restart? ==> s.queue == []) && RestartsEmpty(Step(s, run[0]), run[1..]))
  }

  /** A clean run stores nothing twice, and loses something exactly if a restart finds the queue not empty. */
  lemma {:induction false} RunKeepsIntact(s: State, run: seq<Op>)
    requires Intact(s) && Possible(s, run) && forall i :: 0 <= i < |run| ==> Clean(run[i])
    ensures Intact(Exec(s, run)) && s.lost <= Exec(s, run).lost
    ensures Exec(s, run).lost == s.lost <==> RestartsEmpty(s, run)
    decreases |run|
  {
    if run != [] {
      StepKeepsIntact(s, run[0]);
      RunKeepsIntact(Step(s, run[0]), run[1..]);
    }
  }

  /** A restart after an orderly return finds the queue empty. */
  lemma {:induction false} OrderlyRestartsEmpty(s: State, run: seq<Op>)
    requires Settled(s) && (s.phase == Draining ==> s.closed) && s.phase != Returned(false)
    requires Possible(s, run) && Orderly(s, run)
    ensures RestartsEmpty(s, run)
    decreases |run|
  {
    if run != [] {
      StepKeepsSettled(s, run[0]);
      OrderlyRestartsEmpty(Step(s, run[0]), run[1..]);
    }
  }

  /** The event is dropped, queued, in the batch, stored or spooled, as often as it was given. */
  ghost predicate InFivePlaces(s: State, e: Event) {
    Times(e, s.given) == Times(e, s.dropped) + Times(e, s.queue) + Times(e, EventsOf(s.batch))
                         + Times(e, EventsOf(s.table.clicks)) + Times(e, Spooled(s.files))
  }

  lemma {:induction false} OccursTimes(events: seq<Event>, i: nat)
    requires i < |events|
    ensures Times(events[i], events) > 0
  {
    if i < |events| - 1 { OccursTimes(events[..|events| - 1], i); }
  }

  /**
   Over every clean run, however often the table or the disk refuses, each
   event given is in exactly one of five places, if and only if every restart
   finds the queue empty.
   */
  lemma EventsAreConserved(config: Config, countBots: bool, table: Table, run: seq<Op>)
    requires Possible(Start(config, countBots, table), run) && forall i :: 0 <= i < |run| ==> Clean(run[i])
    ensures (forall e :: InFivePlaces(Exec(Start(config, countBots, table), run), e))
            <==> RestartsEmpty(Start(config, countBots, table), run)
  {
    var t := Exec(Start(config, countBots, table), run);
    RunKeepsIntact(Start(config, countBots, table), run);
    forall e ensures InFivePlaces(t, e) <==> Times(e, t.lost) == 0 {
      RunBalances(Start(config, countBots, table), run, e);
    }
    if t.lost != [] {
      OccursTimes(t.lost, 0);
      assert !InFivePlaces(t, t.lost[0]);
    }
  }

  // ------------------------------------------------------- a healthy restart

  predicate Healthy(files: seq<File>, tries: seq<Try>) {
    |tries| == |files| && forall i :: 0 <= i < |tries| ==> tries[i] == Try(true, true, true)
  }

  /** Nothing stands behind a torn line. */
  predicate TornAtMostLast(lines: seq<Line>) {
    forall i :: 0 <= i < |lines| - 1 ==> lines[i].Record?
  }

  ghost predicate ReadableFiles(files: seq<File>) {
    forall i :: 0 <= i < |files| ==> TornAtMostLast(files[i].lines)
  }

  predicate EndsTorn(lines: seq<Line>) {
    lines != [] && lines[|lines| - 1].Torn?
  }

  lemma OneMoreLine(lines: seq<Line>, line: seq<Line>)
    requires TornAtMostLast(lines) && |line| <= 1 && (EndsTorn(lines) ==> line == [])
    ensures TornAtMostLast(lines + line) && (EndsTorn(lines + line) ==> EndsTorn(lines) || EndsTorn(line))
  {
    if line == [] { assert lines + line == lines; }
  }

  lemma StaysStopped(outcomes: seq<Outcome>, n: nat)
    ensures Stopped(outcomes, n) || OutcomeOf(outcomes, n) == Cut ==> Stopped(outcomes, n + 1)
  {
  }

  /** Once a line was torn the encoder is stopped, and the torn line stays the last. */
  lemma {:induction false} EncodedTornAtMostLast(clicks: seq<Click>, outcomes: seq<Outcome>)
    ensures TornAtMostLast(Encode(clicks, outcomes))
    ensures EndsTorn(Encode(clicks, outcomes)) ==> Stopped(outcomes, |clicks|)
  {
    if clicks != [] {
      var n := |clicks| - 1;
      EncodedTornAtMostLast(clicks[..n], outcomes);
      StaysStopped(outcomes, n);
      OneMoreLine(Encode(clicks[..n], outcomes), LineOf(clicks[n], OutcomeOf(outcomes, n)));
    }
  }

  lemma {:induction false} WithFileStaysReadable(files: seq<File>, f: File)
    requires TornAtMostLast(f.lines) && ReadableFiles(files)
    ensures ReadableFiles(WithFile(files, f))
  {
    if files != [] && files[|files| - 1].name >= f.name { WithFileStaysReadable(files[..|files| - 1], f); }
  }

  lemma FlushStaysReadable(s: State, env: Env)
    requires ReadableFiles(s.files)
    ensures ReadableFiles(Flush(s, env).files)
  {
    if s.batch != [] && env.failures >= ATTEMPTS && CanSpool(s, env) {
      EncodedTornAtMostLast(s.batch, env.outcomes);
      WithFileStaysReadable(s.files, File(env.name, Encode(s.batch, env.outcomes)));
    }
  }

  lemma {:induction false} ReplayStaysReadable(table: Table, files: seq<File>, tries: seq<Try>, countBots: bool)
    requires ReadableFiles(files)
    ensures ReadableFiles(ReplayFiles(table, files, tries, countBots).kept)
  {
    if files != [] { ReplayStaysReadable(table, files[..|files| - 1], tries, countBots); }
  }

  lemma {:induction false} RunStaysReadable(s: State, run: seq<Op>)
    requires ReadableFiles(s.files) && Possible(s, run)
    ensures ReadableFiles(Exec(s, run).files)
    decreases |run|
  {
    if run != [] {
      match run[0] {
        case Receive(country, env) => FlushStaysReadable(Taken(s, country), env);
        case Tick(env) => FlushStaysReadable(s, env);
        case Finish(env) => FlushStaysReadable(s, env);
        case Restart(tries) => ReplayStaysReadable(s.table, s.files, tries, s.countBots);
        case _ =>
      }
      RunStaysReadable(Step(s, run[0]), run[1..]);
    }
  }

  lemma NothingBehind(lines: seq<Line>)
    requires TornAtMostLast(lines)
    ensures Behind(lines) == []
  {
    var n := Readable(lines);
    if n < |lines| {
      assert n == |lines| - 1;
      assert lines[n..] == [Torn] && [Torn][..0] == [];
    }
    assert Recorded(lines[n..]) == [];
  }

  lemma {:induction false} HealthyReplay(table: Table, files: seq<File>, tries: seq<Try>, countBots: bool)
    requires ReadableFiles(files) && |files| <= |tries|
    requires forall i :: 0 <= i < |tries| ==> tries[i] == Try(true, true, true)
    ensures var r := ReplayFiles(table, files, tries, countBots); r.kept == [] && r.doubled == [] && r.lost == []
  {
    if files != [] {
      HealthyReplay(table, files[..|files| - 1], tries, countBots);
      NothingBehind(files[|files| - 1].lines);
    }
  }

  /**
   After every run, whatever failed in it, a restart with a healthy table and
   disk empties the spool and stores each spooled event exactly once.
   */
  lemma HealthyRestartStoresTheSpool(
    config: Config, countBots: bool, table: Table, run: seq<Op>, tries: seq<Try>, e: Event)
    requires Possible(Start(config, countBots, table), run) && config.spools
    requires var s := Exec(Start(config, countBots, table), run);
             Enabled(s, Restart(tries)) && Healthy(s.files, tries)
    ensures var s := Exec(Start(config, countBots, table), run);
            var t := Step(s, Restart(tries));
            && t.files == []
            && Times(e, EventsOf(t.table.clicks)) == Times(e, EventsOf(s.table.clicks)) + Times(e, Spooled(s.files))
            && t.doubled == s.doubled && t.lost == s.lost + s.queue
  {
    var s := Exec(Start(config, countBots, table), run);
    RunStaysReadable(Start(config, countBots, table), run);
    ConfigStays(Start(config, countBots, table), run);
    HealthyReplay(s.table, s.files, tries, s.countBots);
    ReplayBalances(s.table, s.files, tries, s.countBots, e);
  }

  lemma {:induction false} ConfigStays(s: State, run: seq<Op>)
    requires Possible(s, run)
    ensures Exec(s, run).config == s.config
    decreases |run|
  {
    if run != [] { ConfigStays(Step(s, run[0]), run[1..]); }
  }
}

/** How the click counters of the links follow the stored clicks. */
module ClickCounts {
  import opened ClickSpec

  lemma {:induction false} CountedConcat(a: seq<Click>, b: seq<Click>, countBots: bool, link: string)
    ensures Counted(a + b, countBots, link) == Counted(a, countBots, link) + Counted(b, countBots, link)
  {
    if b == [] {
      assert a + b == a;
    } else {
      CountedConcat(a, b[..|b| - 1], countBots, link);
      assert (a + b)[..|a + b| - 1] == a + b[..|b| - 1];
    }
  }

  lemma BumpedTwice(counts: map<string, int>, a: seq<Click>, b: seq<Click>, countBots: bool)
    ensures Bumped(Bumped(counts, a, countBots), b, countBots) == Bumped(counts, a + b, countBots)
  {
    forall link | link in counts
      ensures Bumped(Bumped(counts, a, countBots), b, countBots)[link] == Bumped(counts, a + b, countBots)[link]
    {
      CountedConcat(a, b, countBots, link);
    }
  }

  function InsertedAll(t: Table, batches: seq<seq<Click>>, countBots: bool): Table
    decreases |batches|
  {
    if batches == [] then t else InsertedAll(Inserted(t, batches[0], countBots), batches[1..], countBots)
  }

  function Joined(batches: seq<seq<Click>>): seq<Click> {
    if batches == [] then [] else batches[0] + Joined(batches[1..])
  }

  lemma {:induction false} BumpedByNothing(counts: map<string, int>, countBots: bool)
    ensures Bumped(counts, [], countBots) == counts
  {
    assert forall link :: Counted([], countBots, link) == 0;
  }

  /** However the stream of clicks is cut into batches, rows and counters come out the same. */
  lemma {:induction false} CutsDoNotMatter(t: Table, batches: seq<seq<Click>>, countBots: bool)
    ensures InsertedAll(t, batches, countBots) == Inserted(t, Joined(batches), countBots)
    decreases |batches|
  {
    if batches == [] {
      BumpedByNothing(t.counts, countBots);
    } else {
      CutsDoNotMatter(Inserted(t, batches[0], countBots), batches[1..], countBots);
      BumpedTwice(t.counts, batches[0], Joined(batches[1..]), countBots);
      assert t.clicks + batches[0] + Joined(batches[1..]) == t.clicks + Joined(batches);
    }
  }

  // ------------------------------------------------------------ over a run

  /** What was stored since a table was as in `before`. */
  function Since(t: Table, before: Table): seq<Click>
    requires before.clicks <= t.clicks
  {
    t.clicks[|before.clicks|..]
  }

  /** The counters are what they were, plus the clicks stored since that count. */
  ghost predicate CountsMatch(t: Table, before: Table, countBots: bool) {
    before.clicks <= t.clicks && t.counts == Bumped(before.counts, Since(t, before), countBots)
  }

  /** Whatever the setting was meanwhile, every visit by a person counts, and nothing that is not stored. */
  ghost predicate CountsWithin(t: Table, before: Table) {
    && before.clicks <= t.clicks && t.counts.Keys == before.counts.Keys
    && forall link :: link in before.counts ==>
         before.counts[link] + Counted(Since(t, before), false, link) <= t.counts[link]
         <= before.counts[link] + Counted(Since(t, before), true, link)
  }

  lemma SinceInsert(t: Table, clicks: seq<Click>, before: Table, countBots: bool)
    requires before.clicks <= t.clicks
    ensures before.clicks <= Inserted(t, clicks, countBots).clicks
    ensures Since(Inserted(t, clicks, countBots), before) == Since(t, before) + clicks
  {
  }

  lemma InsertKeepsMatch(t: Table, clicks: seq<Click>, before: Table, countBots: bool)
    requires CountsMatch(t, before, countBots)
    ensures CountsMatch(Inserted(t, clicks, countBots), before, countBots)
  {
    SinceInsert(t, clicks, before, countBots);
    BumpedTwice(before.counts, Since(t, before), clicks, countBots);
  }

  lemma {:induction false} PeopleAreFewer(clicks: seq<Click>, countBots: bool, link: string)
    ensures Counted(clicks, false, link) <= Counted(clicks, countBots, link) <= Counted(clicks, true, link)
  {
    if clicks != [] { PeopleAreFewer(clicks[..|clicks| - 1], countBots, link); }
  }

  lemma InsertKeepsWithin(t: Table, clicks: seq<Click>, before: Table, countBots: bool)
    requires CountsWithin(t, before)
    ensures CountsWithin(Inserted(t, clicks, countBots), before)
  {
    var u, old_ := Inserted(t, clicks, countBots), Since(t, before);
    SinceInsert(t, clicks, before, countBots);
    forall link | link in before.counts
      ensures before.counts[link] + Counted(old_ + clicks, false, link) <= u.counts[link]
              <= before.counts[link] + Counted(old_ + clicks, true, link)
    {
      CountedConcat(old_, clicks, false, link);
      CountedConcat(old_, clicks, true, link);
      PeopleAreFewer(clicks, countBots, link);
    }
  }

  lemma {:induction false} ReplayKeepsCounts(
    table: Table, files: seq<File>, tries: seq<Try>, countBots: bool, before: Table)
    ensures var t := ReplayFiles(table, files, tries, countBots).table;
            && (CountsMatch(table, before, countBots) ==> CountsMatch(t, before, countBots))
            && (CountsWithin(table, before) ==> CountsWithin(t, before))
  {
    if files != [] {
      var n := |files| - 1;
      ReplayKeepsCounts(table, files[..n], tries, countBots, before);
      var r := ReplayFiles(table, files[..n], tries, countBots);
      if CountsMatch(r.table, before, countBots) {
        InsertKeepsMatch(r.table, Decode(files[n].lines), before, countBots);
      }
      if CountsWithin(r.table, before) {
        InsertKeepsWithin(r.table, Decode(files[n].lines), before, countBots);
      }
    }
  }

  lemma FlushKeepsCounts(s: State, env: Env, before: Table)
    ensures var t := Flush(s, env);
            && t.countBots == s.countBots
            && (CountsMatch(s.table, before, s.countBots) ==> CountsMatch(t.table, before, s.countBots))
            && (CountsWithin(s.table, before) ==> CountsWithin(t.table, before))
  {
    if s.batch != [] && env.failures < ATTEMPTS {
      if CountsMatch(s.table, before, s.countBots) { InsertKeepsMatch(s.table, s.batch, before, s.countBots); }
      if CountsWithin(s.table, before) { InsertKeepsWithin(s.table, s.batch, before, s.countBots); }
    }
  }

  lemma StepKeepsCounts(s: State, op: Op, before: Table)
    requires Enabled(s, op)
    ensures var t := Step(s, op);
            && (!op.SetCountBots? ==> t.countBots == s.countBots)
            && (CountsMatch(s.table, before, s.countBots) ==> CountsMatch(t.table, before, s.countBots))
            && (CountsWithin(s.table, before) ==> CountsWithin(t.table, before))
  {
    match op
    case Receive(country, env) => FlushKeepsCounts(Taken(s, country), env, before);
    case Tick(env) => FlushKeepsCounts(s, env, before);
    case Finish(env) => FlushKeepsCounts(s, env, before);
    case Restart(tries) => ReplayKeepsCounts(s.table, s.files, tries, s.countBots, before);
    case _ =>
  }

  lemma {:induction false} RunKeepsMatch(s: State, run: seq<Op>, before: Table)
    requires Possible(s, run) && CountsMatch(s.table, before, s.countBots)
    requires forall i :: 0 <= i < |run| && run[i].SetCountBots? ==> run[i].on == s.countBots
    ensures CountsMatch(Exec(s, run).table, before, s.countBots)
    decreases |run|
  {
    if run != [] {
      StepKeepsCounts(s, run[0], before);
      RunKeepsMatch(Step(s, run[0]), run[1..], before);
    }
  }

  lemma {:induction false} RunKeepsWithin(s: State, run: seq<Op>, before: Table)
    requires Possible(s, run) && CountsWithin(s.table, before)
    ensures CountsWithin(Exec(s, run).table, before)
    decreases |run|
  {
    if run != [] {
      StepKeepsCounts(s, run[0], before);
      RunKeepsWithin(Step(s, run[0]), run[1..], before);
    }
  }

  lemma StartMatches(table: Table, countBots: bool)
    ensures CountsMatch(table, table, countBots) && CountsWithin(table, table)
  {
    BumpedByNothing(table.counts, countBots);
  }

  /** In a run that leaves the setting alone, a link's counter grows by exactly its stored clicks that count. */
  lemma CountersMatchTheClicks(config: Config, countBots: bool, table: Table, run: seq<Op>)
    requires Possible(Start(config, countBots, table), run)
    requires forall i :: 0 <= i < |run| && run[i].SetCountBots? ==> run[i].on == countBots
    ensures CountsMatch(Exec(Start(config, countBots, table), run).table, table, countBots)
  {
    StartMatches(table, countBots);
    RunKeepsMatch(Start(config, countBots, table), run, table);
  }

  /** In every run, a counter grows by no less than the people stored and no more than the visitors. */
  lemma CountersStayWithin(config: Config, countBots: bool, table: Table, run: seq<Op>)
    requires Possible(Start(config, countBots, table), run)
    ensures CountsWithin(Exec(Start(config, countBots, table), run).table, table)
  {
    StartMatches(table, countBots);
    RunKeepsWithin(Start(config, countBots, table), run, table);
  }
}
