/** The steps of the click pipeline, each by what it does to the fields of the state. */
module ClickFields {
  import opened Wrappers
  import opened ClickSpec

  // ------------------------------------------------------------------ counting

  /** Where the clicks stand that count for a link: its own, without bots unless they count. */
  function CountingAt(clicks: seq<Click>, countBots: bool, link: string): set<int> {
    set i | 0 <= i < |clicks| && clicks[i].event.link == link && (countBots || !clicks[i].event.isBot)
  }

  lemma {:induction false} CountedIsSize(clicks: seq<Click>, countBots: bool, link: string)
    ensures Counted(clicks, countBots, link) == |CountingAt(clicks, countBots, link)|
  {
    if clicks != [] {
      CountedIsSize(clicks[..|clicks| - 1], countBots, link);
      OneMoreCounting(clicks, countBots, link);
    }
  }

  lemma OneMoreCounting(clicks: seq<Click>, countBots: bool, link: string)
    requires clicks != []
    ensures var n := |clicks| - 1;
            var front, e := CountingAt(clicks[..n], countBots, link), clicks[n].event;
            && n !in front
            && CountingAt(clicks, countBots, link) ==
               if e.link == link && (countBots || !e.isBot) then front + {n} else front
  {
  }

  /** The table with the clicks stored behind those it had, and the counters of its links raised by those that count. */
  ghost predicate Stores(before: Table, clicks: seq<Click>, countBots: bool, after: Table) {
    && after.clicks == before.clicks + clicks
    && after.counts.Keys == before.counts.Keys
    && forall link :: link in before.counts ==>
         after.counts[link] == before.counts[link] + |CountingAt(clicks, countBots, link)|
  }

  lemma InsertedStores(t: Table, clicks: seq<Click>, countBots: bool)
    ensures Stores(t, clicks, countBots, Inserted(t, clicks, countBots))
  {
    forall link | link in t.counts
      ensures Inserted(t, clicks, countBots).counts[link] == t.counts[link] + |CountingAt(clicks, countBots, link)|
    {
      CountedIsSize(clicks, countBots, link);
    }
  }

  // ------------------------------------------------------------------ spooling

  /** The spool can take a file: the directory can be made, the file opened, and its name is new. */
  predicate SpoolTakes(s: State, env: Env) {
    s.config.spools && env.makes && env.opens && forall i :: 0 <= i < |s.files| ==> s.files[i].name != env.name
  }

  ghost predicate NamesAscend(files: seq<File>) {
    forall i, j :: 0 <= i < j < |files| ==> files[i].name < files[j].name
  }

  /** A new file goes where its name belongs, and the others stay in their order. */
  lemma {:induction false} WithFileInserts(files: seq<File>, f: File) returns (k: nat)
    ensures k <= |files| && WithFile(files, f) == files[..k] + [f] + files[k..]
    ensures k < |files| ==> f.name <= files[k].name
    ensures k > 0 ==> files[k - 1].name < f.name
  {
    if files == [] || files[|files| - 1].name < f.name {
      k := |files|;
      assert files[..k] == files && files[k..] == [];
    } else {
      var n := |files| - 1;
      k := WithFileInserts(files[..n], f);
      assert files[..n][..k] == files[..k];
      assert files[k..] == files[..n][k..] + [files[n]];
    }
  }

  lemma NamesStayAscending(files: seq<File>, f: File, k: nat)
    requires NamesAscend(files) && !NameTaken(files, f.name) && k <= |files|
    requires k < |files| ==> f.name <= files[k].name
    requires k > 0 ==> files[k - 1].name < f.name
    ensures NamesAscend(files[..k] + [f] + files[k..])
  {
    forall i | 0 <= i < |files| ensures if i < k then files[i].name < f.name else f.name < files[i].name {
      assert files[i].name != f.name;
    }
  }

  /** Written without a failure, the file holds the batch, click by click. */
  lemma {:induction false} AllIsWritten(clicks: seq<Click>, outcomes: seq<Outcome>)
    requires forall i :: 0 <= i < |outcomes| ==> outcomes[i] == Written
    ensures |Encode(clicks, outcomes)| == |clicks| && Unwritten(clicks, outcomes) == []
    ensures forall i :: 0 <= i < |clicks| ==> Encode(clicks, outcomes)[i] == Record(clicks[i])
  {
    if clicks != [] {
      var n := |clicks| - 1;
      AllIsWritten(clicks[..n], outcomes);
      assert OutcomeOf(outcomes, n) == Written;
      assert Encode(clicks, outcomes) == Encode(clicks[..n], outcomes) + [Record(clicks[n])];
    }
  }

  /** Read back, an untorn file gives its clicks in their order; a torn one those before the tear. */
  lemma DecodeReadsInOrder(lines: seq<Line>)
    ensures |Decode(lines)| <= |lines| && (|Decode(lines)| < |lines| ==> lines[|Decode(lines)|].Torn?)
    ensures forall i :: 0 <= i < |Decode(lines)| ==> lines[i] == Record(Decode(lines)[i])
  {
  }

  // -------------------------------------------------------------------- steps

  /** What a flush does with a batch. */
  ghost predicate Flushes(s: State, env: Env, t: State) {
    if s.batch == [] then t == s
    else if env.failures < 4 then
      // one of four attempts succeeds: the batch is in the table, once, and nothing is spooled or dropped
      Stores(s.table, s.batch, s.countBots, t.table) && t == s.(batch := [], table := t.table)
    else if SpoolTakes(s, env) then
      // the table is as it was, and there is one more file, complete if writing it went well
      && t == s.(batch := [], files := t.files, lost := t.lost)
      && (exists k, lines :: 0 <= k <= |s.files| && t.files == s.files[..k] + [File(env.name, lines)] + s.files[k..]
                             && Holds(lines, s.batch, env.outcomes))
      && (NamesAscend(s.files) ==> NamesAscend(t.files))
      && (AllWritten(env) ==> t.lost == s.lost)
    else
      t == s.(batch := [], dropped := s.dropped + EventsOf(s.batch))
  }

  predicate AllWritten(env: Env) {
    forall i :: 0 <= i < |env.outcomes| ==> env.outcomes[i] == Written
  }

  /** The lines of a file, when writing it went well, are the clicks of the batch. */
  predicate Holds(lines: seq<Line>, clicks: seq<Click>, outcomes: seq<Outcome>) {
    (forall i :: 0 <= i < |outcomes| ==> outcomes[i] == Written) ==>
      |lines| == |clicks| && forall i :: 0 <= i < |clicks| ==> lines[i] == Record(clicks[i])
  }

  lemma FlushIsAsStated(s: State, env: Env)
    ensures Flushes(s, env, Flush(s, env))
  {
    if s.batch != [] {
      InsertedStores(s.table, s.batch, s.countBots);
      if env.failures >= 4 && SpoolTakes(s, env) {
        var lines := Encode(s.batch, env.outcomes);
        var k := WithFileInserts(s.files, File(env.name, lines));
        if NamesAscend(s.files) { NamesStayAscending(s.files, File(env.name, lines), k); }
        if AllWritten(env) { AllIsWritten(s.batch, env.outcomes); }
        assert CanSpool(s, env);
        assert Holds(lines, s.batch, env.outcomes);
      }
    }
  }

  /** An event is queued behind the others if there is room, and dropped if not. */
  predicate Queues(s: State, e: Event, t: State) {
    if |s.queue| < s.config.queueSize then t == s.(given := s.given + [e], queue := s.queue + [e])
    else t == s.(given := s.given + [e], dropped := s.dropped + [e])
  }

  /** The event longest in the queue goes into the batch, or is dropped if the enrichment panicked. */
  predicate TakesFirst(s: State, country: Option<string>, t: State)
    requires s.queue != []
  {
    if country.Some? then
      t == s.(queue := s.queue[1..], batch := s.batch + [Click(s.queue[0], country.value)])
    else t == s.(queue := s.queue[1..], dropped := s.dropped + [s.queue[0]])
  }
}

/**
 While the database takes every batch within four attempts, the pipeline is a
 queue: clicks are stored in the order in which they were offered, and nothing
 is ever spooled.
 */
module ClickOrder {
  import opened Wrappers
  import opened ClickSpec
  import opened ClickLedger
  import F = ClickFields

  /** No insert fails four times. */
  predicate Serves(op: Op) {
    match op
    case Receive(_, env) => env.failures < 4
    case Tick(env) => env.failures < 4
    case Finish(env) => env.failures < 4
    case _ => true
  }

  /** Nothing is spooled or stored twice; what was lost was queued at a restart. */
  predicate Unspooled(s: State) {
    s.files == [] && s.doubled == []
  }

  /** What is in table, batch and queue, in that order. */
  function Line(s: State): seq<Event> {
    EventsOf(s.table.clicks) + EventsOf(s.batch) + s.queue
  }

  lemma FlushKeepsLine(s: State, env: Env)
    requires env.failures < 4 && Unspooled(s)
    ensures var t := Flush(s, env);
            && t == s.(batch := t.batch, table := t.table) && t.batch == [] && Line(t) == Line(s)
  {
    F.FlushIsAsStated(s, env);
    EventsOfConcat(s.table.clicks, s.batch);
  }

  lemma TakenKeepsLine(s: State, country: Option<string>)
    requires s.queue != []
    ensures var t := Taken(s, country);
            if country.Some? then Line(t) == Line(s) && t.dropped == s.dropped else |t.dropped| == |s.dropped| + 1
  {
    if country.Some? {
      var c := Click(s.queue[0], country.value);
      EventsOfConcat(s.batch, [c]);
      assert s.queue == [s.queue[0]] + s.queue[1..];
      assert EventsOf([c]) == [s.queue[0]];
    }
  }

  lemma ReceiveKeepsLine(s: State, country: Option<string>, env: Env)
    requires Unspooled(s) && s.queue != [] && env.failures < 4
    ensures var u, t := Taken(s, country), Step(s.(phase := Running), Receive(country, env));
            && Unspooled(t) && t.dropped == u.dropped && t.lost == s.lost && t.given == s.given && Line(t) == Line(u)
  {
    FlushKeepsLine(Taken(s.(phase := Running), country), env);
  }

  lemma OfferedKeepsLine(s: State, e: Event)
    ensures var t := Offered(s, e);
            && Unspooled(t) == Unspooled(s) && t.lost == s.lost && t.given == s.given + [e]
            && if t.dropped == s.dropped then Line(t) == Line(s) + [e] else |t.dropped| == |s.dropped| + 1
  {
    assert |s.dropped + [e]| > |s.dropped|;
  }

  /** A step keeps the line, adds to its end what is offered, and drops or loses nothing, or it drops or loses some. */
  lemma StepKeepsLine(s: State, op: Op)
    requires Unspooled(s) && Enabled(s, op) && Serves(op)
    ensures var t := Step(s, op);
            && Unspooled(t) && |s.dropped| <= |t.dropped| && s.lost <= t.lost
            && (t.lost == s.lost <==> !op.Restart? || s.queue == [])
            && (t.dropped == s.dropped && t.lost == s.lost ==>
                  Line(t) == Line(s) + t.given[|s.given|..] && s.given <= t.given)
  {
    match op
    case Enqueue(e) =>
      OfferedKeepsLine(s, e);
      assert (s.given + [e])[|s.given|..] == [e];
    case Receive(country, env) =>
      TakenKeepsLine(s, country);
      ReceiveKeepsLine(s, country, env);
      assert s.(phase := Running) == s;
    case Tick(env) => FlushKeepsLine(s, env);
    case Drain(country) => TakenKeepsLine(s, country);
    case Finish(env) => FlushKeepsLine(s, env);
    case _ =>
  }

  /** From a state whose line is what was given, the line stays so if nothing is dropped or lost. */
  lemma {:induction false} RunKeepsLine(s: State, run: seq<Op>)
    requires Unspooled(s) && Possible(s, run) && forall i :: 0 <= i < |run| ==> Serves(run[i])
    ensures var t := Exec(s, run);
            && Unspooled(t) && |s.dropped| <= |t.dropped| && s.lost <= t.lost
            && (t.lost == s.lost <==> RestartsEmpty(s, run))
            && (Line(s) == s.given && t.dropped == s.dropped && t.lost == s.lost ==> Line(t) == t.given)
    decreases |run|
  {
    if run != [] {
      var u := Step(s, run[0]);
      StepKeepsLine(s, run[0]);
      RunKeepsLine(u, run[1..]);
      StepDropsIffRefused(s, run[0]);
      DropsIffRefused(u, run[1..]);
      if Line(s) == s.given && u.dropped == s.dropped && u.lost == s.lost {
        assert u.given == s.given + u.given[|s.given|..];
      }
    }
  }

  lemma NothingOccurs(events: seq<Event>)
    requires forall e :: Times(e, events) == 0
    ensures events == []
  {
    if events != [] { OccursTimes(events, 0); }
  }

  lemma LineIsBalanced(s: State, e: Event)
    ensures Times(e, Line(s)) == Times(e, EventsOf(s.table.clicks)) + Times(e, EventsOf(s.batch)) + Times(e, s.queue)
  {
    TimesConcat(e, EventsOf(s.table.clicks) + EventsOf(s.batch), s.queue);
    TimesConcat(e, EventsOf(s.table.clicks), EventsOf(s.batch));
  }

  /**
   Over every run in which no insert fails four times the spool stays empty,
   nothing is stored twice, and table, batch and queue together hold exactly
   what was offered, in the order of offering, if and only if no event was
   dropped and every restart found the queue empty.
   */
  lemma StoredInOrder(config: Config, countBots: bool, table: Table, run: seq<Op>)
    requires Possible(Start(config, countBots, table), run) && forall i :: 0 <= i < |run| ==> Serves(run[i])
    ensures var t := Exec(Start(config, countBots, table), run);
            && t.files == [] && t.doubled == []
            && (EventsOf(t.table.clicks) + EventsOf(t.batch) + t.queue == t.given
                <==> t.dropped == [] && RestartsEmpty(Start(config, countBots, table), run))
  {
    var s, t := Start(config, countBots, table), Exec(Start(config, countBots, table), run);
    assert Line(s) == s.given;
    RunKeepsLine(s, run);
    if Line(t) == t.given {
      forall e ensures Times(e, t.dropped) == 0 && Times(e, t.lost) == 0 {
        RunBalances(s, run, e);
        LineIsBalanced(t, e);
      }
      NothingOccurs(t.dropped);
      NothingOccurs(t.lost);
    }
  }

  /** Once the clock has ticked, what was taken off the queue is in the table. */
  lemma TickStoresTheBatch(config: Config, countBots: bool, table: Table, run: seq<Op>, env: Env, e: Event)
    requires Possible(Start(config, countBots, table), run) && forall i :: 0 <= i < |run| ==> Serves(run[i])
    requires RestartsEmpty(Start(config, countBots, table), run) && env.failures < 4
    ensures var s := Exec(Start(config, countBots, table), run);
            s.phase == Running ==>
              var t := Step(s, Tick(env));
              && t.batch == [] && t.files == []
              && Times(e, EventsOf(t.table.clicks)) == Times(e, t.given) - Times(e, t.queue) - Times(e, t.dropped)
  {
    var s := Exec(Start(config, countBots, table), run);
    RunKeepsLine(Start(config, countBots, table), run);
    RunBalances(Start(config, countBots, table), run, e);
    if s.phase == Running {
      FlushKeepsLine(s, env);
      StepBalances(s, Tick(env), e);
    }
  }
}
