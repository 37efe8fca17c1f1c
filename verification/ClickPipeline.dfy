/** The click writer and the table it fills, step by step as they run. */
module ClickPipeline {
  import opened Wrappers
  import opened ClickSpec
  import F = ClickFields

  /** The clicks and the click counters of the links. */
  class ClickTable {
    var clicks: seq<Click>
    var counts: map<string, int>

    ghost function View(): Table
      reads this
    {
      Table(clicks, counts)
    }

    constructor (clicks: seq<Click>, counts: map<string, int>)
      ensures View() == Table(clicks, counts)
    {
      this.clicks, this.counts := clicks, counts;
    }

    /** One transaction: a row for each click, then the counters, link by link. */
    method InsertClicksBatch(batch: seq<Click>, countBots: bool, succeeds: bool) returns (ok: bool)
      modifies this
      ensures ok == (batch == [] || succeeds)
      ensures View() == if batch != [] && succeeds then Inserted(old(View()), batch, countBots) else old(View())
      ensures if batch != [] && succeeds then F.Stores(old(View()), batch, countBots, View()) else View() == old(View())
    {
      if batch == [] { return true; }
      if !succeeds { return false; }
      clicks := clicks + batch;
      Raise(batch, countBots);
      F.InsertedStores(old(View()), batch, countBots);
      ok := true;
    }

    /** The counters, link by link. */
    method Raise(batch: seq<Click>, countBots: bool)
      modifies this`counts
      ensures counts == Bumped(old(counts), batch, countBots)
    {
      var bumps := Tally(batch, countBots);
      var links := bumps.Keys;
      ghost var before := counts;
      while links != {}
        invariant links <= bumps.Keys && counts.Keys == before.Keys
        invariant forall l :: l in counts ==>
                    counts[l] == before[l] + (if l in bumps && l !in links then bumps[l] else 0)
        decreases |links|
      {
        var link :| link in links;
        if link in counts { counts := counts[link := counts[link] + bumps[link]]; }
        links := links - {link};
      }
      assert counts == Bumped(before, batch, countBots);
    }
  }

  /** How often each link of the batch counts. */
  method Tally(batch: seq<Click>, countBots: bool) returns (bumps: map<string, int>)
    ensures forall l :: (if l in bumps then bumps[l] else 0) == Counted(batch, countBots, l)
  {
    bumps := map[];
    for i := 0 to |batch|
      invariant forall l :: (if l in bumps then bumps[l] else 0) == Counted(batch[..i], countBots, l)
    {
      var e := batch[i].event;
      assert batch[..i + 1][..i] == batch[..i];
      if countBots || !e.isBot {
        bumps := bumps[e.link := 1 + if e.link in bumps then bumps[e.link] else 0];
      }
    }
    assert batch[..|batch|] == batch;
  }

  /** The background writer of clicks. */
  class Writer {
    const config: Config
    const table: ClickTable
    var countBots: bool
    var phase: Phase
    var closed: bool
    var queue: seq<Event>
    var batch: seq<Click>
    var files: seq<File>
    var clicksDropped: nat
    ghost var given: seq<Event>
    ghost var dropped: seq<Event>
    ghost var lost: seq<Event>
    ghost var doubled: seq<Event>

    /** The metric counts the events the ledger names. */
    ghost predicate Valid()
      reads this
    {
      clicksDropped == |dropped|
    }

    ghost function View(): State
      reads this, table
    {
      State(config, countBots, phase, closed, queue, batch, table.View(), files, given, dropped, lost, doubled)
    }

    constructor (config: Config, countBots: bool, table: ClickTable)
      ensures Valid() && this.table == table && View() == Start(config, countBots, table.View())
    {
      this.config, this.countBots, this.table := config, countBots, table;
      phase, closed, queue, batch, files, clicksDropped := Running, false, [], [], [], 0;
      given, dropped, lost, doubled := EventsOf(table.clicks), [], [], [];
    }

    /** Never blocks: a full queue drops the event. */
    method Enqueue(e: Event) returns (ok: bool)
      requires Valid() && Enabled(View(), Op.Enqueue(e))
      modifies this
      ensures Valid() && View() == Step(old(View()), Op.Enqueue(e)) && F.Queues(old(View()), e, View())
      ensures ok == (|old(queue)| < config.queueSize)
    {
      given := given + [e];
      if |queue| < config.queueSize {
        queue := queue + [e];
        return true;
      }
      clicksDropped, dropped := clicksDropped + 1, dropped + [e];
      return false;
    }

    method Close()
      requires Valid() && Enabled(View(), Op.Close)
      modifies this
      ensures Valid() && View() == Step(old(View()), Op.Close)
    {
      closed := true;
    }

    /** Takes the next event off the queue; `country` is what the enrichment found, or nothing if it panicked. */
    method Take(country: Option<string>)
      requires Valid() && queue != []
      modifies this
      ensures Valid() && View() == Taken(old(View()), country) && F.TakesFirst(old(View()), country, View())
    {
      var e := queue[0];
      queue := queue[1..];
      if country.Some? {
        batch := batch + [Click(e, country.value)];
      } else {
        clicksDropped, dropped := clicksDropped + 1, dropped + [e];
      }
    }

    /** The case of the select loop that receives an event. */
    method OnReceive(country: Option<string>, env: Env)
      requires Valid() && Enabled(View(), Receive(country, env))
      modifies this, table
      ensures Valid() && View() == Step(old(View()), Receive(country, env))
      ensures country.Some? && |old(batch)| + 1 < config.batchSize ==> F.TakesFirst(old(View()), country, View())
      ensures country.Some? && |old(batch)| + 1 >= config.batchSize ==>
                && batch == [] && queue == old(queue[1..])
                && (env.failures < 4 ==>
                      table.clicks == old(table.clicks) + old(batch) + [Click(old(queue)[0], country.value)])
    {
      Take(country);
      if |batch| >= config.batchSize { FlushBatch(env); }
    }

    method OnTick(env: Env)
      requires Valid() && Enabled(View(), Tick(env))
      modifies this, table
      ensures Valid() && View() == Step(old(View()), Tick(env))
    {
      FlushBatch(env);
    }

    /** The last flush, once the queue is found empty, and the return. */
    method Return(env: Env)
      requires Valid() && Enabled(View(), Finish(env))
      modifies this, table
      ensures Valid() && View() == Step(old(View()), Finish(env))
      ensures phase == Returned(closed) && batch == [] && queue == [] && closed == old(closed)
      ensures env.failures < 4 ==> table.clicks == old(table.clicks) + old(batch)
    {
      FlushBatch(env);
      phase := Returned(closed);
    }

    /** After a cancellation: takes what is queued, without waiting for more. */
    method DrainQueue(countries: seq<Option<string>>)
      requires Valid() && phase == Draining && |countries| == |queue|
      modifies this
      ensures Valid() && queue == [] && phase == Draining && View() == Drained(old(View()), countries)
    {
      for i := 0 to |countries|
        invariant Valid() && |queue| == |countries| - i && phase == Draining
        invariant View() == Drained(old(View()), countries[..i])
      {
        ghost var before := View();
        assert countries[..i + 1][..i] == countries[..i];
        Take(countries[i]);
        assert View() == Step(before, Drain(countries[i]));
      }
      assert countries[..|countries|] == countries;
    }

    /** The case of the select loop that finds the context cancelled. */
    method OnCancel(countries: seq<Option<string>>, env: Env)
      requires Valid() && phase == Running && |countries| == |queue|
      modifies this, table
      ensures Valid() && View() == Step(Drained(Step(old(View()), Cancel), countries), Finish(env))
    {
      phase := Draining;
      assert View() == Step(old(View()), Cancel);
      DrainQueue(countries);
      Return(env);
    }

    /** Up to four attempts to insert the batch, then the spool. */
    method FlushBatch(env: Env)
      requires Valid()
      modifies this, table
      ensures Valid() && View() == Flush(old(View()), env) && F.Flushes(old(View()), env, View())
      ensures batch == [] && queue == old(queue)
      ensures env.failures < 4 ==>
                && table.clicks == old(table.clicks) + old(batch)
                && files == old(files) && dropped == old(dropped) && lost == old(lost)
      ensures env.failures >= 4 ==> table.View() == old(table.View())
      ensures old(batch) != [] && env.failures >= 4 ==> (|files| > |old(files)| <==> F.SpoolTakes(old(View()), env))
    {
      F.FlushIsAsStated(View(), env);
      if batch == [] { return; }
      var attempt := 0;
      while attempt < ATTEMPTS
        invariant 0 <= attempt <= ATTEMPTS && attempt <= env.failures
        invariant Valid() && View() == old(View())
      {
        var ok := table.InsertClicksBatch(batch, countBots, attempt >= env.failures);
        if ok {
          batch := [];
          return;
        }
        attempt := attempt + 1;
      }
      Spool(env);
    }

    /** Writes the batch to a file of its own, or drops it. */
    method Spool(env: Env)
      requires Valid()
      modifies this
      ensures Valid() && View() == SpoolBatch(old(View()), env)
    {
      if !config.spools || !env.makes || !env.opens || NameTaken(files, env.name) {
        clicksDropped, dropped, batch := clicksDropped + |batch|, dropped + EventsOf(batch), [];
        return;
      }
      var lines: seq<Line> := [];
      for i := 0 to |batch|
        invariant unchanged(this) && lines == Encode(batch[..i], env.outcomes)
      {
        assert batch[..i + 1][..i] == batch[..i];
        lines := lines + LineOf(batch[i], OutcomeOf(env.outcomes, i));
      }
      assert batch[..|batch|] == batch;
      lost := lost + Unwritten(batch, env.outcomes);
      files, batch := WithFile(files, File(env.name, lines)), [];
    }

    /** The start of the next process: replays the spool file by file, in name order. */
    method Reopen(tries: seq<Try>)
      requires Valid() && Enabled(View(), Restart(tries))
      modifies this, table
      ensures Valid() && View() == Step(old(View()), Restart(tries))
      ensures phase == Running && !closed && queue == [] && batch == old(batch) && dropped == old(dropped)
      ensures !config.spools ==>
                table.View() == old(table.View()) && files == old(files) && lost == old(lost) + old(queue)
    {
      lost := lost + queue;
      phase, closed, queue := Running, false, [];
      if config.spools { ReplaySpool(tries); }
    }

    method ReplaySpool(tries: seq<Try>)
      requires Valid()
      modifies this, table
      ensures Valid()
      ensures var r := ReplayFiles(old(table.View()), old(files), tries, countBots);
              View() == old(View()).(table := r.table, files := r.kept,
                                     lost := old(lost) + r.lost, doubled := old(doubled) + r.doubled)
    {
      var all := files;
      var kept: seq<File> := [];
      ghost var r := Replay(table.View(), [], [], []);
      for i := 0 to |all|
        invariant r == ReplayFiles(old(table.View()), all[..i], tries, countBots)
        invariant table.View() == r.table && kept == r.kept && unchanged(this)
      {
        var f, how := all[i], TryAt(tries, i);
        assert all[..i + 1][..i] == all[..i];
        var replayed := ReplayFile(f, how);
        r := ReplayOne(r, f, how, countBots);
        if !(replayed && how.removes) { kept := kept + [f]; }
      }
      assert all[..|all|] == all;
      files, lost, doubled := kept, lost + r.lost, doubled + r.doubled;
    }

    /** Decodes a file as far as it can be read, and stores what it got. */
    method ReplayFile(f: File, how: Try) returns (replayed: bool)
      modifies table
      ensures replayed == Replays(f, how)
      ensures replayed <==> how.opens && (f.lines == [] || f.lines[0].Torn? || how.inserts)
      ensures replayed ==> F.Stores(old(table.View()), Decode(f.lines), countBots, table.View())
      ensures !replayed ==> table.View() == old(table.View())
      ensures table.View() == if replayed && Decode(f.lines) != []
                              then Inserted(old(table.View()), Decode(f.lines), countBots)
                              else old(table.View())
    {
      F.InsertedStores(table.View(), [], countBots);
      if !how.opens { return false; }
      var clicks: seq<Click> := [];
      var i := 0;
      while i < |f.lines| && f.lines[i].Record?
        invariant i <= Readable(f.lines) && clicks == ClicksOf(f.lines[..i])
      {
        clicks := clicks + [f.lines[i].click];
        i := i + 1;
      }
      assert i == Readable(f.lines);
      if clicks == [] { return true; }
      replayed := table.InsertClicksBatch(clicks, countBots, how.inserts);
    }

    /** One step, whichever goroutine takes it. */
    method Do(op: Op)
      requires Valid() && Enabled(View(), op)
      modifies this, table
      ensures Valid() && View() == Step(old(View()), op)
    {
      match op
      case Enqueue(e) => var _ := Enqueue(e);
      case SetCountBots(on) => countBots := on;
      case Close => Close();
      case Receive(country, env) => OnReceive(country, env);
      case Tick(env) => OnTick(env);
      case Cancel => phase := Draining;
      case Drain(country) => Take(country);
      case Finish(env) => Return(env);
      case Restart(tries) => Reopen(tries);
    }

    /** A whole run, its steps in the order they happen to take. */
    method RunAll(run: seq<Op>)
      requires Valid() && Possible(View(), run)
      modifies this, table
      ensures Valid() && View() == Exec(old(View()), run)
    {
      for i := 0 to |run|
        invariant Valid() && Possible(View(), run[i..]) && Exec(View(), run[i..]) == Exec(old(View()), run)
      {
        assert run[i..][1..] == run[i + 1..];
        Do(run[i]);
      }
    }
  }

  /** The state after draining the queue of that many events. */
  ghost function Drained(s: State, countries: seq<Option<string>>): State
    requires s.phase == Draining && |countries| <= |s.queue|
    ensures var t := Drained(s, countries);
            t.phase == Draining && |t.queue| == |s.queue| - |countries|
  {
    if countries == [] then s
    else
      var n := |countries| - 1;
      Step(Drained(s, countries[..n]), Drain(countries[n]))
  }
}
