/** Which process a gateway pidfile names, when pids are recycled: the verdict
    lattice, read against histories of starts, crashes, stops and holds. */
module GatewayIdentity {
  import opened Options

  // ---- the lattice -----------------------------------------------------------

  /** The pidfile. `writer` is not in the file: it names the process that wrote
      it, for stating what a verdict should mean. */
  datatype Record = Record(pid: nat, ticks: Option<int>, writer: nat)

  /** The hold file's body: advisory, and possibly stale. */
  datatype Holder = Holder(pid: Option<nat>, gateway: bool)

  datatype Liveness = Alive | Dead | Unresolved

  datatype Verdict = Absent | Gone | NotOurs | Unknown | Desync | Ours

  /** The lattice over the five values read. */
  function Judge(record: Option<Record>, holder: Option<Holder>, held: bool, liveness: Liveness, ticks: Option<int>): Verdict {
    if record.None? then Absent
    else if liveness.Dead? then Gone
    else if liveness.Unresolved? then Unknown
    else
      var vouches := held && holder.Some? && holder.value.gateway;
      if ticks.Some? then
        if record.value.ticks != ticks then NotOurs
        else if vouches && holder.value.pid.Some? && holder.value.pid.value != record.value.pid then Desync
        else Ours
      else if vouches && holder.value.pid == Some(record.value.pid) then Ours
      else Unknown
  }

  /** The lock is held, and by a gateway's body that names this pid. */
  predicate HoldNames(holder: Option<Holder>, held: bool, pid: nat) {
    held && holder == Some(Holder(Some(pid), true))
  }

  /** The process is there and its start ticks are exactly those recorded. */
  predicate TicksMatch(record: Record, ticks: Option<int>) {
    ticks.Some? && record.ticks.Some? && ticks.value == record.ticks.value
  }

  /** Each verdict is given exactly when it should be. */
  lemma VerdictExactly(record: Option<Record>, holder: Option<Holder>, held: bool, liveness: Liveness, ticks: Option<int>)
    ensures var v := Judge(record, holder, held, liveness, ticks);
      && (v == Absent <==> record == None)
      && (v == Gone <==> record != None && liveness == Dead)
      && (v == NotOurs <==> record != None && liveness == Alive && ticks != None && !TicksMatch(record.value, ticks))
      && (v == Desync <==> record != None && liveness == Alive && TicksMatch(record.value, ticks)
                           && exists pid :: HoldNames(holder, held, pid) && pid != record.value.pid)
      && (v == Unknown <==> record != None && (liveness == Unresolved
                            || (liveness == Alive && ticks == None && !HoldNames(holder, held, record.value.pid))))
      && (v == Ours <==> record != None && liveness == Alive
                         && ((TicksMatch(record.value, ticks)
                              && forall pid :: HoldNames(holder, held, pid) ==> pid == record.value.pid)
                             || (ticks == None && HoldNames(holder, held, record.value.pid))))
  {
    if held && holder.Some? && holder.value.gateway && holder.value.pid.Some? {
      assert HoldNames(holder, held, holder.value.pid.value);
    }
  }

  // ---- the world ----------------------------------------------------------------

  /** A process: `instance` is its own for ever, its pid is not. */
  datatype Process = Process(instance: nat, ticks: int)

  /** A stop command: the record it read, and whether it then found its pid dead
      and is about to remove the pidfile. */
  datatype StopCommand = StopCommand(record: Record, gone: bool)

  /** `used` records which instance each pair of pid and start ticks has named;
      `lock` is the instance holding the store's OS lock and `written` the one
      that last wrote the hold's body. `stopping` are the gateways that have
      released the hold and have yet to remove the pidfile, `commands` the stop
      commands under way. */
  datatype World = World(
    live: map<nat, Process>,
    used: map<(nat, int), nat>,
    next: nat,
    lock: Option<nat>,
    body: Option<Holder>,
    written: Option<nat>,
    pidfile: Option<Record>,
    stopping: set<nat>,
    commands: map<nat, StopCommand>)

  function Initial(): World {
    World(map[], map[], 0, None, None, None, None, {}, map[])
  }

  /** The pid under which an instance runs. */
  predicate Runs(w: World, pid: nat, instance: nat) {
    pid in w.live && w.live[pid].instance == instance
  }

  ghost predicate Running(w: World, instance: nat) {
    exists pid :: Runs(w, pid, instance)
  }

  datatype Event =
    | Start(pid: nat, ticks: int)               // a free pid, a new pair
    | Exit(pid: nat)                            // end or crash; the OS frees the lock
    | TakeLock(pid: nat)
    | WriteBody(pid: nat, gateway: bool)        // after the lock, not atomically with it
    | ReleaseLock(pid: nat)                     // an at-rest command; the body stays
    | Stop(pid: nat)                            // a gateway; it will remove the pidfile next
    | WritePidfile(pid: nat, readable: bool)    // a gateway, once it holds the lock
    | RemoveStopped(pid: nat)                   // the gateway's removal after its stop
    | ReadRecord(command: nat)                  // a stop command reads the pidfile
    | Condemn(command: nat)                     // and finds its pid dead
    | RemoveGone(command: nat)                  // and removes the pidfile
    | Leave(command: nat)

  predicate Holds(w: World, pid: nat) {
    pid in w.live && w.lock == Some(w.live[pid].instance)
  }

  predicate Enabled(w: World, e: Event) {
    match e
    case Start(pid, ticks) => pid !in w.live && (pid, ticks) !in w.used
    case Exit(pid) => pid in w.live
    case TakeLock(pid) => pid in w.live && w.lock.None?
    case WriteBody(pid, _) => Holds(w, pid)
    case ReleaseLock(pid) => Holds(w, pid)
    case Stop(pid) => Holds(w, pid)
    case WritePidfile(pid, _) => Holds(w, pid) && w.written == w.lock && w.body.Some? && w.body.value.gateway
    case RemoveStopped(pid) => pid in w.live && w.live[pid].instance in w.stopping
    case ReadRecord(command) => w.pidfile.Some? && command !in w.commands
    case Condemn(command) => command in w.commands && w.commands[command].record.pid !in w.live
    case RemoveGone(command) => command in w.commands && w.commands[command].gone
    case Leave(command) => command in w.commands
  }

  function Apply(w: World, e: Event): World
    requires Enabled(w, e)
  {
    match e
    case Start(pid, ticks) =>
      w.(live := w.live[pid := Process(w.next, ticks)], used := w.used[(pid, ticks) := w.next], next := w.next + 1)
    case Exit(pid) =>
      w.(live := w.live - {pid}, lock := if w.lock == Some(w.live[pid].instance) then None else w.lock,
         stopping := w.stopping - {w.live[pid].instance})
    case TakeLock(pid) => w.(lock := Some(w.live[pid].instance))
    case WriteBody(pid, gateway) => w.(body := Some(Holder(Some(pid), gateway)), written := w.lock)
    case ReleaseLock(pid) => w.(lock := None)
    case Stop(pid) => w.(lock := None, stopping := w.stopping + {w.live[pid].instance})
    case WritePidfile(pid, readable) =>
      w.(pidfile := Some(Record(pid, if readable then Some(w.live[pid].ticks) else None, w.live[pid].instance)))
    case RemoveStopped(pid) => w.(pidfile := None, stopping := w.stopping - {w.live[pid].instance})
    case ReadRecord(command) => w.(commands := w.commands[command := StopCommand(w.pidfile.value, false)])
    case Condemn(command) => w.(commands := w.commands[command := w.commands[command].(gone := true)])
    case RemoveGone(command) => w.(pidfile := None, commands := w.commands - {command})
    case Leave(command) => w.(commands := w.commands - {command})
  }

  /** Every world along a run of events. */
  ghost predicate History(run: seq<World>, events: seq<Event>) {
    && |run| == |events| + 1 && run[0] == Initial()
    && forall i :: 0 <= i < |events| ==> Enabled(run[i], events[i]) && run[i + 1] == Apply(run[i], events[i])
  }

  /** A truthful probe may also fail to resolve; ticks may be unobtainable. */
  predicate Truthful(w: World, pid: nat, liveness: Liveness) {
    liveness == (if pid in w.live then Alive else Dead) || liveness.Unresolved?
  }

  predicate TruthfulTicks(w: World, pid: nat, ticks: Option<int>) {
    ticks.Some? ==> pid in w.live && ticks.value == w.live[pid].ticks
  }

  // ---- what every history keeps ---------------------------------------------------

  /** Live processes are those last named by their pairs, one pid each. */
  ghost predicate Named(w: World) {
    && (forall pid :: pid in w.live ==>
          (pid, w.live[pid].ticks) in w.used && w.used[(pid, w.live[pid].ticks)] == w.live[pid].instance)
    && (forall k :: k in w.used ==> w.used[k] < w.next)
    && (forall p, q :: p in w.live && q in w.live && w.live[p].instance == w.live[q].instance ==> p == q)
  }

  /** Who holds the lock, or is stopping, runs. */
  ghost predicate Acting(w: World) {
    && (w.lock.Some? ==> Running(w, w.lock.value))
    && (forall x :: x in w.stopping ==> Running(w, x))
  }

  /** The body's last writer, while it runs, runs under the pid it wrote. */
  ghost predicate Described(w: World) {
    w.written.Some? ==>
      && w.written.value < w.next && w.body.Some? && w.body.value.pid.Some?
      && (forall pid :: Runs(w, pid, w.written.value) ==> pid == w.body.value.pid.value)
  }

  ghost predicate Consistent(w: World) {
    && Named(w) && Acting(w) && Described(w)
    && (w.pidfile.Some? ==> Attested(w, w.pidfile.value))
  }

  /** A record with ticks names the pair its writer was started with. */
  ghost predicate Attested(w: World, r: Record) {
    r.ticks.Some? ==> (r.pid, r.ticks.value) in w.used && w.used[(r.pid, r.ticks.value)] == r.writer
  }

  /** Pairs of pid and ticks keep naming the same instance. */
  ghost predicate Remembers(w: World, w': World) {
    w.next <= w'.next && forall k :: k in w.used ==> k in w'.used && w'.used[k] == w.used[k]
  }

  lemma ApplyKeepsNamed(w: World, e: Event)
    requires Named(w) && Enabled(w, e)
    ensures Named(Apply(w, e)) && Remembers(w, Apply(w, e))
  {}

  lemma ApplyKeepsDescribed(w: World, e: Event)
    requires Named(w) && Described(w) && Enabled(w, e)
    ensures Described(Apply(w, e))
  {
    var w' := Apply(w, e);
    assert forall p: nat, x: nat :: Runs(w', p, x) && x < w.next ==> Runs(w, p, x);
  }

  lemma StillRunning(w: World, e: Event, x: nat)
    requires Named(w) && Enabled(w, e) && Running(w, x)
    requires e.Exit? ==> w.live[e.pid].instance != x
    ensures Running(Apply(w, e), x)
  {
    var p :| Runs(w, p, x);
    assert Runs(Apply(w, e), p, x);
  }

  lemma ApplyKeepsActing(w: World, e: Event)
    requires Named(w) && Acting(w) && Enabled(w, e)
    ensures Acting(Apply(w, e))
  {
    hide Named, Running;
    var w' := Apply(w, e);
    if e.TakeLock? || e.Stop? {
      PidRuns(w, e.pid);
    }
    forall x | Running(w, x) && (e.Exit? ==> w.live[e.pid].instance != x) ensures Running(w', x) {
      StillRunning(w, e, x);
    }
  }

  lemma PidRuns(w: World, pid: nat)
    requires pid in w.live
    ensures Running(w, w.live[pid].instance)
  {
    assert Runs(w, pid, w.live[pid].instance);
  }

  lemma ApplyKeepsConsistent(w: World, e: Event)
    requires Consistent(w) && Enabled(w, e)
    ensures Consistent(Apply(w, e)) && Remembers(w, Apply(w, e))
  {
    hide Acting, Described;
    ApplyKeepsNamed(w, e);
    ApplyKeepsActing(w, e);
    ApplyKeepsDescribed(w, e);
  }

  lemma {:induction false} HistoryKeepsConsistent(run: seq<World>, events: seq<Event>, i: nat, j: nat)
    requires History(run, events) && i <= j < |run|
    ensures Consistent(run[j]) && Remembers(run[i], run[j])
    decreases j
  {
    if j > 0 {
      HistoryKeepsConsistent(run, events, if i < j then i else j - 1, j - 1);
      ApplyKeepsConsistent(run[j - 1], events[j - 1]);
      assert run[j - 1 + 1] == Apply(run[j - 1], events[j - 1]);
    }
  }

  // ---- what the verdicts mean -------------------------------------------------------

  /** Identity safety, over every history: read the pidfile at one moment and
      the start ticks at any later one, whatever happens in between. A
      tick-based `ours` names the live process that wrote the pidfile; and when
      a gateway-labelled hold with a readable pid was seen, that pid agrees. */
  lemma OursIsTheWriter(run: seq<World>, events: seq<Event>, i: nat, j: nat,
                        holder: Option<Holder>, held: bool, liveness: Liveness, ticks: Option<int>)
    requires History(run, events) && i <= j < |run|
    requires run[i].pidfile.Some? && ticks.Some? && TruthfulTicks(run[j], run[i].pidfile.value.pid, ticks)
    requires Judge(run[i].pidfile, holder, held, liveness, ticks) == Ours
    ensures Runs(run[j], run[i].pidfile.value.pid, run[i].pidfile.value.writer)
    ensures held && holder.Some? && holder.value.gateway && holder.value.pid.Some? ==>
              holder.value.pid.value == run[i].pidfile.value.pid
  {
    HistoryKeepsConsistent(run, events, 0, i);
    HistoryKeepsConsistent(run, events, i, j);
  }

  /** `not-ours` on a record that carries ticks means its writer no longer runs
      under that pid; `gone` means nothing does. */
  lemma StaleIsStale(run: seq<World>, events: seq<Event>, i: nat, j: nat,
                     holder: Option<Holder>, held: bool, liveness: Liveness, ticks: Option<int>)
    requires History(run, events) && i <= j < |run|
    requires run[i].pidfile.Some? && run[i].pidfile.value.ticks.Some?
    requires Truthful(run[j], run[i].pidfile.value.pid, liveness)
    requires TruthfulTicks(run[j], run[i].pidfile.value.pid, ticks)
    ensures Judge(run[i].pidfile, holder, held, liveness, ticks) == Gone ==> run[i].pidfile.value.pid !in run[j].live
    ensures Judge(run[i].pidfile, holder, held, liveness, ticks) == NotOurs ==>
              !Runs(run[j], run[i].pidfile.value.pid, run[i].pidfile.value.writer)
  {
    HistoryKeepsConsistent(run, events, 0, i);
    HistoryKeepsConsistent(run, events, i, j);
    WriterKeepsTicks(run, events, i, j);
  }

  /** While the writer of a record with ticks runs under its pid, it still has
      the recorded ticks. */
  lemma {:induction false} WriterKeepsTicks(run: seq<World>, events: seq<Event>, i: nat, j: nat)
    requires History(run, events) && i <= j < |run|
    requires run[i].pidfile.Some? && run[i].pidfile.value.ticks.Some?
    ensures var r := run[i].pidfile.value;
            Runs(run[j], r.pid, r.writer) ==> run[j].live[r.pid].ticks == r.ticks.value
    decreases j
  {
    SingleTicks(run, events, j);
    HistoryKeepsConsistent(run, events, 0, i);
    HistoryKeepsConsistent(run, events, i, j);
  }

  /** One instance is started once: it has one pair of pid and ticks. */
  ghost predicate OnePair(w: World) {
    forall a, b :: a in w.used && b in w.used && w.used[a] == w.used[b] ==> a == b
  }

  lemma {:induction false} SingleTicks(run: seq<World>, events: seq<Event>, j: nat)
    requires History(run, events) && j < |run|
    ensures OnePair(run[j])
    decreases j
  {
    if j > 0 {
      SingleTicks(run, events, j - 1);
      HistoryKeepsConsistent(run, events, 0, j - 1);
      assert run[j - 1 + 1] == Apply(run[j - 1], events[j - 1]);
    }
  }

  /** A gateway in good standing: live, holding the lock and named by the body
      and by the pidfile it wrote. */
  ghost predicate InGoodStanding(w: World) {
    && w.pidfile.Some? && Runs(w, w.pidfile.value.pid, w.pidfile.value.writer)
    && w.lock == Some(w.pidfile.value.writer) && w.written == w.lock && w.body.Some? && w.body.value.gateway
  }

  /** It is judged `ours` exactly when its ticks cannot be read now, or could
      be read when the pidfile was written. */
  lemma GatewayJudgedOursExactly(run: seq<World>, events: seq<Event>, i: nat, ticks: Option<int>)
    requires History(run, events) && i < |run| && InGoodStanding(run[i])
    requires TruthfulTicks(run[i], run[i].pidfile.value.pid, ticks)
    ensures (Judge(run[i].pidfile, run[i].body, true, Alive, ticks) == Ours)
         == (ticks.None? || run[i].pidfile.value.ticks.Some?)
  {
    HistoryKeepsConsistent(run, events, i, i);
    if run[i].pidfile.value.ticks.Some? {
      WriterKeepsTicks(run, events, i, i);
    }
  }

  // ---- what a hold-based verdict means ------------------------------------------------

  /** Event `t` is the last write of the hold's body before moment `b`. */
  ghost predicate LastWrite(events: seq<Event>, t: nat, b: nat) {
    && t < b <= |events| && events[t].WriteBody?
    && forall k :: t < k < b ==> !events[k].WriteBody?
  }

  /** A body that is read was written, and reads as it was last written. */
  lemma {:induction false} BodyWasWritten(run: seq<World>, events: seq<Event>, b: nat) returns (t: nat)
    requires History(run, events) && b < |run| && run[b].body.Some?
    ensures LastWrite(events, t, b)
    ensures run[b].body == Some(Holder(Some(events[t].pid), events[t].gateway))
  {
    var e := events[b - 1];
    assert run[b - 1 + 1] == Apply(run[b - 1], e);
    if e.WriteBody? {
      t := b - 1;
    } else {
      t := BodyWasWritten(run, events, b - 1);
    }
  }

  /** Without a new start under a pid, who runs there has run there since. */
  lemma {:induction false} NotRestarted(run: seq<World>, events: seq<Event>, t: nat, l: nat, pid: nat)
    requires History(run, events) && t < l < |run| && pid in run[l].live
    requires forall k :: t < k < l ==> !(events[k].Start? && events[k].pid == pid)
    ensures pid in run[t + 1].live && run[t + 1].live[pid] == run[l].live[pid]
    decreases l
  {
    if l > t + 1 {
      assert run[l - 1 + 1] == Apply(run[l - 1], events[l - 1]);
      NotRestarted(run, events, t, l - 1, pid);
    }
  }

  /** After a new start a pid never names an older instance again. */
  lemma {:induction false} Restarted(run: seq<World>, events: seq<Event>, k: nat, l: nat, pid: nat)
    requires History(run, events) && k < l < |run| && events[k].Start? && events[k].pid == pid
    ensures pid in run[l].live ==> run[l].live[pid].instance >= run[k].next
    ensures run[l].next >= run[k].next
    decreases l
  {
    assert run[l - 1 + 1] == Apply(run[l - 1], events[l - 1]);
    if l > k + 1 {
      Restarted(run, events, k, l - 1, pid);
    }
  }

  /** Without a new taker, who holds the lock has held it since. */
  lemma {:induction false} NotRetaken(run: seq<World>, events: seq<Event>, t: nat, h: nat)
    requires History(run, events) && t < h < |run| && run[h].lock.Some?
    requires forall k :: t < k < h ==> !events[k].TakeLock?
    ensures forall m :: t < m <= h ==> run[m].lock == run[h].lock
    decreases h
  {
    if h > t + 1 {
      assert run[h - 1 + 1] == Apply(run[h - 1], events[h - 1]);
      NotRetaken(run, events, t, h - 1);
    }
  }

  ghost predicate HeldSince(run: seq<World>, t: nat, h: nat, instance: nat)
    requires h < |run|
  {
    forall m :: t < m <= h ==> run[m].lock == Some(instance)
  }

  /** A hold-based `ours`, from any readings: the pidfile read at `i`, the body
      at `b`, the lock tried at `h` and the process probed at `l`, whatever
      happens in between. The probe then said alive, the lock was held, and the
      body was a gateway's with the pid of the pidfile. The verdict rests on the
      gateway that last wrote that body. It is the live process the pidfile
      names exactly if nothing was started under that pid since, and it has held
      the lock ever since exactly if nobody took it. */
  lemma HoldVouchesExactly(run: seq<World>, events: seq<Event>, i: nat, b: nat, h: nat, l: nat,
                           held: bool, liveness: Liveness)
    returns (t: nat)
    requires History(run, events) && i <= b <= h <= l < |run|
    requires held == run[h].lock.Some?
    requires run[i].pidfile.Some? ==> Truthful(run[l], run[i].pidfile.value.pid, liveness)
    requires Judge(run[i].pidfile, run[b].body, held, liveness, None) == Ours
    ensures run[i].pidfile.Some? && run[i].pidfile.value.pid in run[l].live && run[h].lock.Some?
    ensures run[b].body == Some(Holder(Some(run[i].pidfile.value.pid), true))
    ensures LastWrite(events, t, b)
    ensures events[t].gateway && events[t].pid == run[i].pidfile.value.pid && events[t].pid in run[t].live
    ensures var pid, writer := events[t].pid, run[t].live[events[t].pid].instance;
            && (Runs(run[l], pid, writer) <==> forall k :: t < k < l ==> !(events[k].Start? && events[k].pid == pid))
            && (HeldSince(run, t, h, writer) <==> forall k :: t < k < h ==> !events[k].TakeLock?)
  {
    hide Judge;
    VerdictExactly(run[i].pidfile, run[b].body, held, liveness, None);
    t := BodyWasWritten(run, events, b);
    assert run[t + 1] == Apply(run[t], events[t]);
    var pid, writer := events[t].pid, run[t].live[events[t].pid].instance;
    StartedSince(run, events, t, l, pid);
    TakenSince(run, events, t, h, writer);
  }

  lemma StartedSince(run: seq<World>, events: seq<Event>, t: nat, l: nat, pid: nat)
    requires History(run, events) && t < l < |run| && pid in run[t].live && run[t + 1].live == run[t].live
    requires pid in run[l].live
    ensures Runs(run[l], pid, run[t].live[pid].instance)
       <==> forall k :: t < k < l ==> !(events[k].Start? && events[k].pid == pid)
  {
    if forall k :: t < k < l ==> !(events[k].Start? && events[k].pid == pid) {
      NotRestarted(run, events, t, l, pid);
    } else {
      var k :| t < k < l && events[k].Start? && events[k].pid == pid;
      HistoryKeepsConsistent(run, events, t, t);
      HistoryKeepsConsistent(run, events, t, k);
      Restarted(run, events, k, l, pid);
    }
  }

  lemma TakenSince(run: seq<World>, events: seq<Event>, t: nat, h: nat, writer: nat)
    requires History(run, events) && t < h < |run| && run[h].lock.Some? && run[t + 1].lock == Some(writer)
    ensures HeldSince(run, t, h, writer) <==> forall k :: t < k < h ==> !events[k].TakeLock?
  {
    if forall k :: t < k < h ==> !events[k].TakeLock? {
      NotRetaken(run, events, t, h);
    } else {
      var k :| t < k < h && events[k].TakeLock?;
      assert Enabled(run[k], events[k]) && run[k].lock.None?;
    }
  }

  // ---- when a live gateway keeps its pidfile ---------------------------------------------

  function PlayFrom(w: World, events: seq<Event>): Option<World>
    decreases |events|
  {
    if events == [] then Some(w)
    else
      var u :- PlayFrom(w, events[..|events| - 1]);
      if Enabled(u, events[|events| - 1]) then Some(Apply(u, events[|events| - 1])) else None
  }

  function Play(events: seq<Event>): Option<World> {
    PlayFrom(Initial(), events)
  }

  lemma PlaysFrom(start: World, events: seq<Event>, w: World, e: Event)
    requires PlayFrom(start, events) == Some(w) && Enabled(w, e)
    ensures PlayFrom(start, events + [e]) == Some(Apply(w, e))
  {
    assert (events + [e])[..|events|] == events;
  }

  lemma Plays(events: seq<Event>, w: World, e: Event)
    requires Play(events) == Some(w) && Enabled(w, e)
    ensures Play(events + [e]) == Some(Apply(w, e))
  {
    PlaysFrom(Initial(), events, w, e);
  }

  /** The gateway under this pid runs, holds the lock, and its pidfile stands. */
  ghost predicate Stands(w: World, pid: nat) {
    Holds(w, pid) && w.pidfile.Some? && w.pidfile.value.pid == pid && w.pidfile.value.writer == w.live[pid].instance
  }

  /** The gateway itself neither ends nor gives up the hold. */
  predicate Stays(events: seq<Event>, pid: nat) {
    forall e :: e in events ==> e != Exit(pid) && e != ReleaseLock(pid) && e != Stop(pid)
  }

  /** A removal is still on its way: of a gateway that has stopped, or of a stop
      command that has condemned the record it read, or read one of another pid. */
  ghost predicate Threatened(w: World, pid: nat) {
    w.stopping != {} || exists c :: c in w.commands && (w.commands[c].gone || w.commands[c].record.pid != pid)
  }

  lemma OneHolder(w: World, p: nat, q: nat)
    requires Named(w) && Holds(w, p) && q in w.live && q != p
    ensures !Holds(w, q) && w.lock != Some(w.live[q].instance)
  {}

  /** A world that is safe. */
  ghost predicate Safe(w: World, pid: nat) {
    && Stands(w, pid) && w.stopping == {}
    && (forall c :: c in w.commands ==> !w.commands[c].gone && w.commands[c].record.pid == pid)
  }

  lemma SafeStep(w: World, e: Event, pid: nat)
    requires Named(w) && Safe(w, pid) && Enabled(w, e) && Stays([e], pid)
    ensures Safe(Apply(w, e), pid)
  {
    assert e in [e];
    forall q | q in w.live && q != pid ensures !Holds(w, q) && w.lock != Some(w.live[q].instance) {
      OneHolder(w, pid, q);
    }
    hide Named;
  }

  lemma {:induction false} SafeContinuation(w: World, events: seq<Event>, pid: nat)
    requires Consistent(w) && Safe(w, pid) && Stays(events, pid)
    ensures PlayFrom(w, events).Some? ==>
              Consistent(PlayFrom(w, events).value) && Safe(PlayFrom(w, events).value, pid)
    decreases |events|
  {
    hide Acting, Described, Attested, Safe, Apply, Enabled;
    if events != [] && PlayFrom(w, events).Some? {
      var init, last := events[..|events| - 1], events[|events| - 1];
      assert forall e :: e in init ==> e in events;
      SafeContinuation(w, init, pid);
      var u := PlayFrom(w, init).value;
      assert last in events;
      ApplyKeepsConsistent(u, last);
      SafeStep(u, last, pid);
    }
  }

  lemma RemovalArrives(w: World, pid: nat) returns (events: seq<Event>)
    requires Consistent(w) && Stands(w, pid) && Threatened(w, pid)
    ensures Stays(events, pid) && PlayFrom(w, events).Some? && PlayFrom(w, events).value.pidfile.None?
  {
    if w.stopping != {} {
      var x :| x in w.stopping;
      assert Running(w, x);
      var q :| Runs(w, q, x);
      events := [] + [RemoveStopped(q)];
      PlaysFrom(w, [], w, RemoveStopped(q));
    } else {
      var c :| c in w.commands && (w.commands[c].gone || w.commands[c].record.pid != pid);
      events := CondemnedArrives(w, pid, c);
    }
  }

  lemma CondemnedArrives(w: World, pid: nat, c: nat) returns (events: seq<Event>)
    requires Stands(w, pid) && c in w.commands && (w.commands[c].gone || w.commands[c].record.pid != pid)
    ensures Stays(events, pid) && PlayFrom(w, events).Some? && PlayFrom(w, events).value.pidfile.None?
  {
    var u := w;
    events := [];
    if !w.commands[c].gone {
      var q := w.commands[c].record.pid;
      if q in w.live {
        PlaysFrom(w, events, u, Exit(q));
        events, u := events + [Exit(q)], Apply(u, Exit(q));
      }
      PlaysFrom(w, events, u, Condemn(c));
      events, u := events + [Condemn(c)], Apply(u, Condemn(c));
    }
    PlaysFrom(w, events, u, RemoveGone(c));
    events := events + [RemoveGone(c)];
  }

  /** A gateway that runs, holds the lock and has its pidfile in place keeps it
      there through everything others may do while it stays, if and only if no
      removal is still on its way. */
  lemma KeepsPidfileExactly(w: World, pid: nat)
    requires Consistent(w) && Stands(w, pid)
    ensures (forall events :: Stays(events, pid) && PlayFrom(w, events).Some? ==> Stands(PlayFrom(w, events).value, pid))
       <==> !Threatened(w, pid)
  {
    if Threatened(w, pid) {
      var events := RemovalArrives(w, pid);
      assert !Stands(PlayFrom(w, events).value, pid);
    } else {
      forall events | Stays(events, pid) && PlayFrom(w, events).Some?
        ensures Stands(PlayFrom(w, events).value, pid)
      {
        SafeContinuation(w, events, pid);
      }
    }
  }

  // ---- histories in which it matters -----------------------------------------------------

  /** A process starts as instance `n` and serves: lock, body, pidfile. */
  lemma Serves(events: seq<Event>, w: World, pid: nat, ticks: int, readable: bool) returns (more: seq<Event>, after: World)
    requires Play(events) == Some(w) && Enabled(w, Start(pid, ticks)) && w.lock.None?
    ensures Play(more) == Some(after) && WritePidfile(pid, readable) in more
    ensures after == w.(live := w.live[pid := Process(w.next, ticks)], used := w.used[(pid, ticks) := w.next],
                        next := w.next + 1, lock := Some(w.next), written := Some(w.next),
                        body := Some(Holder(Some(pid), true)),
                        pidfile := Some(Record(pid, if readable then Some(ticks) else None, w.next)))
  {
    hide Play;
    Plays(events, w, Start(pid, ticks));
    var e1, w1 := events + [Start(pid, ticks)], Apply(w, Start(pid, ticks));
    Plays(e1, w1, TakeLock(pid));
    var e2, w2 := e1 + [TakeLock(pid)], Apply(w1, TakeLock(pid));
    Plays(e2, w2, WriteBody(pid, true));
    var e3, w3 := e2 + [WriteBody(pid, true)], Apply(w2, WriteBody(pid, true));
    Plays(e3, w3, WritePidfile(pid, readable));
    more, after := e3 + [WritePidfile(pid, readable)], Apply(w3, WritePidfile(pid, readable));
    assert more[|e3|] == WritePidfile(pid, readable);
  }

  ghost predicate JudgedNotOurs(events: seq<Event>, w: World) {
    && Play(events) == Some(w) && InGoodStanding(w)
    && Judge(w.pidfile, w.body, true, Alive, Some(w.live[w.pidfile.value.pid].ticks)) == NotOurs
  }

  /** A gateway that could not read its own ticks is judged not ours as soon as
      someone can. */
  lemma UnreadableTicksMislead()
    ensures exists events, w :: JudgedNotOurs(events, w)
  {
    var e, w := Serves([], Initial(), 7, 1, false);
    assert Runs(w, 7, 0);
    assert JudgedNotOurs(e, w);
  }

  ghost predicate MisledByStaleBody(events: seq<Event>, w: World) {
    && Play(events) == Some(w) && w.lock.Some? && w.pidfile.Some?
    && Judge(w.pidfile, w.body, true, Alive, None) == Ours
    && w.pidfile.value.pid in w.live
    && !Runs(w, w.pidfile.value.pid, w.pidfile.value.writer) && !Runs(w, w.pidfile.value.pid, w.lock.value)
  }

  /** Between taking the lock and rewriting the body a holder is still described
      by its predecessor: an unrelated process on the dead gateway's pid is
      judged `ours` when ticks are unobtainable. */
  lemma StaleBodyVouches()
    ensures exists events, w :: MisledByStaleBody(events, w)
  {
    var e4, w4 := Serves([], Initial(), 7, 1, true);
    hide Play;
    Plays(e4, w4, Exit(7));
    var e5, w5 := e4 + [Exit(7)], Apply(w4, Exit(7));
    Plays(e5, w5, Start(7, 2));
    var e6, w6 := e5 + [Start(7, 2)], Apply(w5, Start(7, 2));
    Plays(e6, w6, Start(8, 2));
    var e7, w7 := e6 + [Start(8, 2)], Apply(w6, Start(8, 2));
    Plays(e7, w7, TakeLock(8));
    assert MisledByStaleBody(e7 + [TakeLock(8)], Apply(w7, TakeLock(8)));
  }

  /** A live gateway holds the lock and has written its pidfile, yet the file
      is gone. */
  ghost predicate PidfileLost(events: seq<Event>, w: World, pid: nat) {
    && Play(events) == Some(w) && Holds(w, pid) && WritePidfile(pid, true) in events
    && w.written == w.lock && w.body == Some(Holder(Some(pid), true))
    && Judge(w.pidfile, w.body, true, Alive, Some(w.live[pid].ticks)) == Absent
  }

  /** A stopping gateway releases the lock before it removes the pidfile, so it
      may remove its successor's, which is then judged absent. */
  lemma SuccessorLosesItsPidfile()
    ensures exists events, w :: PidfileLost(events, w, 8)
  {
    var e4, w4 := Serves([], Initial(), 7, 1, true);
    Plays(e4, w4, Stop(7));
    var e, w := Serves(e4 + [Stop(7)], Apply(w4, Stop(7)), 8, 1, true);
    hide Play;
    Plays(e, w, RemoveStopped(7));
    assert PidfileLost(e + [RemoveStopped(7)], Apply(w, RemoveStopped(7)), 8);
  }

  /** A stop command has judged a dead gateway's record `gone`. */
  lemma CommandCondemns() returns (events: seq<Event>, w: World)
    ensures Play(events) == Some(w) && 1 in w.commands && w.commands[1].gone
    ensures w.lock.None? && 8 !in w.live && (8, 1) !in w.used
  {
    var e4, w4 := Serves([], Initial(), 7, 1, true);
    hide Play;
    Plays(e4, w4, ReadRecord(1));
    var e5, w5 := e4 + [ReadRecord(1)], Apply(w4, ReadRecord(1));
    Plays(e5, w5, Exit(7));
    var e6, w6 := e5 + [Exit(7)], Apply(w5, Exit(7));
    Plays(e6, w6, Condemn(1));
    events, w := e6 + [Condemn(1)], Apply(w6, Condemn(1));
  }

  /** So may a stop command that judged the predecessor's record `gone`. */
  lemma CommandRemovesSuccessors()
    ensures exists events, w :: PidfileLost(events, w, 8)
                             && exists c, i :: 0 <= i < |events| && events[i] == RemoveGone(c)
  {
    hide Play;
    var e6, w6 := CommandCondemns();
    var e, w := Serves(e6, w6, 8, 1, true);
    Plays(e, w, RemoveGone(1));
    var all := e + [RemoveGone(1)];
    assert PidfileLost(all, Apply(w, RemoveGone(1)), 8) && all[|e|] == RemoveGone(1);
  }
}
