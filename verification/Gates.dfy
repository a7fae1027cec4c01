/** The gate catalog: which catalogs are accepted, and how requested gates and their dependencies are run. */
module Gates {
  import opened Closure
  import opened Wrappers

  datatype Step = Step(id: string, required: bool, dependsOn: seq<string>, cwd: string,
                       commands: seq<seq<string>>, prerequisites: seq<string>)

  datatype Catalog = Catalog(schemaVersion: int, steps: seq<Step>)

  datatype LoadError =
    | UnsupportedCatalog | DuplicateOrEmptyId | NotRequired | BadDependency | BadDirectory | NothingToRun | BadArguments

  // ----- loading ------------------------------------------------------------------

  function IdsBefore(steps: seq<Step>, n: nat): set<string>
    requires n <= |steps|
  {
    set i | 0 <= i < n :: steps[i].id
  }

  predicate GoodCommands(commands: seq<seq<string>>) {
    forall c | c in commands :: c != [] && forall a | a in c :: a != ""
  }

  /** The nth step is acceptable after the steps before it. */
  predicate GoodStep(steps: seq<Step>, n: nat)
    requires n < |steps|
  {
    var s := steps[n];
    s.id != "" && s.id !in IdsBefore(steps, n) && s.required &&
    (forall d | d in s.dependsOn :: d in IdsBefore(steps, n)) &&
    s.cwd in {".", "server"} && s.commands != [] && s.prerequisites != [] && GoodCommands(s.commands)
  }

  /** Known version, at least one step, distinct ids, and dependencies only on earlier steps. */
  predicate GoodCatalog(c: Catalog) {
    c.schemaVersion == 1 && c.steps != [] && forall n | 0 <= n < |c.steps| :: GoodStep(c.steps, n)
  }

  /** A step with all its parts, told without its neighbours. */
  predicate Whole(s: Step) {
    s.id != "" && s.required && (s.cwd == "." || s.cwd == "server") && s.commands != [] && s.prerequisites != [] &&
    forall cmd | cmd in s.commands :: cmd != [] && "" !in cmd
  }

  lemma StepMeans(steps: seq<Step>, n: nat)
    requires n < |steps|
    ensures GoodStep(steps, n) <==>
              Whole(steps[n]) && (forall m | 0 <= m < n :: steps[m].id != steps[n].id) &&
              forall d | d in steps[n].dependsOn :: exists m | 0 <= m < n :: steps[m].id == d
  {
    assert forall cmd: seq<string> :: "" !in cmd <==> forall a | a in cmd :: a != "";
  }

  /** An accepted catalog, told step by step: every step is whole, no two have one id, and each dependency is
      the id of an earlier step. */
  lemma CatalogMeans(c: Catalog)
    ensures GoodCatalog(c) <==>
              c.schemaVersion == 1 && c.steps != [] &&
              (forall n | 0 <= n < |c.steps| :: Whole(c.steps[n])) &&
              (forall m, n | 0 <= m < n < |c.steps| :: c.steps[m].id != c.steps[n].id) &&
              (forall n, d | 0 <= n < |c.steps| && d in c.steps[n].dependsOn ::
                exists m | 0 <= m < n :: c.steps[m].id == d)
  {
    forall n | 0 <= n < |c.steps|
      ensures GoodStep(c.steps, n) <==>
                Whole(c.steps[n]) && (forall m | 0 <= m < n :: c.steps[m].id != c.steps[n].id) &&
                forall d | d in c.steps[n].dependsOn :: exists m | 0 <= m < n :: c.steps[m].id == d
    {
      StepMeans(c.steps, n);
    }
    hide GoodStep, Whole;
  }

  method Load(data: Catalog) returns (r: Result<Catalog, LoadError>)
    ensures r.Ok? <==> GoodCatalog(data)
    ensures r.Ok? ==> r.value == data
  {
    if data.schemaVersion != 1 || data.steps == [] {
      return Err(UnsupportedCatalog);
    }
    var seen: set<string> := {};
    for n := 0 to |data.steps|
      invariant seen == IdsBefore(data.steps, n)
      invariant forall k | 0 <= k < n :: GoodStep(data.steps, k)
    {
      var step := data.steps[n];
      assert GoodCatalog(data) ==> GoodStep(data.steps, n);
      if step.id == "" || step.id in seen { return Err(DuplicateOrEmptyId); }
      if !step.required { return Err(NotRequired); }
      if exists d | d in step.dependsOn :: d !in seen { return Err(BadDependency); }
      if step.cwd !in {".", "server"} { return Err(BadDirectory); }
      if step.commands == [] || step.prerequisites == [] { return Err(NothingToRun); }
      if !GoodCommands(step.commands) { return Err(BadArguments); }
      seen := seen + {step.id};
    }
    r := Ok(data);
  }

  // ----- looking up a gate ------------------------------------------------------------

  function Known(c: Catalog): set<string> {
    IdsBefore(c.steps, |c.steps|)
  }

  /** Where a gate stands in the catalog. */
  function Position(c: Catalog, key: string): (n: nat)
    requires key in Known(c)
    ensures n < |c.steps| && c.steps[n].id == key && forall i | 0 <= i < n :: c.steps[i].id != key
  {
    PositionFrom(c, key, 0)
  }

  function PositionFrom(c: Catalog, key: string, from: nat): (n: nat)
    requires exists i :: from <= i < |c.steps| && c.steps[i].id == key
    ensures from <= n < |c.steps| && c.steps[n].id == key && forall i | from <= i < n :: c.steps[i].id != key
    decreases |c.steps| - from
  {
    if c.steps[from].id == key then from else PositionFrom(c, key, from + 1)
  }

  function Gate(c: Catalog, key: string): Step
    requires key in Known(c)
  {
    c.steps[Position(c, key)]
  }

  function DependsOn(c: Catalog): string -> seq<string> {
    key => if key in Known(c) then Gate(c, key).dependsOn else []
  }

  /** Dependencies are known and stand earlier in the catalog. */
  lemma DependenciesAreEarlier(c: Catalog, key: string, d: string)
    requires GoodCatalog(c) && key in Known(c) && d in Gate(c, key).dependsOn
    ensures d in Known(c) && Position(c, d) < Position(c, key)
  {
    var n := Position(c, key);
    assert GoodStep(c.steps, n);
    var m :| 0 <= m < n && c.steps[m].id == d;
  }

  // ----- running ------------------------------------------------------------------------

  datatype Invocation = Invocation(argv: seq<string>, cwd: string)

  /** The machine a run happens on: its tools, its Python, and each command's return code, which may
      depend on everything run before. */
  datatype Host = Host(tools: set<string>, python: string, run: (seq<Invocation>, Invocation) -> int)

  function Substitute(host: Host, argv: seq<string>): seq<string> {
    seq(|argv|, i requires 0 <= i < |argv| => if argv[i] == "{python}" then host.python else argv[i])
  }

  function InvocationOf(host: Host, step: Step, i: nat): Invocation
    requires i < |step.commands|
  {
    Invocation(Substitute(host, step.commands[i]), step.cwd)
  }

  predicate ToolsPresent(host: Host, step: Step) {
    forall t | t in step.prerequisites :: t == "py" || t in host.tools
  }

  /** The commands of a step from the ith on, run in order until one fails. */
  function CommandLog(host: Host, step: Step, i: nat, log: seq<Invocation>): (bool, seq<Invocation>)
    requires i <= |step.commands|
    decreases |step.commands| - i
  {
    if i == |step.commands| then (true, log)
    else
      var inv := InvocationOf(host, step, i);
      if host.run(log, inv) != 0 then (false, log + [inv]) else CommandLog(host, step, i + 1, log + [inv])
  }

  /** What executing a step does to the log of commands. */
  function Executed(host: Host, step: Step, log: seq<Invocation>): (bool, seq<Invocation>) {
    if ToolsPresent(host, step) then CommandLog(host, step, 0, log) else (false, log)
  }

  /** A successful step ran exactly its own commands, in order, with every return code zero. */
  lemma {:induction false} SuccessRanEverything(host: Host, step: Step, i: nat, log: seq<Invocation>)
    requires i <= |step.commands| && CommandLog(host, step, i, log).0
    ensures var after := CommandLog(host, step, i, log).1;
            |after| == |log| + |step.commands| - i && log <= after &&
            forall k | i <= k < |step.commands| ::
              after[|log| + k - i] == InvocationOf(host, step, k) &&
              host.run(after[..|log| + k - i], InvocationOf(host, step, k)) == 0
    decreases |step.commands| - i
  {
    if i < |step.commands| {
      var inv := InvocationOf(host, step, i);
      SuccessRanEverything(host, step, i + 1, log + [inv]);
      var after := CommandLog(host, step, i, log).1;
      assert after[..|log|] == log;
      assert after[|log|] == inv;
    }
  }

  /** A command runs in its step's directory, with every {python} argument replaced and all others as they are. */
  lemma ArgumentsAre(host: Host, step: Step, i: nat, k: nat)
    requires i < |step.commands| && k < |step.commands[i]|
    ensures var inv := InvocationOf(host, step, i);
            inv.cwd == step.cwd && |inv.argv| == |step.commands[i]| &&
            inv.argv[k] == if step.commands[i][k] == "{python}" then host.python else step.commands[i][k]
  {
  }

  /** A tool that is missing, py apart, fails the step before anything runs; otherwise its commands run. */
  lemma ToolsDecide(host: Host, step: Step, log: seq<Invocation>)
    ensures (exists t | t in step.prerequisites :: t != "py" && t !in host.tools) ==>
              Executed(host, step, log) == (false, log)
    ensures (forall t | t in step.prerequisites :: t == "py" || t in host.tools) ==>
              Executed(host, step, log) == CommandLog(host, step, 0, log)
  {
  }

  /** A failing step ran its commands in order up to one whose return code is not zero, and none after it. */
  lemma {:induction false} FailureStops(host: Host, step: Step, i: nat, log: seq<Invocation>) returns (last: nat)
    requires i <= |step.commands| && !CommandLog(host, step, i, log).0
    ensures i <= last < |step.commands|
    ensures var after := CommandLog(host, step, i, log).1;
            |after| == |log| + last - i + 1 && log <= after &&
            forall k | i <= k <= last ::
              after[|log| + k - i] == InvocationOf(host, step, k) &&
              (host.run(after[..|log| + k - i], InvocationOf(host, step, k)) == 0 <==> k < last)
    decreases |step.commands| - i
  {
    var inv := InvocationOf(host, step, i);
    var after := CommandLog(host, step, i, log).1;
    if host.run(log, inv) != 0 {
      last := i;
    } else {
      last := FailureStops(host, step, i + 1, log + [inv]);
    }
    assert after[..|log|] == log && after[|log|] == inv;
  }

  /** The requested gates' order of execution keeps dependencies first and repeats nothing. */
  ghost predicate Ordered(c: Catalog, ran: seq<string>) {
    (forall i | 0 <= i < |ran| :: ran[i] in Known(c)) &&
    (forall i, d | 0 <= i < |ran| && d in Gate(c, ran[i]).dependsOn :: d in ran[..i]) &&
    (forall i, j | 0 <= i < j < |ran| :: ran[i] != ran[j])
  }

  /** Executing these gates one after the other: whether all succeeded, and every command that ran. */
  function RunLog(c: Catalog, host: Host, ran: seq<string>): (bool, seq<Invocation>)
    requires forall i | 0 <= i < |ran| :: ran[i] in Known(c)
  {
    if ran == [] then (true, [])
    else
      var before := RunLog(c, host, ran[..|ran| - 1]);
      var last := Executed(host, Gate(c, ran[|ran| - 1]), before.1);
      (before.0 && last.0, last.1)
  }

  lemma OrderedOneMore(c: Catalog, ran: seq<string>, key: string)
    requires Ordered(c, ran) && key in Known(c) && key !in ran
    requires forall d | d in Gate(c, key).dependsOn :: d in ran
    ensures Ordered(c, ran + [key]) && Elements(ran + [key]) == Elements(ran) + {key}
  {
    var all := ran + [key];
    assert all[..|ran|] == ran;
    forall i, d | 0 <= i < |all| && d in Gate(c, all[i]).dependsOn ensures d in all[..i] {
      if i < |ran| {
        assert d in ran[..i] && all[..i] == ran[..i];
      }
    }
  }

  /** Everything started completed: in a good order, all of it needed, and this is the log it left. */
  ghost predicate AllCompleted(c: Catalog, host: Host, needed: set<string>, ran: seq<string>,
                               completed: set<string>, log: seq<Invocation>) {
    Ordered(c, ran) && completed == Elements(ran) && completed <= needed && RunLog(c, host, ran) == (true, log)
  }

  /** The last gate started failed, after its dependencies; everything before it completed. */
  ghost predicate LastFailed(c: Catalog, host: Host, needed: set<string>, ran: seq<string>,
                             completed: set<string>, log: seq<Invocation>) {
    ran != [] && Ordered(c, ran) && completed == Elements(ran[..|ran| - 1]) && Elements(ran) <= needed &&
    RunLog(c, host, ran[..|ran| - 1]).0 && RunLog(c, host, ran) == (false, log)
  }

  lemma OneMoreGate(c: Catalog, host: Host, needed: set<string>, ran: seq<string>, completed: set<string>,
                    log: seq<Invocation>, key: string, ok: bool, after: seq<Invocation>)
    requires AllCompleted(c, host, needed, ran, completed, log)
    requires key in Known(c) && key in needed && key !in completed
    requires forall d | d in Gate(c, key).dependsOn :: d in completed
    requires (ok, after) == Executed(host, Gate(c, key), log)
    ensures if ok then AllCompleted(c, host, needed, ran + [key], completed + {key}, after)
            else LastFailed(c, host, needed, ran + [key], completed, after)
  {
    OrderedOneMore(c, ran, key);
    assert (ran + [key])[..|ran|] == ran;
  }

  /** One run of the catalog for a set of gates. */
  class GateRun {
    const catalog: Catalog
    const host: Host
    var completed: set<string>
    var log: seq<Invocation>
    ghost var ran: seq<string>          // the gates execute was called for, in order
    ghost const needed: set<string>     // a closed set of gates, the requested ones among them

    ghost predicate Valid()
      reads this
    {
      GoodCatalog(catalog) && ClosedUnder(DependsOn(catalog), needed) &&
      AllCompleted(catalog, host, needed, ran, completed, log)
    }

    ghost predicate Failed()
      reads this
    {
      LastFailed(catalog, host, needed, ran, completed, log)
    }

    constructor (catalog: Catalog, host: Host, ghost needed: set<string>)
      requires GoodCatalog(catalog) && ClosedUnder(DependsOn(catalog), needed)
      ensures Valid() && completed == {} && log == [] && ran == []
      ensures this.catalog == catalog && this.host == host && this.needed == needed
    {
      this.catalog, this.host, this.needed := catalog, host, needed;
      completed, ran, log := {}, [], [];
    }

    method Execute(step: Step) returns (ok: bool)
      modifies this`log
      ensures (ok, log) == Executed(host, step, old(log))
    {
      if !ToolsPresent(host, step) {
        return false;
      }
      var i := 0;
      while i < |step.commands|
        invariant 0 <= i <= |step.commands|
        invariant CommandLog(host, step, 0, old(log)) == CommandLog(host, step, i, log)
      {
        var inv := InvocationOf(host, step, i);
        var code := host.run(log, inv);
        log := log + [inv];
        if code != 0 {
          return false;
        }
        i := i + 1;
      }
      ok := true;
    }

    /** All these gates stand before position n. */
    ghost predicate NothingLater(keys: set<string>, n: nat) {
      forall k | k in keys :: k in Known(catalog) && Position(catalog, k) < n
    }

    /** Runs a gate after its dependencies, once; recursion goes down the catalog. */
    method Visit(key: string) returns (ok: bool)
      requires Valid() && key in Known(catalog) && key in needed
      modifies this
      ensures old(ran) <= ran && old(completed) <= completed
      ensures if ok then Valid() && key in completed else Failed()
      ensures ok ==> NothingLater(completed - old(completed), Position(catalog, key) + 1)
      decreases Position(catalog, key), 1
    {
      if key in completed {
        return true;
      }
      var deps := Gate(catalog, key).dependsOn;
      hide AllCompleted, LastFailed, GoodCatalog;
      assert deps == DependsOn(catalog)(key);
      forall d | d in deps ensures d in Known(catalog) && Position(catalog, d) < Position(catalog, key) {
        DependenciesAreEarlier(catalog, key, d);
      }
      ok := VisitAll(deps, Position(catalog, key));
      if !ok {
        return;
      }
      ghost var before := log;
      ok := Execute(Gate(catalog, key));
      OneMoreGate(catalog, host, needed, ran, completed, before, key, ok, log);
      ran := ran + [key];
      if ok {
        completed := completed + {key};
      }
    }

    /** Visits gates one after the other, stopping at the first failure. */
    method VisitAll(keys: seq<string>, ghost n: nat) returns (ok: bool)
      requires Valid() && forall k | k in keys :: k in Known(catalog) && k in needed && Position(catalog, k) < n
      modifies this
      ensures old(ran) <= ran && old(completed) <= completed
      ensures if ok then Valid() && forall k | k in keys :: k in completed else Failed()
      ensures ok ==> NothingLater(completed - old(completed), n)
      decreases n, 0
    {
      hide AllCompleted, LastFailed, GoodCatalog;
      for i := 0 to |keys|
        invariant Valid() && old(ran) <= ran && old(completed) <= completed
        invariant forall j | 0 <= j < i :: keys[j] in completed
        invariant NothingLater(completed - old(completed), n)
      {
        assert keys[i] in keys;
        ok := Visit(keys[i]);
        if !ok {
          return;
        }
      }
      ok := true;
    }
  }

  lemma DependenciesAreBounded(c: Catalog)
    requires GoodCatalog(c)
    ensures Bounded(DependsOn(c), Known(c))
  {
    forall x, y | y in DependsOn(c)(x) ensures y in Known(c) {
      DependenciesAreEarlier(c, x, y);
    }
  }

  lemma NothingRan(c: Catalog, host: Host)
    ensures Ordered(c, []) && RunLog(c, host, []) == (true, [])
  {
  }

  /** A run of requested gates: unknown requests run nothing; success completes exactly the dependency
      closure, each gate once and after its dependencies; a failure stops at the gate that failed, whose
      dependencies all completed. */
  method RunGates(catalog: Catalog, host: Host, ids: seq<string>)
    returns (code: int, completed: set<string>, log: seq<Invocation>, ghost ran: seq<string>)
    requires GoodCatalog(catalog)
    ensures Ordered(catalog, ran)
    ensures RunLog(catalog, host, ran).1 == log && (code == 0 ==> RunLog(catalog, host, ran).0)
    ensures code in {0, 1}
    ensures ids == [] || (exists k | k in ids :: k !in Known(catalog)) <==> code == 1 && ran == []
    ensures code == 0 ==> LeastClosed(DependsOn(catalog), Elements(ids), completed) && completed == Elements(ran)
    ensures code == 1 && ran != [] ==>
              completed == Elements(ran[..|ran| - 1]) && RunLog(catalog, host, ran[..|ran| - 1]).0 &&
              !RunLog(catalog, host, ran).0
    ensures forall s: set<string> | Elements(ids) <= s && ClosedUnder(DependsOn(catalog), s) :: Elements(ran) <= s
  {
    hide Ordered, RunLog;
    if ids == [] || exists k | k in ids :: k !in Known(catalog) {
      NothingRan(catalog, host);
      return 1, {}, [], [];
    }
    DependenciesAreBounded(catalog);
    ghost var needed := ReachableIsLeastClosed(DependsOn(catalog), Elements(ids), Known(catalog));
    var run := new GateRun(catalog, host, needed);
    assert forall k | k in ids :: k in Elements(ids);
    var ok := run.VisitAll(ids, |catalog.steps|);
    completed, log, ran := run.completed, run.log, run.ran;
    code := if ok then 0 else 1;
    assert !ok ==> ran != [];
    if ok {
      CompletedIsClosed(catalog, ran);
      assert Elements(ids) <= completed;
    }
  }

  /** What ran in order and to the end is closed under dependencies. */
  lemma CompletedIsClosed(c: Catalog, ran: seq<string>)
    requires Ordered(c, ran)
    ensures ClosedUnder(DependsOn(c), Elements(ran))
  {
    forall x, y | x in Elements(ran) && y in DependsOn(c)(x) ensures y in Elements(ran) {
      var i :| 0 <= i < |ran| && ran[i] == x;
      assert y in ran[..i];
    }
  }
}
