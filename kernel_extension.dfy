/**
 * The kernel extension's start(): when the runtime is enabled, create a runtime and register one
 * module per declaration key, in order of the declared orders, skipping every module whose
 * bootstrapping fails.
 */
module KernelExtension {
  import opened Wrappers
  import opened Configuration
  import opened ModuleKey
  import opened Bootstrappers
  import opened ModuleConfig

  /**
   * The classes reachable by name. `instantiable(name)` says whether Class.forName(name).newInstance()
   * succeeds and yields a RuntimeModuleBootstrapper; `bootstrap(name, id, config)` is the module that
   * instance's bootstrapModule builds for that id and configuration, or None where it throws.
   */
  datatype Classpath<M> = Classpath(
    instantiable: string -> bool,
    bootstrap: (string, string, map<string, string>) -> Option<M>)

  /**
   * Why a module was not registered; each is an Exception caught at the end of the loop body.
   * An Error (a missing class dependency, a failing static initialiser) is not caught there and
   * is not part of this model.
   */
  datatype Failure =
    | NotABootstrapper    // class not found, not instantiable, or not a RuntimeModuleBootstrapper
    | MissingConfigValue  // findModuleConfig met an included key without a raw value
    | BootstrapFailed     // bootstrapModule threw

  datatype Outcome<M> = Registered(built: M) | Failed(reason: Failure)

  /** What one iteration of registerModules logs: its entry, whether it warned of an order clash, and its outcome. */
  datatype Attempt<M> = Attempt(entry: Entry, clashWarning: bool, outcome: Outcome<M>)

  /**
   * The try block for one entry: instantiate the bootstrapper, build the module's configuration,
   * bootstrap the module. A module is built exactly when all three steps succeed, and a step
   * runs only when the steps before it succeeded.
   */
  function BootstrapOne<M>(cfg: RawConfig, cp: Classpath<M>, e: Entry): (r: Outcome<M>)
    ensures r.Registered? <==>
      && cp.instantiable(e.bootstrapper)
      && ScopedConfig(cfg, e.id).Some?
      && cp.bootstrap(e.bootstrapper, e.id, ScopedConfig(cfg, e.id).value).Some?
    ensures r.Registered? ==> cp.bootstrap(e.bootstrapper, e.id, ScopedConfig(cfg, e.id).value) == Some(r.built)
    ensures r == Failed(NotABootstrapper) <==> !cp.instantiable(e.bootstrapper)
    ensures r == Failed(MissingConfigValue) <==> cp.instantiable(e.bootstrapper) && ScopedConfig(cfg, e.id).None?
  {
    if !cp.instantiable(e.bootstrapper) then Failed(NotABootstrapper)
    else
      match ScopedConfig(cfg, e.id)
      case None => Failed(MissingConfigValue)
      case Some(moduleConfig) =>
        match cp.bootstrap(e.bootstrapper, e.id, moduleConfig)
        case None => Failed(BootstrapFailed)
        case Some(built) => Registered(built)
  }

  /** The iterations of registerModules over `es`, when the order seen last is `lastOrder`. */
  function Attempts<M>(cfg: RawConfig, cp: Classpath<M>, es: seq<Entry>, lastOrder: int): (r: seq<Attempt<M>>)
    ensures |r| == |es|
    decreases |es|
  {
    if es == [] then []
    else
      [Attempt(es[0], es[0].order == lastOrder, BootstrapOne(cfg, cp, es[0]))]
      + Attempts(cfg, cp, es[1..], es[0].order)
  }

  /** The modules handed to the runtime, in the order of the attempts. */
  function RegisteredModules<M>(atts: seq<Attempt<M>>): (r: seq<M>)
    ensures |r| <= |atts|
    decreases |atts|
  {
    if atts == [] then []
    else (if atts[0].outcome.Registered? then [atts[0].outcome.built] else []) + RegisteredModules(atts[1..])
  }

  /**
   * Every entry is attempted once, in the given order; an entry's outcome depends on that entry
   * alone, so a failure never affects the other entries; the clash warning compares with the
   * previous entry's order.
   */
  lemma {:induction false} AttemptsCoverEntries<M>(cfg: RawConfig, cp: Classpath<M>, es: seq<Entry>, lastOrder: int)
    ensures |Attempts(cfg, cp, es, lastOrder)| == |es|
    ensures forall i :: 0 <= i < |es| ==>
      && Attempts(cfg, cp, es, lastOrder)[i].entry == es[i]
      && Attempts(cfg, cp, es, lastOrder)[i].outcome == BootstrapOne(cfg, cp, es[i])
      && (Attempts(cfg, cp, es, lastOrder)[i].clashWarning <==>
          es[i].order == (if i == 0 then lastOrder else es[i - 1].order))
    decreases |es|
  {
    if es != [] {
      AttemptsCoverEntries(cfg, cp, es[1..], es[0].order);
    }
  }

  /**
   * With lastOrder starting at -1 and orders never negative, entry i warns exactly when i > 0
   * and its order equals the order of entry i - 1.
   */
  lemma ClashWarningIff<M>(cfg: RawConfig, cp: Classpath<M>, es: seq<Entry>)
    requires forall i :: 0 <= i < |es| ==> es[i].order >= 0
    ensures |Attempts(cfg, cp, es, -1)| == |es|
    ensures forall i :: 0 <= i < |es| ==>
      (Attempts(cfg, cp, es, -1)[i].clashWarning <==> i > 0 && es[i].order == es[i - 1].order)
  {
    AttemptsCoverEntries(cfg, cp, es, -1);
  }

  /**
   * For the entries registerModules goes through, the clash warning fires exactly on an entry
   * whose order repeats the order of the entry before it.
   */
  lemma PlannedClashWarningIff<M>(cfg: RawConfig, cp: Classpath<M>)
    requires Discover(cfg).Some?
    ensures var es := SortByOrder(Discover(cfg).value);
      var atts := Attempts(cfg, cp, es, -1);
      |atts| == |es| &&
      forall i :: 0 <= i < |es| ==> (atts[i].clashWarning <==> i > 0 && es[i].order == es[i - 1].order)
  {
    var found := Discover(cfg).value;
    var es := SortByOrder(found);
    forall i | 0 <= i < |es|
      ensures es[i].order >= 0
    {
      assert es[i] in multiset(es);
      var j :| 0 <= j < |found| && found[j] == es[i];
    }
    ClashWarningIff(cfg, cp, es);
  }

  lemma {:induction false} RegisteredModulesAppend<M>(a: seq<Attempt<M>>, b: seq<Attempt<M>>)
    ensures RegisteredModules(a + b) == RegisteredModules(a) + RegisteredModules(b)
    decreases |a|
  {
    if a == [] {
      assert a + b == b;
    } else {
      var head := if a[0].outcome.Registered? then [a[0].outcome.built] else [];
      assert (a + b)[0] == a[0];
      assert (a + b)[1..] == a[1..] + b;
      RegisteredModulesAppend(a[1..], b);
      assert RegisteredModules(a + b) == head + (RegisteredModules(a[1..]) + RegisteredModules(b));
      assert RegisteredModules(a) == head + RegisteredModules(a[1..]);
    }
  }

  /** One iteration of the loop, unfolded. */
  lemma AttemptsStep<M>(cfg: RawConfig, cp: Classpath<M>, es: seq<Entry>, i: nat, lastOrder: int)
    requires i < |es|
    ensures Attempts(cfg, cp, es[i..], lastOrder)
      == [Attempt(es[i], es[i].order == lastOrder, BootstrapOne(cfg, cp, es[i]))]
         + Attempts(cfg, cp, es[i + 1..], es[i].order)
  {
    assert es[i..][1..] == es[i + 1..];
  }

  /** One iteration of the registration loop moves the next attempt from the plan to the log. */
  lemma LoopStep<M>(cfg: RawConfig, cp: Classpath<M>, es: seq<Entry>, i: nat, lastOrder: int,
                    done: seq<Attempt<M>>, planned: seq<Attempt<M>>)
    requires i < |es|
    requires planned == done + Attempts(cfg, cp, es[i..], lastOrder)
    ensures var attempt := Attempt(es[i], es[i].order == lastOrder, BootstrapOne(cfg, cp, es[i]));
      && planned == (done + [attempt]) + Attempts(cfg, cp, es[i + 1..], es[i].order)
      && RegisteredModules(done + [attempt])
         == RegisteredModules(done) + (if attempt.outcome.Registered? then [attempt.outcome.built] else [])
  {
    var attempt := Attempt(es[i], es[i].order == lastOrder, BootstrapOne(cfg, cp, es[i]));
    AttemptsStep(cfg, cp, es, i, lastOrder);
    assert planned == (done + [attempt]) + Attempts(cfg, cp, es[i + 1..], es[i].order);
    RegisteredModulesAppend(done, [attempt]);
    assert RegisteredModules([attempt]) == (if attempt.outcome.Registered? then [attempt.outcome.built] else []) + [];
  }

  /** The registered modules are exactly the modules of the successful attempts. */
  lemma {:induction false} RegisteredModulesAreSuccesses<M>(atts: seq<Attempt<M>>)
    ensures forall i :: 0 <= i < |atts| && atts[i].outcome.Registered? ==> atts[i].outcome.built in RegisteredModules(atts)
    ensures forall m :: m in RegisteredModules(atts) ==> exists i :: 0 <= i < |atts| && atts[i].outcome == Registered(m)
    ensures |RegisteredModules(atts)| <= |atts|
    decreases |atts|
  {
    if atts != [] {
      RegisteredModulesAreSuccesses(atts[1..]);
      assert forall i :: 1 <= i < |atts| ==> atts[i] == atts[1..][i - 1];
    }
  }

  /** The part of GraphAwareRuntime the extension uses: its registry of modules. */
  class Runtime<M> {
    var modules: seq<M>

    constructor ()
      ensures modules == []
    {
      modules := [];
    }

    /** registerModule: the module joins the registry after those registered before it. */
    method RegisterModule(m: M)
      modifies this
      ensures modules == old(modules) + [m]
    {
      modules := modules + [m];
    }
  }

  /**
   * How start() ends: disabled, bootstrapped, or aborted by an order beyond the int range.
   * OrderOutOfRange stands for the NumberFormatException that leaves start() with the runtime
   * created and no module registered; the starter thread is then never started.
   */
  datatype StartResult<M> = Disabled | Bootstrapped(runtime: Runtime<M>) | OrderOutOfRange(runtime: Runtime<M>)

  class RuntimeKernelExtension<M> {
    /** The raw database configuration. */
    const config: RawConfig
    /** The value of com.graphaware.runtime.enabled. */
    const enabled: bool
    /** The classes reachable by name. */
    const classpath: Classpath<M>
    /** What the log records of registration: one attempt per iteration. */
    ghost var attempts: seq<Attempt<M>>

    constructor (config: RawConfig, enabled: bool, classpath: Classpath<M>)
      ensures this.config == config && this.enabled == enabled && this.classpath == classpath
      ensures attempts == []
    {
      this.config := config;
      this.enabled := enabled;
      this.classpath := classpath;
      attempts := [];
    }

    /** The iterations registerModules goes through when discovery succeeds. */
    ghost function PlannedAttempts(): seq<Attempt<M>>
      requires Discover(config).Some?
    {
      Attempts(config, classpath, SortByOrder(Discover(config).value), -1)
    }

    /**
     * The try block of one iteration: instantiate the named bootstrapper, build the module's
     * configuration, bootstrap the module and register it. Every Exception is caught and reported.
     */
    method TryBootstrap(runtime: Runtime<M>, e: Entry) returns (outcome: Outcome<M>)
      modifies runtime
      ensures outcome == BootstrapOne(config, classpath, e)
      ensures runtime.modules == old(runtime.modules) + (if outcome.Registered? then [outcome.built] else [])
    {
      if !classpath.instantiable(e.bootstrapper) {
        return Failed(NotABootstrapper);
      }
      var moduleConfig := FindModuleConfig(config, e.id);
      if moduleConfig.None? {
        return Failed(MissingConfigValue);
      }
      var built := classpath.bootstrap(e.bootstrapper, e.id, moduleConfig.value);
      if built.None? {
        return Failed(BootstrapFailed);
      }
      runtime.RegisterModule(built.value);
      outcome := Registered(built.value);
    }

    /**
     * The loop of registerModules: attempts every entry in the given order, warns when an order
     * repeats the one before it, registers each module that bootstraps and skips each that fails.
     */
    method RegisterInOrder(runtime: Runtime<M>, es: seq<Entry>)
      modifies this, runtime
      ensures attempts == old(attempts) + Attempts(config, classpath, es, -1)
      ensures runtime.modules == old(runtime.modules) + RegisteredModules(Attempts(config, classpath, es, -1))
    {
      ghost var planned := Attempts(config, classpath, es, -1);
      ghost var done: seq<Attempt<M>> := [];
      var lastOrder := -1;
      var i := 0;
      while i < |es|
        invariant 0 <= i <= |es|
        invariant lastOrder == if i == 0 then -1 else es[i - 1].order
        invariant planned == done + Attempts(config, classpath, es[i..], lastOrder)
        invariant attempts == old(attempts) + done
        invariant runtime.modules == old(runtime.modules) + RegisteredModules(done)
      {
        var e := es[i];
        var clash := lastOrder == e.order;
        LoopStep(config, classpath, es, i, lastOrder, done, planned);
        lastOrder := e.order;
        var outcome := TryBootstrap(runtime, e);
        ghost var attempt := Attempt(e, clash, outcome);
        done := done + [attempt];
        attempts := attempts + [attempt];
        i := i + 1;
      }
      assert es[i..] == [];
      assert planned == done;
    }

    /**
     * registerModules: finds the ordered entries and runs the registration loop over them.
     * Returns false where Integer.valueOf throws before the loop, registering nothing.
     */
    method RegisterModules(runtime: Runtime<M>) returns (ok: bool)
      modifies this, runtime
      ensures ok <==> Discover(config).Some?
      ensures ok ==> attempts == old(attempts) + PlannedAttempts()
      ensures ok ==> runtime.modules == old(runtime.modules) + RegisteredModules(PlannedAttempts())
      ensures !ok ==> attempts == old(attempts) && runtime.modules == old(runtime.modules)
    {
      DiscoverFailsIff(config);
      var ordered := FindOrderedBootstrappers(config);
      if ordered.None? {
        return false;
      }
      RegisterInOrder(runtime, ordered.value);
      ok := true;
    }

    /**
     * start(): nothing happens when the runtime is disabled; otherwise a fresh runtime gets the
     * modules that bootstrap, in order. The readiness wait that follows runs on its own thread
     * and is not part of this model.
     */
    method Start() returns (r: StartResult<M>)
      modifies this
      ensures !enabled ==> r == Disabled && attempts == old(attempts)
      ensures enabled ==> !r.Disabled? && fresh(r.runtime)
      ensures enabled ==> (r.Bootstrapped? <==> Discover(config).Some?)
      ensures r.Bootstrapped? ==>
        attempts == old(attempts) + PlannedAttempts() && r.runtime.modules == RegisteredModules(PlannedAttempts())
      ensures r.OrderOutOfRange? ==> attempts == old(attempts) && r.runtime.modules == []
    {
      if !enabled {
        return Disabled;
      }
      var runtime := new Runtime<M>();
      var ok := RegisterModules(runtime);
      if ok {
        r := Bootstrapped(runtime);
      } else {
        r := OrderOutOfRange(runtime);
      }
    }
  }
}
