/**
 * The loading order of `_ModuleManager.initModules` as pure functions: which
 * identifiers are imported, in which order, which registrations their
 * top-level code performs, how the exclusion list grows and which failure
 * ends the pass.  The imperative `ModuleManager.InitModules` in registry.dfy
 * is proved to follow `InitPass` step by step.
 */
module LoaderSpec {
  import opened RegistryTypes

  /**
   * `importlib.import_module` as an oracle: what importing each identifier
   * does.  An identifier with no entry has no module file, so importing it
   * raises `ModuleNotFoundError` before any of its code runs.
   */
  type Importer = map<string, ImportOutcome>

  /** The package initializer, always excluded from discovery. */
  const InitFile: string := "__init__"
  /** The mandatory baseline module. */
  const CoreModule: string := "core"

  function Import(importer: Importer, id: string): ImportOutcome
  {
    if id in importer then importer[id] else Raised([], ModuleNotFound(id))
  }

  /**
   * The error raised when importing the core module fails.  Every
   * not-found exception counts, including one raised for a module that
   * core itself imports.
   */
  function CoreFailure(e: ImportException): (r: LoadError)
    ensures e.ModuleNotFound? <==> r == InitError("Core Module Not Found!")
    ensures e.OtherError? ==> r == Propagated(e.error)
  {
    match e
    case ModuleNotFound(_) => InitError("Core Module Not Found!")
    case OtherError(msg) => Propagated(msg)
  }

  /**
   * The error raised when importing discovered module `id` fails.  Every
   * not-found exception counts, including one raised for a module that
   * `id` itself imports.
   */
  function ModuleFailure(e: ImportException, id: string): (r: LoadError)
    ensures e.ModuleNotFound? <==> r == InitError("Module " + id + " Not Found!")
    ensures e.OtherError? ==> r == Propagated(e.error)
  {
    match e
    case ModuleNotFound(_) => InitError("Module " + id + " Not Found!")
    case OtherError(msg) => Propagated(msg)
  }

  /** The discovered identifiers the loop imports, in discovery order, when nothing fails. */
  function Candidates(detected: seq<string>, blacklist: seq<string>): (r: seq<string>)
    ensures forall x :: x in r ==> x in detected && x !in blacklist
    ensures forall x :: x in detected && x !in blacklist ==> x in r
  {
    if detected == [] then []
    else
      var last := detected[|detected| - 1];
      assert detected == detected[..|detected| - 1] + [last];
      Candidates(detected[..|detected| - 1], blacklist) + (if last in blacklist then [] else [last])
  }

  /** Filtering distributes over concatenation: discovery order is kept. */
  lemma {:induction false} CandidatesAppend(a: seq<string>, b: seq<string>, blacklist: seq<string>)
    ensures Candidates(a + b, blacklist) == Candidates(a, blacklist) + Candidates(b, blacklist)
  {
    if b == [] {
      assert a + b == a;
    } else {
      var b0, last := b[..|b| - 1], b[|b| - 1];
      var tail := if last in blacklist then [] else [last];
      assert (a + b)[..|a + b| - 1] == a + b0;
      assert (a + b)[|a + b| - 1] == last;
      assert Candidates(a + b, blacklist) == Candidates(a + b0, blacklist) + tail;
      assert Candidates(b, blacklist) == Candidates(b0, blacklist) + tail;
      CandidatesAppend(a, b0, blacklist);
    }
  }

  /** The registrations performed by importing `ids` one after the other. */
  function RegsOf(importer: Importer, ids: seq<string>): seq<Registration>
  {
    if ids == [] then [] else RegsOf(importer, ids[..|ids| - 1]) + Import(importer, ids[|ids| - 1]).regs
  }

  /** Every identifier in `ids` imports without raising. */
  ghost predicate AllLoaded(importer: Importer, ids: seq<string>)
  {
    forall k :: 0 <= k < |ids| ==> Import(importer, ids[k]).Loaded?
  }

  /** The discovery loop so far: identifiers imported, registrations run, failure that stopped it. */
  datatype Trace = Trace(attempted: seq<string>, regs: seq<Registration>, failure: Option<LoadError>)

  /** One turn of the discovery loop over identifier `id`. */
  function Step(importer: Importer, blacklist: seq<string>, t: Trace, id: string): Trace
  {
    if t.failure.Some? || id in blacklist then t
    else match Import(importer, id)
      case Loaded(regs) => Trace(t.attempted + [id], t.regs + regs, None)
      case Raised(regs, e) => Trace(t.attempted + [id], t.regs + regs, Some(ModuleFailure(e, id)))
  }

  /** The discovery loop run over `detected` with exclusion list `blacklist`. */
  function Discover(importer: Importer, detected: seq<string>, blacklist: seq<string>): Trace
  {
    if detected == [] then Trace([], [], None)
    else Step(importer, blacklist, Discover(importer, detected[..|detected| - 1], blacklist), detected[|detected| - 1])
  }

  /** A step over an identifier that is not excluded, before any failure, imports it. */
  lemma StepImports(importer: Importer, blacklist: seq<string>, t: Trace, id: string)
    requires t.failure.None? && id !in blacklist
    ensures var o := Import(importer, id);
      Step(importer, blacklist, t, id)
        == Trace(t.attempted + [id], t.regs + o.regs, if o.Raised? then Some(ModuleFailure(o.exception, id)) else None)
  {
  }

  /** The loop over the first `i + 1` identifiers is the loop over the first `i`, then one step. */
  lemma DiscoverNext(importer: Importer, detected: seq<string>, blacklist: seq<string>, i: nat)
    requires i < |detected|
    ensures Discover(importer, detected[..i + 1], blacklist)
         == Step(importer, blacklist, Discover(importer, detected[..i], blacklist), detected[i])
  {
    assert detected[..i + 1][..i] == detected[..i];
  }

  /**
   * Once a failure has occurred among the first `n` identifiers, the
   * remaining identifiers are never attempted.
   */
  lemma {:induction false} DiscoverStopsAtFailure(importer: Importer, detected: seq<string>, blacklist: seq<string>, n: nat)
    requires n <= |detected|
    requires Discover(importer, detected[..n], blacklist).failure.Some?
    ensures Discover(importer, detected, blacklist) == Discover(importer, detected[..n], blacklist)
  {
    if n < |detected| {
      var init := detected[..|detected| - 1];
      assert init[..n] == detected[..n];
      DiscoverStopsAtFailure(importer, init, blacklist, n);
    } else {
      assert detected[..n] == detected;
    }
  }

  /**
   * The discovery loop imports a prefix of the candidates in discovery
   * order, and all of them when nothing fails.
   */
  lemma {:induction false} DiscoverPrefix(importer: Importer, detected: seq<string>, blacklist: seq<string>)
    ensures var t := Discover(importer, detected, blacklist);
      && t.attempted <= Candidates(detected, blacklist)
      && (t.failure.None? ==> t.attempted == Candidates(detected, blacklist))
  {
    if detected != [] {
      var init := detected[..|detected| - 1];
      var id := detected[|detected| - 1];
      DiscoverPrefix(importer, init, blacklist);
      assert Candidates(detected, blacklist) == Candidates(init, blacklist) + (if id in blacklist then [] else [id]);
    }
  }

  /** The discovery loop runs exactly the registrations of the identifiers it imported, in import order. */
  lemma {:induction false} DiscoverRegs(importer: Importer, detected: seq<string>, blacklist: seq<string>)
    ensures var t := Discover(importer, detected, blacklist); t.regs == RegsOf(importer, t.attempted)
  {
    if detected != [] {
      var init := detected[..|detected| - 1];
      var id := detected[|detected| - 1];
      DiscoverRegs(importer, init, blacklist);
      var t0 := Discover(importer, init, blacklist);
      if t0.failure.None? && id !in blacklist {
        var a := t0.attempted + [id];
        assert a[..|a| - 1] == t0.attempted;
      }
    }
  }

  /**
   * Every identifier the discovery loop imported loaded, except that a
   * failure is always the last identifier imported, and its exception is
   * the one the loop reports.
   */
  lemma {:induction false} DiscoverFailure(importer: Importer, detected: seq<string>, blacklist: seq<string>)
    ensures var t := Discover(importer, detected, blacklist);
      && (t.failure.None? ==> AllLoaded(importer, t.attempted))
      && (t.failure.Some? ==>
            && |t.attempted| > 0
            && AllLoaded(importer, t.attempted[..|t.attempted| - 1])
            && var last := t.attempted[|t.attempted| - 1];
            && Import(importer, last).Raised?
            && t.failure == Some(ModuleFailure(Import(importer, last).exception, last)))
  {
    if detected != [] {
      var init := detected[..|detected| - 1];
      var id := detected[|detected| - 1];
      DiscoverFailure(importer, init, blacklist);
      var t0 := Discover(importer, init, blacklist);
      if t0.failure.None? && id !in blacklist {
        var a := t0.attempted + [id];
        assert a[..|a| - 1] == t0.attempted;
      }
    }
  }

  /** The three facts above together. */
  lemma DiscoverShape(importer: Importer, detected: seq<string>, blacklist: seq<string>)
    ensures var t := Discover(importer, detected, blacklist);
      && t.attempted <= Candidates(detected, blacklist)
      && t.regs == RegsOf(importer, t.attempted)
      && (t.failure.None? ==> t.attempted == Candidates(detected, blacklist) && AllLoaded(importer, t.attempted))
      && (t.failure.Some? ==>
            && |t.attempted| > 0
            && AllLoaded(importer, t.attempted[..|t.attempted| - 1])
            && var last := t.attempted[|t.attempted| - 1];
            && Import(importer, last).Raised?
            && t.failure == Some(ModuleFailure(Import(importer, last).exception, last)))
  {
    DiscoverPrefix(importer, detected, blacklist);
    DiscoverRegs(importer, detected, blacklist);
    DiscoverFailure(importer, detected, blacklist);
  }

  /** The observable result of one `initModules` pass that is not skipped. */
  datatype Pass = Pass(blacklist: seq<string>, attempted: seq<string>, regs: seq<Registration>, failure: Option<LoadError>)

  /**
   * `initModules(blacklist, ensureCore)` while the completed flag is false:
   * exclude the initializer, import the core module first when asked to
   * (excluding it afterwards only if that import succeeded), then run the
   * discovery loop over `detected`.
   */
  function InitPass(importer: Importer, detected: seq<string>, blacklist: seq<string>, ensureCore: bool): Pass
  {
    var excluded := blacklist + [InitFile];
    if !ensureCore then
      var t := Discover(importer, detected, excluded);
      Pass(excluded, t.attempted, t.regs, t.failure)
    else
      match Import(importer, CoreModule)
      case Raised(regs, e) => Pass(excluded, [CoreModule], regs, Some(CoreFailure(e)))
      case Loaded(regs) =>
        var t := Discover(importer, detected, excluded + [CoreModule]);
        Pass(excluded + [CoreModule], [CoreModule] + t.attempted, regs + t.regs, t.failure)
  }

  /** The identifiers a pass imports when nothing fails, in order. */
  function Planned(detected: seq<string>, blacklist: seq<string>, ensureCore: bool): seq<string>
  {
    if ensureCore then [CoreModule] + Candidates(detected, blacklist + [InitFile, CoreModule])
    else Candidates(detected, blacklist + [InitFile])
  }

  /**
   * With `ensureCore`, core is imported before anything else and never a
   * second time, its registrations come before every other registration,
   * and "core" joins the exclusion list exactly when its import succeeded.
   * This holds even when the caller's list already names "core".
   */
  lemma CoreLoadsFirst(importer: Importer, detected: seq<string>, blacklist: seq<string>)
    ensures var p := InitPass(importer, detected, blacklist, true);
      && |p.attempted| >= 1
      && p.attempted[0] == CoreModule
      && CoreModule !in p.attempted[1..]
      && Import(importer, CoreModule).regs <= p.regs
      && p.blacklist == blacklist + [InitFile] + (if Import(importer, CoreModule).Loaded? then [CoreModule] else [])
  {
    var ex2 := blacklist + [InitFile] + [CoreModule];
    var p := InitPass(importer, detected, blacklist, true);
    if Import(importer, CoreModule).Loaded? {
      var t := Discover(importer, detected, ex2);
      DiscoverPrefix(importer, detected, ex2);
      var c := Candidates(detected, ex2);
      assert p.attempted[1..] == t.attempted;
      assert CoreModule !in c;
      assert forall i :: 0 <= i < |t.attempted| ==> t.attempted[i] == c[i];
      assert CoreModule !in t.attempted;
    }
  }

  /**
   * A core module that cannot be found ends the pass with `InitError`
   * before discovery: nothing else is imported or registered.  Any other
   * exception from core is re-raised unchanged, after whatever core's own
   * code registered before raising.
   */
  lemma CoreFailureIsFatal(importer: Importer, detected: seq<string>, blacklist: seq<string>)
    requires Import(importer, CoreModule).Raised?
    ensures var p := InitPass(importer, detected, blacklist, true);
      && p.attempted == [CoreModule]
      && p.regs == Import(importer, CoreModule).regs
      && p.blacklist == blacklist + [InitFile]
      && (CoreModule !in importer ==> p.regs == [])
      && (Import(importer, CoreModule).exception.ModuleNotFound? ==> p.failure == Some(InitError("Core Module Not Found!")))
      && (Import(importer, CoreModule).exception.OtherError? ==> p.failure == Some(Propagated(Import(importer, CoreModule).exception.error)))
  {
  }

  /**
   * `attempted` is a run of imports along `plan` that ran `regs`: it
   * follows a prefix of the plan, runs exactly the registrations of what it
   * imported, in import order, and either covers the whole plan with every
   * import succeeding, or stops right after the first import that raised.
   */
  ghost predicate OrderedRun(importer: Importer, plan: seq<string>, attempted: seq<string>, regs: seq<Registration>, failed: bool)
  {
    && attempted <= plan
    && regs == RegsOf(importer, attempted)
    && (!failed ==> attempted == plan && AllLoaded(importer, attempted))
    && (failed ==>
          && |attempted| > 0
          && AllLoaded(importer, attempted[..|attempted| - 1])
          && Import(importer, attempted[|attempted| - 1]).Raised?)
  }

  /** The discovery loop is an ordered run along the candidates. */
  lemma DiscoverOrdered(importer: Importer, detected: seq<string>, blacklist: seq<string>)
    ensures var t := Discover(importer, detected, blacklist);
      OrderedRun(importer, Candidates(detected, blacklist), t.attempted, t.regs, t.failure.Some?)
  {
    DiscoverShape(importer, detected, blacklist);
  }

  /** A successful import of `id` followed by an ordered run is an ordered run along `[id] + plan`. */
  lemma OrderedRunPrepend(importer: Importer, id: string, plan: seq<string>, attempted: seq<string>, regs: seq<Registration>, failed: bool)
    requires Import(importer, id).Loaded?
    requires OrderedRun(importer, plan, attempted, regs, failed)
    ensures OrderedRun(importer, [id] + plan, [id] + attempted, Import(importer, id).regs + regs, failed)
  {
    RegsOfPrepend(importer, id, attempted);
    var a := [id] + attempted;
    assert forall k :: 1 <= k < |a| ==> a[k] == attempted[k - 1];
    if failed {
      assert a[..|a| - 1] == [id] + attempted[..|attempted| - 1];
    }
  }

  /** An import of `id` that raises is an ordered run, stopped at once, along any plan starting with `id`. */
  lemma OrderedRunStopsFirst(importer: Importer, id: string, rest: seq<string>)
    requires Import(importer, id).Raised?
    ensures OrderedRun(importer, [id] + rest, [id], Import(importer, id).regs, true)
  {
    assert RegsOf(importer, [id]) == RegsOf(importer, []) + Import(importer, id).regs;
    assert [id][..0] == [];
  }

  /**
   * A pass is an ordered run along the planned order: core first when
   * forced, then the non-excluded discovered identifiers in discovery order.
   * It runs exactly the registrations of what it imported, in import order,
   * and either imports the whole plan with every import succeeding, or
   * stops right after the first import that raised.
   */
  lemma InitPassOrder(importer: Importer, detected: seq<string>, blacklist: seq<string>, ensureCore: bool)
    ensures var p := InitPass(importer, detected, blacklist, ensureCore);
      OrderedRun(importer, Planned(detected, blacklist, ensureCore), p.attempted, p.regs, p.failure.Some?)
  {
    var excluded := blacklist + [InitFile];
    if !ensureCore {
      DiscoverOrdered(importer, detected, excluded);
    } else {
      var ex2 := excluded + [CoreModule];
      assert ex2 == blacklist + [InitFile, CoreModule];
      var rest := Candidates(detected, ex2);
      if Import(importer, CoreModule).Raised? {
        OrderedRunStopsFirst(importer, CoreModule, rest);
      } else {
        DiscoverOrdered(importer, detected, ex2);
        var t := Discover(importer, detected, ex2);
        OrderedRunPrepend(importer, CoreModule, rest, t.attempted, t.regs, t.failure.Some?);
      }
    }
  }

  /**
   * An identifier the discovery loop may import: detected, not in the
   * caller's exclusion list, not the initializer, and not core once core
   * has been forced.
   */
  ghost predicate Eligible(x: string, detected: seq<string>, blacklist: seq<string>, ensureCore: bool)
  {
    x in detected && x !in blacklist && x != InitFile && (ensureCore ==> x != CoreModule)
  }

  /** Besides the forced core import, a pass imports only eligible identifiers. */
  lemma ExcludedNeverImported(importer: Importer, detected: seq<string>, blacklist: seq<string>, ensureCore: bool)
    ensures var p := InitPass(importer, detected, blacklist, ensureCore);
      forall i :: (if ensureCore then 1 else 0) <= i < |p.attempted| ==> Eligible(p.attempted[i], detected, blacklist, ensureCore)
    ensures InitPass(importer, detected, blacklist, ensureCore).blacklist
      == blacklist + [InitFile] + (if ensureCore && Import(importer, CoreModule).Loaded? then [CoreModule] else [])
  {
    var p := InitPass(importer, detected, blacklist, ensureCore);
    var plan := Planned(detected, blacklist, ensureCore);
    var off := if ensureCore then 1 else 0;
    var c := Candidates(detected, blacklist + (if ensureCore then [InitFile, CoreModule] else [InitFile]));
    InitPassOrder(importer, detected, blacklist, ensureCore);
    assert plan[off..] == c;
    forall i | off <= i < |p.attempted|
      ensures Eligible(p.attempted[i], detected, blacklist, ensureCore)
    {
      assert p.attempted[i] == plan[i] == c[i - off];
      assert c[i - off] in c;
    }
  }

  /** Registrations of an import sequence starting with `id`: `id`'s come first. */
  lemma {:induction false} RegsOfPrepend(importer: Importer, id: string, ids: seq<string>)
    ensures RegsOf(importer, [id] + ids) == Import(importer, id).regs + RegsOf(importer, ids)
  {
    if ids == [] {
      assert [id] + ids == [id];
      assert RegsOf(importer, [id]) == RegsOf(importer, []) + Import(importer, id).regs;
    } else {
      var init := ids[..|ids| - 1];
      assert ([id] + ids)[..|[id] + ids| - 1] == [id] + init;
      RegsOfPrepend(importer, id, init);
    }
  }
}
