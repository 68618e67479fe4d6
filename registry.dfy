/**
 * The `_ModuleManager` singleton of obsidian/module.py: module instances,
 * registration with packet forwarding, lookup, the `Module` decorator and
 * the `initModules` loader.
 *
 * Three collaborators the manager cannot see are observed through ghost
 * logs kept on the manager: the calls made to `importlib.import_module`
 * (`importLog`), the calls made to `PacketManager.register` (`packetLog`),
 * and every instance `register` created, in order (`registered`, with the
 * registration that stamped it in `stamps`).
 */
module Registry {
  import opened RegistryTypes
  import opened LoaderSpec

  /**
   * A module instance.  `module()` gives it the metadata its class
   * declares; `register` then overwrites all three fields.  The fields are
   * the source's `NAME`, `DESCRIPTION` and `VERSION`.
   */
  class ModuleObject {
    const moduleType: ModuleType
    var name: string
    var description: Option<string>
    var version: Option<string>

    constructor (t: ModuleType)
      ensures moduleType == t
      ensures name == t.defaults.name && description == t.defaults.description && version == t.defaults.version
    {
      moduleType := t;
      name := t.defaults.name;
      description := t.defaults.description;
      version := t.defaults.version;
    }
  }

  /** The instance carries exactly the metadata of registration `reg`, and was built from its class. */
  ghost predicate Stamped(obj: ModuleObject, reg: Registration)
    reads obj
  {
    && obj.moduleType == reg.moduleType
    && obj.name == reg.name
    && obj.description == reg.description
    && obj.version == reg.version
  }

  /** One call `PacketManager.register(direction, name, description, packet, owner)`. */
  datatype PacketCall = PacketCall(direction: string, name: string, description: string, packet: string, owner: ModuleObject)

  /** The call that forwards packet marker `p` with `owner` as the owning module. */
  function Forward(p: PacketInfo, owner: ModuleObject): PacketCall
  {
    PacketCall(p.direction, p.name, p.description, p.packet, owner)
  }

  /** The calls one class member causes: one for a marked member, none otherwise. */
  function CallsFor(m: Member, owner: ModuleObject): seq<PacketCall>
  {
    match m.marker
    case None => []
    case Some(p) => [Forward(p, owner)]
  }

  /** The forwarding calls `register` makes while scanning `members` in order. */
  function ForwardCalls(members: seq<Member>, owner: ModuleObject): seq<PacketCall>
  {
    if members == [] then []
    else ForwardCalls(members[..|members| - 1], owner) + CallsFor(members[|members| - 1], owner)
  }

  /** The indices of the marked members, in ascending order. */
  function MarkedPositions(members: seq<Member>): seq<nat>
  {
    if members == [] then []
    else MarkedPositions(members[..|members| - 1]) + (if members[|members| - 1].marker.Some? then [|members| - 1] else [])
  }

  /** Member `i` exists and carries a packet marker. */
  ghost predicate MarkedAt(members: seq<Member>, i: int)
  {
    0 <= i < |members| && members[i].marker.Some?
  }

  /** The marked positions are indices of marked members. */
  lemma {:induction false} MarkedPositionsValid(members: seq<Member>)
    ensures forall k :: 0 <= k < |MarkedPositions(members)| ==> MarkedAt(members, MarkedPositions(members)[k])
  {
    if members != [] {
      var init := members[..|members| - 1];
      MarkedPositionsValid(init);
      var pos0 := MarkedPositions(init);
      var pos := MarkedPositions(members);
      forall k | 0 <= k < |pos|
        ensures MarkedAt(members, pos[k])
      {
        if k < |pos0| {
          assert pos[k] == pos0[k];
          assert MarkedAt(init, pos0[k]);
          assert members[pos0[k]] == init[pos0[k]];
        }
      }
    }
  }

  /** The marked positions are strictly increasing: member order, no index twice. */
  lemma {:induction false} MarkedPositionsIncreasing(members: seq<Member>)
    ensures forall k, l :: 0 <= k < l < |MarkedPositions(members)| ==> MarkedPositions(members)[k] < MarkedPositions(members)[l]
  {
    if members != [] {
      var init := members[..|members| - 1];
      MarkedPositionsIncreasing(init);
      MarkedPositionsValid(init);
      var pos0 := MarkedPositions(init);
      var pos := MarkedPositions(members);
      assert forall k :: 0 <= k < |pos0| ==> pos[k] == pos0[k] && pos0[k] < |init|;
    }
  }

  /** Every marked member's index is among the marked positions. */
  lemma {:induction false} MarkedPositionsComplete(members: seq<Member>)
    ensures forall i :: MarkedAt(members, i) ==> i in MarkedPositions(members)
  {
    if members != [] {
      var init := members[..|members| - 1];
      var last := |members| - 1;
      MarkedPositionsComplete(init);
      var pos0 := MarkedPositions(init);
      var pos := MarkedPositions(members);
      assert pos[..|pos0|] == pos0;
      forall i | MarkedAt(members, i)
        ensures i in pos
      {
        if i < last {
          assert init[i] == members[i];
          assert MarkedAt(init, i);
          assert i in pos0;
        } else {
          assert pos[|pos| - 1] == i;
        }
      }
    }
  }

  /** The k-th forwarding call carries the marker of the k-th marked member. */
  lemma {:induction false} ForwardCallsFollowMarks(members: seq<Member>, owner: ModuleObject)
    ensures |ForwardCalls(members, owner)| == |MarkedPositions(members)|
    ensures forall k :: 0 <= k < |MarkedPositions(members)| ==>
      && MarkedAt(members, MarkedPositions(members)[k])
      && ForwardCalls(members, owner)[k] == Forward(members[MarkedPositions(members)[k]].marker.value, owner)
  {
    if members != [] {
      var init := members[..|members| - 1];
      ForwardCallsFollowMarks(init, owner);
      var pos0 := MarkedPositions(init);
      var calls0 := ForwardCalls(init, owner);
      var pos := MarkedPositions(members);
      var calls := ForwardCalls(members, owner);
      assert pos[..|pos0|] == pos0;
      assert calls[..|calls0|] == calls0;
      forall k | 0 <= k < |pos0|
        ensures MarkedAt(members, pos[k]) && calls[k] == Forward(members[pos[k]].marker.value, owner)
      {
        assert pos[k] == pos0[k] && calls[k] == calls0[k];
        assert MarkedAt(init, pos0[k]);
        assert members[pos0[k]] == init[pos0[k]];
      }
    }
  }

  /**
   * Exactly-once forwarding: the k-th forwarding call carries the marker of
   * the k-th marked member, with the new instance as owner; marked members
   * are visited in member order, each once, and no unmarked member causes
   * a call.
   */
  lemma ForwardCallsExactlyOnce(members: seq<Member>, owner: ModuleObject)
    ensures |ForwardCalls(members, owner)| == |MarkedPositions(members)|
    ensures forall k :: 0 <= k < |MarkedPositions(members)| ==>
      && MarkedAt(members, MarkedPositions(members)[k])
      && ForwardCalls(members, owner)[k] == Forward(members[MarkedPositions(members)[k]].marker.value, owner)
    ensures forall k, l :: 0 <= k < l < |MarkedPositions(members)| ==> MarkedPositions(members)[k] < MarkedPositions(members)[l]
    ensures forall i :: MarkedAt(members, i) ==> i in MarkedPositions(members)
  {
    MarkedPositionsIncreasing(members);
    MarkedPositionsComplete(members);
    ForwardCallsFollowMarks(members, owner);
  }

  /** Scanning two runs of members forwards the first run's packets, then the second's. */
  lemma {:induction false} ForwardCallsAppend(a: seq<Member>, b: seq<Member>, owner: ModuleObject)
    ensures ForwardCalls(a + b, owner) == ForwardCalls(a, owner) + ForwardCalls(b, owner)
  {
    if b == [] {
      assert a + b == a;
    } else {
      assert (a + b)[..|a + b| - 1] == a + b[..|b| - 1];
      ForwardCallsAppend(a, b[..|b| - 1], owner);
    }
  }

  /** All forwarding calls made while registering the instances `objs` one after the other. */
  function AllForwardCalls(objs: seq<ModuleObject>): seq<PacketCall>
  {
    if objs == [] then []
    else AllForwardCalls(objs[..|objs| - 1]) + ForwardCalls(objs[|objs| - 1].moduleType.members, objs[|objs| - 1])
  }

  lemma {:induction false} AllForwardCallsAppend(a: seq<ModuleObject>, b: seq<ModuleObject>)
    ensures AllForwardCalls(a + b) == AllForwardCalls(a) + AllForwardCalls(b)
  {
    if b == [] {
      assert a + b == a;
    } else {
      var init, last := b[..|b| - 1], b[|b| - 1];
      var tail := ForwardCalls(last.moduleType.members, last);
      assert (a + b)[..|a + b| - 1] == a + init;
      assert (a + b)[|a + b| - 1] == last;
      assert AllForwardCalls(a + b) == AllForwardCalls(a + init) + tail;
      AllForwardCallsAppend(a, init);
      assert AllForwardCalls(b) == AllForwardCalls(init) + tail;
    }
  }

  /** The name-to-instance dictionary after storing `objs[k]` under `regs[k].name`, for k in order. */
  function Install(m: map<string, ModuleObject>, regs: seq<Registration>, objs: seq<ModuleObject>): map<string, ModuleObject>
    requires |regs| == |objs|
  {
    if regs == [] then m
    else Install(m, regs[..|regs| - 1], objs[..|objs| - 1])[regs[|regs| - 1].name := objs[|objs| - 1]]
  }

  lemma {:induction false} InstallAppend(m: map<string, ModuleObject>, r1: seq<Registration>, o1: seq<ModuleObject>, r2: seq<Registration>, o2: seq<ModuleObject>)
    requires |r1| == |o1| && |r2| == |o2|
    ensures Install(m, r1 + r2, o1 + o2) == Install(Install(m, r1, o1), r2, o2)
  {
    if r2 == [] {
      assert r1 + r2 == r1 && o1 + o2 == o1;
    } else {
      assert (r1 + r2)[..|r1 + r2| - 1] == r1 + r2[..|r2| - 1];
      assert (o1 + o2)[..|o1 + o2| - 1] == o1 + o2[..|o2| - 1];
      InstallAppend(m, r1, o1, r2[..|r2| - 1], o2[..|o2| - 1]);
    }
  }

  /**
   * Overwrite on duplicate: after a run of registrations, a name maps to
   * the instance of the LAST registration under that name, whatever was
   * stored before.
   */
  lemma {:induction false} InstallLastWins(m: map<string, ModuleObject>, regs: seq<Registration>, objs: seq<ModuleObject>, k: nat)
    requires |regs| == |objs| && k < |regs|
    requires forall j :: k < j < |regs| ==> regs[j].name != regs[k].name
    ensures regs[k].name in Install(m, regs, objs) && Install(m, regs, objs)[regs[k].name] == objs[k]
  {
    if k < |regs| - 1 {
      InstallLastWins(m, regs[..|regs| - 1], objs[..|objs| - 1], k);
    }
  }

  /** A run of registrations leaves every name it does not register exactly as it was. */
  lemma {:induction false} InstallElsewhere(m: map<string, ModuleObject>, regs: seq<Registration>, objs: seq<ModuleObject>, n: string)
    requires |regs| == |objs|
    requires forall j :: 0 <= j < |regs| ==> regs[j].name != n
    ensures n in Install(m, regs, objs) <==> n in m
    ensures n in m ==> Install(m, regs, objs)[n] == m[n]
  {
    if regs != [] {
      InstallElsewhere(m, regs[..|regs| - 1], objs[..|objs| - 1], n);
    }
  }

  /** The manager state the ghost logs and the dictionary make up. */
  datatype Snapshot = Snapshot(
    registered: seq<ModuleObject>,
    stamps: seq<Registration>,
    moduleList: map<string, ModuleObject>,
    packetLog: seq<PacketCall>)

  /**
   * `after` is `before` followed by the registrations `regs`, in order:
   * `objs[k]` is the instance created for `regs[k]`, stored under its name,
   * with its class's packets forwarded.
   */
  ghost predicate Extends(before: Snapshot, after: Snapshot, regs: seq<Registration>, objs: seq<ModuleObject>)
  {
    && |objs| == |regs|
    && after.registered == before.registered + objs
    && after.stamps == before.stamps + regs
    && after.moduleList == Install(before.moduleList, regs, objs)
    && after.packetLog == before.packetLog + AllForwardCalls(objs)
  }

  /** Two runs of registrations make one run of both, in order. */
  lemma ExtendsCompose(s0: Snapshot, s1: Snapshot, s2: Snapshot,
                       r1: seq<Registration>, o1: seq<ModuleObject>, r2: seq<Registration>, o2: seq<ModuleObject>)
    requires Extends(s0, s1, r1, o1) && Extends(s1, s2, r2, o2)
    ensures Extends(s0, s2, r1 + r2, o1 + o2)
  {
    assert s2.registered == s0.registered + (o1 + o2);
    assert s2.stamps == s0.stamps + (r1 + r2);
    InstallAppend(s0.moduleList, r1, o1, r2, o2);
    AllForwardCallsAppend(o1, o2);
  }

  /** A single registration that created `obj` is a run of one. */
  lemma ExtendsOne(before: Snapshot, after: Snapshot, reg: Registration, obj: ModuleObject)
    requires obj.moduleType == reg.moduleType
    requires after.registered == before.registered + [obj]
    requires after.stamps == before.stamps + [reg]
    requires after.moduleList == before.moduleList[reg.name := obj]
    requires after.packetLog == before.packetLog + ForwardCalls(reg.moduleType.members, obj)
    ensures Extends(before, after, [reg], [obj])
  {
    assert [obj][..0] == [] && [reg][..0] == [];
    assert AllForwardCalls([obj]) == AllForwardCalls([]) + ForwardCalls(obj.moduleType.members, obj);
  }

  /** No registration at all. */
  lemma ExtendsNone(s: Snapshot)
    ensures Extends(s, s, [], [])
  {
    assert s.registered + [] == s.registered;
    assert s.stamps + [] == s.stamps;
  }

  /**
   * Lookup after a run of registrations: a name registered in the run maps
   * to the instance created by its LAST registration there, and that
   * instance sits, with the registration that stamped it, right after the
   * instances that existed before.
   */
  lemma ExtendsLastWins(before: Snapshot, after: Snapshot, regs: seq<Registration>, objs: seq<ModuleObject>, k: nat)
    requires Extends(before, after, regs, objs)
    requires k < |regs|
    requires forall j :: k < j < |regs| ==> regs[j].name != regs[k].name
    ensures regs[k].name in after.moduleList
    ensures after.moduleList[regs[k].name] == objs[k]
    ensures after.registered[|before.registered| + k] == objs[k]
    ensures after.stamps[|before.stamps| + k] == regs[k]
  {
    InstallLastWins(before.moduleList, regs, objs, k);
  }

  /** A run of registrations leaves the entry of every name it does not register as it was. */
  lemma ExtendsElsewhere(before: Snapshot, after: Snapshot, regs: seq<Registration>, objs: seq<ModuleObject>, n: string)
    requires Extends(before, after, regs, objs)
    requires forall j :: 0 <= j < |regs| ==> regs[j].name != n
    ensures n in after.moduleList <==> n in before.moduleList
    ensures n in before.moduleList ==> after.moduleList[n] == before.moduleList[n]
  {
    InstallElsewhere(before.moduleList, regs, objs, n);
  }

  /** What key-style lookup yields: the stored instance, or a missing-key error. */
  datatype Lookup = Found(instance: ModuleObject) | KeyError(key: string)

  class ModuleManager {
    /** The name-to-instance dictionary `_module_list`. */
    var moduleList: map<string, ModuleObject>
    /** `_completed`: read by `initModules`, never set to true anywhere. */
    var completed: bool
    ghost var registered: seq<ModuleObject>
    ghost var stamps: seq<Registration>
    ghost var packetLog: seq<PacketCall>
    ghost var importLog: seq<string>

    /**
     * Every instance still carries the metadata it was registered with, and
     * the dictionary stores each instance under its own `name`.
     */
    ghost predicate Valid()
      reads this, registered, moduleList.Values
    {
      && |stamps| == |registered|
      && (forall k :: 0 <= k < |registered| ==> Stamped(registered[k], stamps[k]))
      && (forall n :: n in moduleList ==> moduleList[n].name == n)
    }

    ghost function Snap(): Snapshot
      reads this
    {
      Snapshot(registered, stamps, moduleList, packetLog)
    }

    constructor ()
      ensures Valid()
      ensures moduleList == map[] && !completed
      ensures registered == [] && stamps == [] && packetLog == [] && importLog == []
    {
      moduleList := map[];
      completed := false;
      registered := [];
      stamps := [];
      packetLog := [];
      importLog := [];
    }

    /** `manager[name]`: the instance stored under `name`, or a missing-key error. */
    function GetItem(name: string): (r: Lookup)
      reads this, registered, moduleList.Values
      ensures r.Found? <==> name in moduleList
      ensures r.Found? ==> r.instance == moduleList[name]
      ensures r.KeyError? ==> r.key == name
      ensures Valid() && r.Found? ==> r.instance.name == name
    {
      if name in moduleList then Found(moduleList[name]) else KeyError(name)
    }

    /** `manager.name`: attribute access is key access. */
    function GetAttr(name: string): (r: Lookup)
      reads this, registered, moduleList.Values
      ensures r == GetItem(name)
    {
      GetItem(name)
    }

    /**
     * `register(name, description, version, module)`: build one instance of
     * the class, stamp the given metadata over the class defaults, forward
     * every marked member's packet with the new instance as owner, and store
     * the instance under `name`, replacing any previous one.  The ghost
     * result names the new instance.
     */
    method Register(name: string, description: Option<string>, version: Option<string>, moduleType: ModuleType)
      returns (ghost instance: ModuleObject)
      requires Valid()
      modifies this
      ensures Valid()
      ensures fresh(instance)
      ensures instance.moduleType == moduleType
      ensures instance.name == name && instance.description == description && instance.version == version
      ensures moduleList == old(moduleList)[name := instance]
      ensures GetItem(name) == Found(instance)
      ensures packetLog == old(packetLog) + ForwardCalls(moduleType.members, instance)
      ensures Extends(old(Snap()), Snap(), [Registration(name, description, version, moduleType)], [instance])
      ensures importLog == old(importLog) && completed == old(completed)
    {
      var obj := new ModuleObject(moduleType);
      obj.name := name;
      obj.description := description;
      obj.version := version;
      registered := registered + [obj];
      stamps := stamps + [Registration(name, description, version, moduleType)];
      ForwardPackets(moduleType.members, obj);
      moduleList := moduleList[name := obj];
      instance := obj;
      ExtendsOne(old(Snap()), Snap(), Registration(name, description, version, moduleType), obj);
    }

    /**
     * The scan of `register` over the class's members: every member that
     * carries a packet marker is forwarded to the packet registry with
     * `owner`, in member order.
     */
    method ForwardPackets(members: seq<Member>, owner: ModuleObject)
      modifies this`packetLog
      ensures packetLog == old(packetLog) + ForwardCalls(members, owner)
    {
      var i := 0;
      while i < |members|
        invariant 0 <= i <= |members|
        invariant packetLog == old(packetLog) + ForwardCalls(members[..i], owner)
      {
        var item := members[i];
        if item.marker.Some? {
          var packet := item.marker.value;
          packetLog := packetLog + [Forward(packet, owner)];
        }
        assert members[..i + 1][..i] == members[..i];
        i := i + 1;
      }
      assert members[..i] == members;
    }

    /**
     * `importlib.import_module(id)`: the import runs the registrations its
     * top-level code performs, then either finishes or raises.  The ghost
     * result lists the instances those registrations created.
     */
    method ImportModule(importer: Importer, id: string)
      returns (exception: Option<ImportException>, ghost created: seq<ModuleObject>)
      requires Valid()
      modifies this
      ensures Valid()
      ensures importLog == old(importLog) + [id] && completed == old(completed)
      ensures Extends(old(Snap()), Snap(), Import(importer, id).regs, created)
      ensures forall o :: o in created ==> fresh(o)
      ensures exception == if Import(importer, id).Raised? then Some(Import(importer, id).exception) else None
    {
      importLog := importLog + [id];
      var outcome := Import(importer, id);
      var regs := outcome.regs;
      var j := 0;
      created := [];
      ghost var start := Snap();
      ExtendsNone(start);
      while j < |regs|
        invariant 0 <= j <= |regs|
        invariant Valid()
        invariant Extends(start, Snap(), regs[..j], created)
        invariant forall k :: 0 <= k < |created| ==> fresh(created[k])
        invariant importLog == old(importLog) + [id] && completed == old(completed)
      {
        ghost var before := Snap();
        var reg := regs[j];
        ghost var instance := Module(this, reg.name, reg.description, reg.version, reg.moduleType);
        ExtendsCompose(start, before, Snap(), regs[..j], created, [reg], [instance]);
        assert regs[..j] + [reg] == regs[..j + 1];
        created := created + [instance];
        j := j + 1;
      }
      assert regs[..j] == regs;
      exception := if outcome.Raised? then Some(outcome.exception) else None;
    }

    /**
     * `initModules(blacklist, ensureCore)`.  The caller's exclusion list is
     * passed in and handed back with what the pass appended.  While the
     * completed flag is false the pass follows `InitPass`: the imports made,
     * in order, the registrations they ran, the list returned and the error
     * raised are exactly the ones `InitPass` gives.  The flag itself is
     * never changed.  The ghost result lists the instances created.
     */
    method InitModules(importer: Importer, detected: seq<string>, blacklist: seq<string>, ensureCore: bool)
      returns (blacklistOut: seq<string>, error: Option<LoadError>, ghost created: seq<ModuleObject>)
      requires Valid()
      modifies this
      ensures Valid()
      ensures completed == old(completed)
      ensures old(completed) ==>
        blacklistOut == blacklist && error == None && Snap() == old(Snap()) && importLog == old(importLog)
      ensures !old(completed) ==>
        var p := InitPass(importer, detected, blacklist, ensureCore);
        && blacklistOut == p.blacklist
        && error == p.failure
        && importLog == old(importLog) + p.attempted
        && Extends(old(Snap()), Snap(), p.regs, created)
      ensures forall o :: o in created ==> fresh(o)
    {
      created := [];
      if completed {
        return blacklist, None, created;
      }
      blacklistOut := blacklist + [InitFile];
      ghost var coreRegs: seq<Registration> := [];
      ExtendsNone(Snap());
      if ensureCore {
        var exception;
        exception, created := ImportModule(importer, CoreModule);
        if exception.Some? {
          return blacklistOut, Some(CoreFailure(exception.value)), created;
        }
        blacklistOut := blacklistOut + [CoreModule];
        coreRegs := Import(importer, CoreModule).regs;
      }
      ghost var mid := Snap();
      ghost var more;
      error, more := LoadDiscovered(importer, detected, blacklistOut);
      ghost var t := Discover(importer, detected, blacklistOut);
      ExtendsCompose(old(Snap()), mid, Snap(), coreRegs, created, t.regs, more);
      if !ensureCore {
        assert coreRegs + t.regs == t.regs && created + more == more;
      }
      created := created + more;
    }

    /**
     * The discovery loop of `initModules`: import, in order, every detected
     * identifier not in `blacklist`, stopping at the first import that
     * raises.
     */
    method LoadDiscovered(importer: Importer, detected: seq<string>, blacklist: seq<string>)
      returns (error: Option<LoadError>, ghost created: seq<ModuleObject>)
      requires Valid()
      modifies this
      ensures Valid() && completed == old(completed)
      ensures var t := Discover(importer, detected, blacklist);
        && error == t.failure
        && importLog == old(importLog) + t.attempted
        && Extends(old(Snap()), Snap(), t.regs, created)
      ensures forall o :: o in created ==> fresh(o)
    {
      created := [];
      ghost var start := Snap();
      ExtendsNone(start);
      error := None;
      ghost var trace := Trace([], [], None);
      var i := 0;
      while i < |detected| && error.None?
        invariant 0 <= i <= |detected|
        invariant Valid() && completed == old(completed)
        invariant trace == Discover(importer, detected[..i], blacklist)
        invariant error == trace.failure
        invariant importLog == old(importLog) + trace.attempted
        invariant Extends(start, Snap(), trace.regs, created)
        invariant forall o :: o in created ==> fresh(o)
      {
        var candidate := detected[i];
        DiscoverNext(importer, detected, blacklist, i);
        if candidate !in blacklist {
          StepImports(importer, blacklist, trace, candidate);
          ghost var before := Snap();
          var exception, now := ImportModule(importer, candidate);
          if exception.Some? {
            error := Some(ModuleFailure(exception.value, candidate));
          }
          ExtendsCompose(start, before, Snap(), trace.regs, created, Import(importer, candidate).regs, now);
          created := created + now;
        }
        trace := Step(importer, blacklist, trace, candidate);
        i := i + 1;
      }
      if error.Some? {
        DiscoverStopsAtFailure(importer, detected, blacklist, i);
      } else {
        assert detected[..i] == detected;
      }
    }
  }

  /**
   * The `Module(name, description, version)` decorator applied to class
   * `cls`: registers it with the (single) manager.  The ghost result names
   * the new instance.
   */
  method Module(manager: ModuleManager, name: string, description: Option<string>, version: Option<string>, cls: ModuleType)
    returns (ghost instance: ModuleObject)
    requires manager.Valid()
    modifies manager
    ensures manager.Valid()
    ensures fresh(instance)
    ensures manager.GetItem(name) == Found(instance)
    ensures instance.name == name && instance.description == description && instance.version == version
    ensures manager.packetLog == old(manager.packetLog) + ForwardCalls(cls.members, instance)
    ensures Extends(old(manager.Snap()), manager.Snap(), [Registration(name, description, version, cls)], [instance])
    ensures manager.importLog == old(manager.importLog) && manager.completed == old(manager.completed)
  {
    instance := manager.Register(name, description, version, cls);
  }
}
