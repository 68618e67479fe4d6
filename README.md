# Obsidian module registry, modelled in Dafny

This project models the module registry of the Obsidian server
(`obsidian/module.py`): the `_ModuleManager` singleton and its `Module`
decorator.

- `register` builds an instance of a module class and stamps `NAME`,
  `DESCRIPTION` and `VERSION` onto it. It forwards every packet marker found
  on the class's members to the packet registry, with the instance as owner.
  It then stores the instance in the name-to-instance dictionary.
- `initModules` is the sequential loader. It always excludes `__init__`. When
  asked, it forces `core` to load first and then excludes it. It imports the
  discovered identifiers in order, skipping excluded ones, and aborts on the
  first failure.
- Key-style lookup (`__getitem__`) reads the dictionary. `__getattr__`
  returns what `__getitem__` returns; Python consults it only for names the
  manager object does not itself have.

Files:

- `types.dfy` (module `RegistryTypes`): packet markers, class members, module
  classes, decorator applications (`Registration`), import outcomes and the
  loader's errors.
- `loader.dfy` (module `LoaderSpec`): the loader as pure functions.
  `InitPass` gives what one pass imports, which registrations those imports
  run, the exclusion list it hands back and the error it raises. Lemmas state
  the load order, exclusion, core-first and fatal-on-first-error properties.
- `registry.dfy` (module `Registry`): the instance class `ModuleObject`, the
  manager class `ModuleManager` with the dictionary and the `completed` flag,
  and the methods `Register`, `ImportModule`, `InitModules` and
  `LoadDiscovered`, the lookups and the `Module` decorator.
  - `InitModules` is proved to do exactly what `InitPass` describes.
  - `Extends` relates the manager state before and after a run of
    registrations. Lemmas about it give overwrite-on-duplicate and lookup.

The collaborators the registry cannot see are abstracted:

- `importlib.import_module` is an oracle, a map from identifier to outcome.
  An outcome is either the registrations the module's top-level code makes,
  or those registrations followed by an exception. An identifier with no
  entry raises `ModuleNotFoundError` before running anything.
- `getFiles(MODULESFOLDER, ...)` is an input sequence of identifiers.
- `PacketManager.register` calls are appended to a ghost log, `packetLog`.
- The identifiers handed to `import_module` are appended to a ghost log,
  `importLog`.
- Every instance `register` creates is appended to the ghost sequence
  `registered`, together with the registration that stamped it (`stamps`).
  These two sequences let the contracts name the new instances.
- The caller's `blacklist` list is passed in and returned with the items the
  call appended. This is the in-place `append` the source performs.

The flag `_completed` is read at `obsidian/module.py:50` and is never set to
true anywhere in the file. The model therefore keeps the flag unchanged by
every call. The skip branch (lines 76-77) is modelled, but a manager built by
the constructor never reaches it. A second call to `initModules` is not a
no-op, and nothing here claims it is.

Two consequences of the code:

- With `ensureCore`, `core` is imported first even when the caller's list
  already names `core` (proved as `LoaderSpec.CoreLoadsFirst`). The exclusion
  list filters only the discovered identifiers.
- A successful pass with `ensureCore` imported `core` without error: with no
  failure, `LoaderSpec.InitPassOrder` makes every import of the plan load,
  and the plan starts with `core`. Nothing, however, guarantees that an entry
  named `"core"` exists afterwards: that depends on the name the core module
  registers itself under.

## Model

| member | source | states |
|---|---|---|
| `Registry.ModuleObject.constructor` | obsidian/module.py:10-15 | A fresh instance carries the metadata its class declares; `register` overwrites it afterwards. |
| `Registry.ModuleManager.constructor` | obsidian/module.py:20-23 | The manager starts with an empty dictionary and `completed` false. |
| `Registry.ModuleManager.Register` | obsidian/module.py:26-45 | One fresh instance whose NAME, DESCRIPTION and VERSION are the arguments, whatever the class defaults were. Lookup of `name` now yields it. The dictionary changes only at `name`, silently replacing an older entry. The packet log grows by exactly `ForwardCalls(members, instance)`. The state after the call `Extends` the state before by this one registration. |
| `Registry.ModuleManager.ForwardPackets` | obsidian/module.py:34-44 | The scan over the class's members appends exactly `ForwardCalls(members, owner)` to the packet log and changes nothing else of the manager. |
| `Registry.ForwardCallsExactlyOnce` | obsidian/module.py:34-44 | The k-th forwarding call carries the direction, name, description and packet of the k-th marked member, with the new instance as owner. Marked members are visited in member order, each exactly once. Unmarked members cause no call. |
| `Registry.ForwardCallsFollowMarks` | obsidian/module.py:34-44 | The number of forwarding calls equals the number of marked members, and each call matches its member's marker. |
| `Registry.MarkedPositionsValid` | obsidian/module.py:35 | Only members carrying a packet marker are forwarded. |
| `Registry.MarkedPositionsIncreasing` | obsidian/module.py:34 | Members are scanned in dictionary order, none twice. |
| `Registry.MarkedPositionsComplete` | obsidian/module.py:34-36 | No marked member is skipped. |
| `Registry.ForwardCallsAppend` | obsidian/module.py:34-44 | Scanning two runs of members forwards the first run's packets, then the second's. |
| `Registry.InstallLastWins` | obsidian/module.py:45 | After several registrations, a name maps to the instance of its last registration, whatever was stored under it before. |
| `Registry.InstallElsewhere` | obsidian/module.py:45 | Registrations leave every other name's entry, or its absence, unchanged. |
| `Registry.ExtendsLastWins` | obsidian/module.py:45 | After any run of registrations (for instance a whole `initModules` pass), a registered name looks up the instance created by its last registration, and that instance was stamped by that registration. |
| `Registry.ExtendsElsewhere` | obsidian/module.py:45 | After any run of registrations, names the run did not register keep their entries. |
| `Registry.ExtendsCompose` | obsidian/module.py:66-69 | Registrations from consecutive imports accumulate in import order. |
| `Registry.ModuleManager.GetItem` | obsidian/module.py:80-81 | Lookup succeeds exactly when the name is in the dictionary and yields the stored instance, whose NAME is that name. Otherwise it fails with a missing-key error for that name. |
| `Registry.ModuleManager.GetAttr` | obsidian/module.py:84-85 | `__getattr__` returns exactly what `__getitem__` returns for the same name. |
| `Registry.Module` | obsidian/module.py:89-92 | Applying the decorator to a class registers it with the manager, with the same guarantees as `Register`. |
| `Registry.ModuleManager.ImportModule` | obsidian/module.py:69 | Importing an identifier logs the import and runs its module's registrations in order, one new instance per registration, every one of them fresh. It reports the exception the import raised, if any. |
| `Registry.ModuleManager.LoadDiscovered` | obsidian/module.py:64-75 | The discovery loop's imports, registrations and error are exactly those of `Discover` over the detected identifiers. Every instance it stores is newly created. |
| `Registry.ModuleManager.InitModules` | obsidian/module.py:49-77 | When not completed: the returned exclusion list, the error, the imports in order and the registrations are exactly those of `InitPass`. `completed` never changes. When completed: nothing changes and nothing is raised. Every instance the pass stores is newly created. |
| `LoaderSpec.CoreFailure` | obsidian/module.py:58-62 | Any `ModuleNotFoundError` raised while importing core, including one for a module that core imports itself, becomes `InitError("Core Module Not Found!")`. Any other exception is re-raised unchanged. |
| `LoaderSpec.ModuleFailure` | obsidian/module.py:71-75 | Any `ModuleNotFoundError` raised while importing module `m`, including one for a module that `m` imports itself, becomes `InitError("Module m Not Found!")`. Any other exception is re-raised unchanged. |
| `LoaderSpec.Candidates` | obsidian/module.py:66-67 | The identifiers the loop imports when nothing fails are exactly the detected ones that are not in the exclusion list. |
| `LoaderSpec.CandidatesAppend` | obsidian/module.py:66-67 | Filtering by the exclusion list keeps discovery order. |
| `LoaderSpec.DiscoverStopsAtFailure` | obsidian/module.py:66-75 | Once an import has failed, no later identifier is attempted. |
| `LoaderSpec.DiscoverPrefix` | obsidian/module.py:64-69 | The loop imports a prefix of the candidates in discovery order, and all of them when nothing fails. |
| `LoaderSpec.DiscoverRegs` | obsidian/module.py:66-69 | The loop runs exactly the registrations of the modules it imported, in import order. |
| `LoaderSpec.DiscoverFailure` | obsidian/module.py:66-75 | Every import but the last succeeded. A failure is the last import, and its exception is the one reported. |
| `LoaderSpec.DiscoverShape` | obsidian/module.py:64-75 | The three discovery-loop facts above, together. |
| `LoaderSpec.CoreLoadsFirst` | obsidian/module.py:52-69 | With `ensureCore`, `core` is imported first and never again. Its registrations precede all others. `"core"` is appended to the exclusion list exactly when its import succeeded, after `"__init__"`. |
| `LoaderSpec.CoreFailureIsFatal` | obsidian/module.py:53-62 | If the core import raises, nothing else is imported, only core's own registrations ran, and the list gains only `"__init__"`. Any `ModuleNotFoundError` during that import, for core or for a module it imports, raises `InitError("Core Module Not Found!")`; a missing core file also registers nothing. Any other exception is re-raised unchanged. |
| `LoaderSpec.ExcludedNeverImported` | obsidian/module.py:52-69 | Apart from the forced core import, every import is of a detected identifier that is neither in the caller's list nor `__init__` (nor `core` once forced). The list handed back is the caller's list plus `"__init__"`, plus `"core"` when core was forced and its import loaded. |
| `LoaderSpec.InitPassOrder` | obsidian/module.py:49-75 | A pass imports a prefix of the planned order, which is core first when forced, then the non-excluded detected identifiers in discovery order. It runs exactly the registrations of what it imported, in import order. It either imports the whole plan with every import succeeding, or stops right after the first import that raised. |

## Left out

- Python's import cache (`sys.modules`) is not modelled. An identifier imported twice runs its registrations twice in the model.
- The packet registry's own behaviour (`PacketManager.register` internals) is not modelled; only the calls made to it are recorded.
- Filesystem enumeration by `getFiles` is not modelled; the detected identifiers are an input.
- Reflection over `module.__dict__` and `hasattr` is not modelled; a class is given as its sequence of members, each with an optional packet marker.
- Logging (`Logger.debug`, `Logger.info`, `Logger.fatal`) is diagnostics only and is not modelled.
- Exceptions raised by the class constructor or by `PacketManager.register` inside `register` are not modelled.
- A packet marker missing one of its `direction`, `name`, `description` or `packet` keys is not modelled: markers are records that always carry all four. The source would raise `KeyError` part-way through the scan (obsidian/module.py:39-42), after forwarding the earlier packets and without storing the instance.
- Python's attribute lookup order is not modelled: `__getattr__` is reached only for names the manager object does not have, so `register`, `initModules`, `_module_list`, `_completed` and dunder names yield the manager's own attributes, never a dictionary entry. `GetAttr` models the method itself.
- The decorator's return value (`internal` returns `None`) is not modelled.
- The shared mutable default `blacklist=[]` is not modelled: the caller always passes the list, and the appended list is handed back.
- Concurrency is not modelled; the source has none.
