# Cacao engine: dynamic tick controller and UI screen, modelled in Dafny

This project models two sequential cores of the Cacao engine.

**The dynamic tick controller** (`cacao/src/Control/DynTickController.cpp`).
- `Start`/`Stop` form a guarded two-state lifecycle over `isRunning` and the `thread` pointer.
  Misuse (starting a running controller, stopping a stopped one) logs an error and changes nothing.
- Each cycle of `Run` computes a deadline one period after the cycle start.
  It scans the active world's tree for scripts to run, and sleeps until the deadline if that has not passed.
- The scan walks each top-level child of the world tree (indices `[0, N)`) recursively.
  An inactive entity prunes its whole subtree.
  Inside an active entity, a component is collected iff its exact type is `Script` and it is active.
  The children of an active entity are then visited in order.

**The UI `Screen`** (`cacao/include/UI/Screen.hpp`).
- A vector of element references with set semantics, changed in place.
- `AddElement` rejects a duplicate and `DeleteElement` rejects an absent element, both with a `ContainerValue` exception.
- `HasElement` is a linear search.
- `NotifyClean` clears the `dirty` flag.

Files:
- `entities.dfy` (module `Entities`): components, entities and `TreeItem` nodes as datatypes.
  It also defines paths into the tree, and `CollectedAt`: an independent description of what a scan must find.
- `script_locator.dfy` (module `ScriptLocator`):
  - the walk as pure functions (`Eligible`, `Locate`, `LocateChildren`, `Scan`);
  - the walk as methods mirroring the source's loops (`Walk` for the recursive lambda, with `PushEligible` and `WalkChildren` for its two loops, and `ScanWorld` for the index loop);
  - the lemmas about them.
- `fan_out.dfy` (module `FanOut`): the thread pool runs the per-index walks in no fixed order.
  Combining their results in any order that walks each index once yields the same multiset of scripts.
- `dyn_tick_controller.dfy` (module `DynTick`): the controller class (`Start`, `Stop`, `Run`), its control thread, and the pacing arithmetic with its lemmas.
- `screen.dfy` (module `UI`): the `Screen` class, `std::find` as `Find`, and the list lemmas behind its contracts.

Time is modelled as integer milliseconds passed in as parameters.
The thread pool's parallel fan-out is modelled as sequential per-index walks.
A separate lemma shows that the order of the per-index results does not change what is collected.

## Model

| member | source | states |
|---|---|---|
| `ScriptLocator.Eligible` | cacao/src/Control/DynTickController.cpp:74-80 | the component loop is a filter: it keeps no more components than the entity has |
| `ScriptLocator.EligibleExactly` | cacao/src/Control/DynTickController.cpp:74-80 | a component of an active entity is kept iff it is a `Script` and active; nothing is kept more often than it occurs |
| `ScriptLocator.EligibleCount` | cacao/src/Control/DynTickController.cpp:74-80 | each occurrence of an active script is kept exactly as often as it occurs, and any other component not at all |
| `ScriptLocator.Locate` | cacao/src/Control/DynTickController.cpp:69-86 | the walk from an entity collects no more components than its subtree holds (`All(e)`, every component in pre-order) |
| `ScriptLocator.LocateChildren` | cacao/src/Control/DynTickController.cpp:83-85 | the walks of children `[0, n)` collect no more components than those subtrees hold |
| `ScriptLocator.Scan` | cacao/src/Control/DynTickController.cpp:65-91 | one cycle's scan over indices `[0, N)` collects no more components than lie below the root |
| `ScriptLocator.Walk` | cacao/src/Control/DynTickController.cpp:69-86 | the recursive lambda's loops append exactly `Locate(e)` to what was collected before |
| `ScriptLocator.PushEligible` | cacao/src/Control/DynTickController.cpp:74-80 | the component loop appends exactly `Eligible(components)` to what was collected before |
| `ScriptLocator.WalkChildren` | cacao/src/Control/DynTickController.cpp:83-85 | the child loop appends the walks of all children, in child order, to what was collected before |
| `ScriptLocator.ScanWorld` | cacao/src/Control/DynTickController.cpp:65-92 | running the per-index walks for indices `[0, N)` in index order yields `Scan(world)` |
| `ScriptLocator.LocateExactly` | cacao/src/Control/DynTickController.cpp:69-86 | a component is collected iff it is an active script of a node reached from the start entity through active entities only, the node included |
| `ScriptLocator.LocateChildrenExactly` | cacao/src/Control/DynTickController.cpp:83-85 | the walks of children `[0, n)` collect exactly what lies, by that rule, below one of those children |
| `ScriptLocator.ScanExactly` | cacao/src/Control/DynTickController.cpp:65-92 | a cycle's scan collects exactly the active scripts below a top-level child with index in `[0, N)`, reached through active entities only |
| `ScriptLocator.ScanIgnoresRoot` | cacao/src/Control/DynTickController.cpp:91 | the root node's own flag and components make no difference to the scan |
| `ScriptLocator.InactivePrunes` | cacao/src/Control/DynTickController.cpp:71 | replacing an inactive entity's subtree by any other inactive subtree, whatever lies beneath, does not change what is collected |
| `ScriptLocator.LocateChildrenPrefix` | cacao/src/Control/DynTickController.cpp:83-85 | what the first `m` children yield comes first in what the first `n >= m` children yield |
| `ScriptLocator.ChildWalkInPlace` | cacao/src/Control/DynTickController.cpp:83-85 | child `i`'s walk follows right after those of children `0 .. i-1` |
| `ScriptLocator.ChildBlock` | cacao/src/Control/DynTickController.cpp:74-85 | in an active entity the order is pre-order: its eligible components in component order, then each child's whole walk in child order; every child is visited, even when the entity had no eligible component |
| `ScriptLocator.LocateSub` | cacao/src/Control/DynTickController.cpp:69-86 | the walk collects no component more often than it occurs in the subtree: each component is looked at once |
| `ScriptLocator.LocateChildrenSub` | cacao/src/Control/DynTickController.cpp:83-85 | the walks of children `[0, n)` collect no component more often than it occurs in their subtrees |
| `ScriptLocator.ScanSub` | cacao/src/Control/DynTickController.cpp:65-91 | one cycle's scan collects no component more often than it occurs below the root |
| `ScriptLocator.ScanOnce` | cacao/src/Control/DynTickController.cpp:65-91 | a component occurring at most once below the root is collected exactly once if it is an active script reached through active entities only, and never otherwise |
| `ScriptLocator.ScanNoRepeats` | cacao/src/Control/DynTickController.cpp:65-91 | when the components below the root are distinct, the scan collects none of them twice |
| `FanOut.InIndexOrder` | cacao/src/Control/DynTickController.cpp:65 | combining the per-index results in increasing index order is the sequential scan |
| `FanOut.OrderIrrelevant` | cacao/src/Control/DynTickController.cpp:65 | two listings of the same indices, each as often, collect the same multiset of scripts |
| `FanOut.AnyPartitionOrder` | cacao/src/Control/DynTickController.cpp:65-95 | any order that walks each index of `[0, N)` once collects the same multiset as the scan in index order |
| `DynTick.IdealStopTime` | cacao/src/Control/DynTickController.cpp:59-60 | the deadline is never before the cycle start, and a cycle whose work takes no time idles for exactly one period |
| `DynTick.IdleWait` | cacao/src/Control/DynTickController.cpp:98-102 | the idle wait is positive iff the cycle ended before its deadline, and waiting it out resumes at the later of the cycle end and the deadline |
| `DynTick.CycleLength` | cacao/src/Control/DynTickController.cpp:59-102 | a cycle of given work followed by its idle wait lasts the period or the work, whichever is longer |
| `DynTick.Elapsed` | cacao/src/Control/DynTickController.cpp:57-103 | over a run of cycles, the elapsed time is at least the total work: sleeping never shortens a cycle |
| `DynTick.ElapsedBounds` | cacao/src/Control/DynTickController.cpp:57-103 | over any run of cycles, the elapsed time is at least one period per cycle and at least the total work: no cycle is skipped or merged |
| `DynTick.OnSchedule` | cacao/src/Control/DynTickController.cpp:60-102 | when no cycle overruns the period, the cycles take exactly one period each |
| `DynTick.Overloaded` | cacao/src/Control/DynTickController.cpp:102 | when every cycle overruns the period, cycles run back to back with no sleep |
| `DynTick.TenIdleCyclesAtTenMs` | cacao/src/Control/DynTickController.cpp:57-103 | ten cycles of negligible work at a 10 ms period take 100 ms |
| `DynTick.ControlThread.constructor` | cacao/src/Control/DynTickController.cpp:36 | a new control thread has no stop requested and is not joined |
| `DynTick.ControlThread.RequestStop` | cacao/src/Control/DynTickController.cpp:45 | a stop is requested |
| `DynTick.ControlThread.Join` | cacao/src/Control/DynTickController.cpp:46 | after the stop request the thread is joined |
| `DynTick.DynTickController.constructor` | cacao/src/Control/DynTickController.cpp:23 | a new controller is stopped and owns no thread |
| `DynTick.DynTickController.Start` | cacao/src/Control/DynTickController.cpp:29-37 | when running: logs the start error and changes no state; otherwise: running with a fresh, unstopped control thread; keeps "running iff a thread is owned" |
| `DynTick.DynTickController.Stop` | cacao/src/Control/DynTickController.cpp:39-53 | when stopped: logs the stop error and changes no state; otherwise: the old thread was asked to stop and joined, `thread == null` and not running |
| `DynTick.DynTickController.Run` | cacao/src/Control/DynTickController.cpp:55-104 | the first cycle starts at `t0`; each next cycle starts `max(period, work)` after the previous; each idle wait is `period - work` when positive and 0 otherwise; the loop ends after the total elapsed time |
| `DynTick.StartThenStop` | cacao/src/Control/DynTickController.cpp:29-53 | `Start` then `Stop` on a stopped controller logs nothing and returns it to the stopped state |
| `DynTick.StartTwice` | cacao/src/Control/DynTickController.cpp:29-37 | a second `Start` logs the error and keeps the thread `t1` made by the first, still unstopped and not joined |
| `UI.Find` | cacao/include/UI/Screen.hpp:19 | `std::find`: the first index of the element, or the end when it is absent |
| `UI.RemoveFirst` | cacao/include/UI/Screen.hpp:25 | on a present element, erases its first occurrence and shortens the list by one; for an absent element, which line 24 never lets through, the model returns the list unchanged |
| `UI.RemoveFirstOne` | cacao/include/UI/Screen.hpp:25 | erasing a present element shortens the list by one and removes exactly one copy of it |
| `UI.RemoveFirstKeepsOrder` | cacao/include/UI/Screen.hpp:25 | the elements before the erased one stay in place and the ones after move up by one |
| `UI.AppendKeepsNoDuplicates` | cacao/include/UI/Screen.hpp:13-14 | appending an absent element keeps the list free of duplicates |
| `UI.RemoveKeepsNoDuplicates` | cacao/include/UI/Screen.hpp:24-25 | erasing keeps the list free of duplicates, and the erased element is then absent |
| `UI.AddThenDelete` | cacao/include/UI/Screen.hpp:14-25 | appending a fresh element and erasing it gives back the original list |
| `UI.Screen.constructor` | cacao/include/UI/Screen.hpp:29-33 | a new screen holds no element |
| `UI.Screen.HasElement` | cacao/include/UI/Screen.hpp:18-20 | true iff the element is contained; nothing is changed |
| `UI.Screen.AddElement` | cacao/include/UI/Screen.hpp:12-15 | a duplicate fails with a `ContainerValue` exception and leaves `elements` unchanged; a new element is appended; `dirty` is untouched; "no duplicates" is kept |
| `UI.Screen.DeleteElement` | cacao/include/UI/Screen.hpp:23-26 | an absent element fails with a `ContainerValue` exception and leaves `elements` unchanged; a present one has its first occurrence erased; `dirty` is untouched; "no duplicates" is kept and the element is then absent |
| `UI.Screen.NotifyClean` | cacao/include/UI/Screen.hpp:36-38 | `dirty` becomes false and `elements` is untouched |
| `UI.AddThenDeleteRestores` | cacao/include/UI/Screen.hpp:12-26 | `AddElement` then `DeleteElement` of a fresh element leaves a screen's elements as they were |

## Left out

- Threads: `std::jthread`, `stop_token`, `BS::thread_pool::submit_loop`, `fsFuture.wait()` and `sleep_for`.
  The control thread is a small class that records the stop request and the join.
  The pool's fan-out is modelled as sequential per-index walks; `FanOut` covers the unfixed order of the partitions.
- `DynTick.DynTickController.Run`: the stop request is modelled as observed after `|work|` cycles, at a cycle boundary.
  Clock readings are modelled as the cycle start plus that cycle's scan time, and `sleep_for` as sleeping exactly the requested time.
  Scheduler jitter is not modelled.
- `DynTick.DynTickController.Run`: the cycle's scan result is not part of `Run`'s contract.
  In the source, each lambda captures `scriptsToRun` by value, so the vector in `Run` stays empty.
  `OnTick` is never called in the source either.
  What one scan collects is stated by `ScriptLocator.ScanWorld` and its lemmas; tick invocation is not modelled.
- The period is a natural-number parameter.
  The source computes it as `duration_cast<milliseconds>(seconds(1)/cfg.targetDynTPS)`, and `EngineConfig.hpp` is not part of this model.
  So the type of `targetDynTPS`, and any truncation of that division, is not captured.
- `DynTick.DynTickController.constructor`: the source's constructor sets only `isRunning = false`.
  That `thread` starts out null depends on the class declaration in `DynTickController.hpp`, which is not part of this model; a null initial thread is assumed.
- `GetInstance` (the singleton accessor) and the `Engine`/`WorldManager` lookups of the active world.
  The world tree is passed in directly; the controller constructor gives the state `GetInstance` sets up.
- Logging: `Logging::EngineLog` is I/O. `Start` and `Stop` return the entry they would log.
- The exact-type RTTI test `typeid(c) == typeid(Script&)` is modelled as a component-kind tag equal to `Script`.
  Subclasses of `Script` are not modelled.
- Exceptions: `CheckException` throwing is modelled as a returned `Fail` outcome with the exception code and message.
  `Exception.hpp` (the code lookup from the meaning `"ContainerValue"`) is not part of this model.
- `UIElement` is an opaque class compared by reference, as `std::shared_ptr` equality compares pointers.
  An empty `shared_ptr` is `null`, which the screen accepts, finds and erases like any other element.
  Reference counting is not modelled.
- `UI.Screen.constructor`: the source leaves `dirty` uninitialised; the model starts with `elements` empty and `dirty` is a constructor argument.
- `UI.Screen.DeleteElement`: the source's message for a missing element reads "Cannot add a duplicate element to UI screen!".
  The model keeps that text; only the `ContainerValue` code distinguishes the error.
- `AddElement` and `DeleteElement` do not set `dirty`, in the source or in the model.
- Nested screens and the `UIView` friend are not modelled.
- The other engine parts are not modelled: the event bus, world registry, audio, rendering, cameras, input and the client loop.
