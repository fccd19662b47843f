# Verification of the EG compiler and runtime core

EG compiles an *invocation* (a context, a path of types and an operation) to a tree of
instructions, stores that tree, and evaluates it; at run time it schedules coroutines,
allocates instances and logs events to memory-mapped files. This project models those
parts in Dafny and proves what they are for.

- **Invocation compiler.** A path of types is resolved to a tree of names (`NameResolution`, `Pruning`, `Completeness`, `Names`),
  built into an instruction tree with choices and dead ends (`Builder`, `Derivation`, `BuiltShape`, `BuiltOperations`),
  settled by the elimination pass (`EliminationSpec`, `EliminationInPlace`) and interpreted
  (`Evaluation`, `EvaluationSafety`, `Compilation`). Instances are numbers with mixed-radix parents
  (`ConcreteTree`). The meaning of a tree with choices is how many ways there are to resolve it to
  each finished derivation; the meaning of a name is the effect it has from an instance.
  `Correctness` proves that what is evaluated in the end has an effect the names say.
  `Enumerations`, `EnumerationScopes` and `RangeInvocations` do the same for range invocations, and
  `ConcreteInvocations` takes two inputs all the way through.
- **AST serialiser.** A shared, possibly cyclic graph of instructions and variables is written as
  tokens with back references and read again (`SerialiserSpec`, `SerialiserLoads`, `SerialiserInPlace`).
- **Cooperative scheduler.** The specification (`SchedulerSpec`, `SchedulerRuns`, `SchedulerCycles`, `SchedulerPlaces`)
  has three named lists, a pause list, timeouts and two tables of waits; `SchedulerLists` and
  `SchedulerInPlace` have what is stored, three physical lists under a six-value permutation with
  iterators kept by every action, and refine the specification over whole runs.
- **Event log.** Byte encoding (`EventCodec`), claims and file layout (`EventLogSpec`), events
  whose bytes are still being copied (`EventLogCopies`), interleaved steps of writers, head updaters and a
  reader (`EventLogRuns`), and the classes over arrays (`EventLogInPlace`).
- **Allocators, analyses, iterators.** `Allocators`, `LinkSets`, `Compatibility`, `Iterators`; `Sequences`
  holds what several of them say of lists of numbers.

A method over arrays or fields is proved against a function of the old state; what the program
promises is then proved about that function, over all inputs or all runs.

## Where the code and its purpose part

Each of these is shown by an input, or by a statement about all inputs, and the exact condition for the
code to do what it is for is proved beside it.

- A failure instruction straight under an elimination node is judged by what hangs below it, so it can
  count as a success (`EliminationSpec.FailureAlternative`), and the builder can emit that shape
  (`Compilation.DeadAlternative`); names that resolution gives for an actual tree lead there, and the invocation
  then compiles although it has no resolution (`ConcreteInvocations.BlockedInvocation`). An elimination
  node is told apart rightly exactly when it is a conflict anyway or nothing can be resolved below any such
  alternative (`EliminationSpec.ChoiceExact`).
  For every tree the pass accepts, a success leaves the one derivation there was exactly when no failure
  is left in the tree (`EliminationSpec.EliminationTheorem`). The builder emits no such alternative
  exactly when no alternative name is blocked from the start, and a tree the pass accepts exactly when
  no alternative comes to a further choice without a step: `BuiltShape.BuildShape`, read off the names.
- `eAmbiguous` does not mean two resolutions (`EliminationSpec.AmbiguousWithoutResolution`); where no
  alternative misleads it means exactly that some elimination node in reach has two alternatives that
  can be resolved (`EliminationSpec.EliminationTheorem`). On trees without polymorphic branches it does mean two or
  more resolutions, and conversely (`EliminationSpec.LinearOutcome`).
- The server accepts an event exactly as large as a file, but its write is refused after the claim
  and readers before it are stuck for good (`EventLogRuns.FileSizedEventBlocksReaders`); every
  smaller event fits and no other does (`EventLogSpec.WriteFitsExactly`). The assertion at
  `src/eventlog/iterator.cpp:82` says the opposite of what the arithmetic gives and is not modelled.
- In the last file a reader's 32-bit file number wraps to the first file
  (`EventLogRuns.LastFileWraps`). A fully written log reads back and then ends exactly when it ends
  before its last file; otherwise reading begins again (`EventLogRuns.EndExact`).
- The delimiter of an event is copied first and is all a reader tests. With only the header there it reads an
  event of zeros (`EventLogRuns.HeaderOnlyRun`), with only the delimiter an event of nothing, after which it
  stands inside the event (`EventLogRuns.DelimOnlyRun`). It sees an event exactly when the four bytes of the
  delimiter that are not zero are there (`EventLogCopies.VisibleExact`), and reads it as written exactly when
  all bytes that are not zero are (`EventLogCopies.CompleteExact`). A reader stays in order over a run exactly
  when it never takes an event too early and never wraps (`EventLogRuns.ReaderTheorem`); the first cannot happen
  where the delimiter becomes visible last (`EventLogRuns.PublishedNeverTears`).
- A reader looks at its position and then in the next file, and can lose an event that appears between the two,
  even if events appear in the order of their claims (`EventLogRuns.LostEvent`). In that order it loses none
  exactly when it never wraps, never takes an event too early and never misses one in this way
  (`EventLogRuns.PrefixTheorem`).
- The head of the log can fall back: two clients that update it at the same time may exchange it in the other order
  than they looked (`EventLogRuns.HeadFallsBack`). It does exactly when an update brings a value the head has
  passed meanwhile (`EventLogRuns.HeadExact`).
- A context two of whose bases share a link set makes that set vanish
  (`LinkSets.SharedBasesAreLost`). Adding a context keeps the sets the connected components exactly
  when its bases are placed in different sets, none its own, or neither it nor any base is placed
  (`LinkSets.AddActionExact`, `LinkSets.LinkSetsTheorem`).
- `Done`, which asks whether an action has ended, dereferences the last name of its path. That is derived from the
  dimension, while the variable holds an instance of the type referred to. It reaches the instance referred to exactly when that is the first one,
  or the type has one instance in its parent and there is one way from the dimension's action up to what is
  above both (`Correctness.FinalExact`); an actual tree where it reaches another one is
  `ConcreteInvocations.LinkedInvocation`.
- Names that are members of the action before them are preferred once only: the first path element that has any
  prunes the tree, and no later one does (`Pruning.PruningTheorem`), because the root is marked then and
  nothing below a marked reference is looked at (`Pruning.PruneEffect`).
- Expanding a reference to a type without instances never ends (`NameResolution.EmptyTypeNeverExpands`);
  expansion ends exactly when every dimension left to expand has an instance
  (`NameResolution.ExpansionEnds`).
- A second `pause` of a paused action loses its list entry. Pausing, stopping and unpausing keep every
  action in one place exactly when they are legal calls of the model (`SchedulerSpec.PauseExact`,
  `SchedulerSpec.StopExact`, `SchedulerSpec.UnpauseExact`), and a wait for no event loses the action
  (`SchedulerSpec.EmptyWaitLoses`).

## Model

| member | source | states |
|---|---|---|
| EliminationSpec.EliminationTheorem | src/eg/instruction.cpp:204-314 | for every tree the pass accepts, each derivation is reached in as many ways after the pass as before; eFailure means there is none, whichever alternatives are picked, two or more are always eAmbiguous, and after eSuccess there is one exactly when no failure is left in the tree, which is then that one; where no alternative misleads, eSuccess, eFailure and eAmbiguous say exactly whether there is one, none, or a conflict, and a second run changes nothing |
| EliminationSpec.ChoiceExact | src/eg/instruction.cpp:217-252 | one elimination node, failure-headed alternatives included, is told apart rightly exactly when it is a conflict or nothing can be resolved below any failure-headed alternative |
| EliminationSpec.AlternativesKept | src/eg/instruction.cpp:219-256 | an elimination node is left with nothing where all alternatives fail, is replaced by the only one that succeeds, and otherwise keeps the ambiguous ones in order, followed by the successful ones in order |
| EliminationSpec.TwoStageTheorem | src/eg/instruction.cpp:316-437 | the second stage keeps exactly the resolutions of the original tree whose operations are all candidates: a failure means that no pick of alternatives uses candidates only, a success that what is left is the only one that does, or that a failure is left and none does; where no alternative misleads, its value is exact too |
| EliminationSpec.CandidateWays | src/eg/instruction.cpp:320-328 | a derivation counts with candidates as often as without where every operation in it is a candidate, whatever its kind, and else not at all |
| EliminationSpec.WaysExact | src/eg/instruction.cpp:204-437 | a derivation is counted exactly when it picks one alternative of every elimination node and no failure, and all its operations are candidates |
| EliminationSpec.TotalExact | src/eg/instruction.cpp:204-437 | a tree can be resolved exactly when it has such a derivation |
| EliminationSpec.OperationsVisited | src/eg/instruction.cpp:320-328 | where nothing hangs below operations, all of them are those that are collected for the second stage |
| EliminationSpec.LinearOutcome | src/eg/instruction.cpp:204-314 | without polymorphic branches and misleading alternatives the returned value says exactly whether there are none, one or several resolutions |
| EliminationSpec.AmbiguousWithoutResolution | src/eg/instruction.cpp:295-310 | a polymorphic branch with an ambiguous case beside a dead one gives eAmbiguous although there is no resolution |
| EliminationSpec.FailureAlternative | src/eg/instruction.cpp:217-252 | a failure straight under an elimination node is judged by what hangs below it, and has no resolution |
| EliminationSpec.PruneTheorem | src/eg/instruction.cpp:259-294 | on enumeration trees the pass is never ambiguous, succeeds exactly when some way lives, and leaves exactly the live operations in order |
| EliminationSpec.EliminateStable | src/eg/instruction.cpp:204-314 | where no alternative misleads, running again gives the same tree and value, and no failure heads an alternative any more |
| EliminationInPlace.InstructionNode.Run | src/eg/instruction.cpp:204-437 | the loop over the children, rewriting them in place, leaves the specified tree and returns the specified value |
| EliminationInPlace.InstructionNode.EliminateChoice | src/eg/instruction.cpp:211-252 | one elimination node: its alternatives are run, kept or dropped, and it is replaced by the only one that succeeds |
| EliminationInPlace.InstructionNode.Settle | src/eg/invocation.cpp:908-1011 | both stages as chained, the second only when the first is ambiguous, no dimension is returned and there are candidates: a success settles the original tree, among all its derivations or among those made of candidates; a refusal as impossible means there is none, and several are refused as ambiguous |
| ConcreteTree.AncestorRange | src/eg/instruction.cpp:543-554 | repeated division by local sizes gives ancestor j exactly for the numbers in one range |
| ConcreteTree.AncestorInRange | src/eg/concrete.cpp:212-228 | an instance is in range exactly when its ancestor is |
| ConcreteTree.TotalFactor | src/eg/concrete.cpp:212-241 | the total domain is that of an ancestor times the factor between them |
| ConcreteTree.TotalIsProduct | src/eg/concrete.cpp:212-228 | the total domain is the product of the local sizes on the path from the root, the root's included |
| ConcreteTree.DomainSizes.GetTotalDomainSize | src/eg/concrete.cpp:212-228 | the memoised recursion returns the total domain and keeps every remembered value right |
| ConcreteTree.GetObjectDomainFactor | src/eg/concrete.cpp:229-241 | the loop computes the product of local sizes up to an ancestor, and no product on the way is larger |
| ConcreteTree.CommonRootLowest | src/eg/invocation.cpp:186-209 | whatever is above both elements is above their common root |
| ConcreteTree.FindCommonRoot | src/eg/invocation.cpp:186-209 | comparing the two paths from the root finds the lowest common ancestor |
| Derivation.DeriveCommonRoot | src/eg/invocation.cpp:211-278 | the loops up and down emit exactly the specified chain, stopping at the first action with several instances |
| Derivation.DerivationTheorem | src/eg/invocation.cpp:211-278 | the chain leaves in its variable the only in-range instance of the target with the same ancestor at the lowest common ancestor; a failure is emitted exactly when there is more than one |
| Derivation.UpEvaluates | src/eg/instruction.cpp:543-554 | parent derivations compute the ancestor |
| Derivation.DownEvaluates | src/eg/instruction.cpp:568-578 | child derivations keep the instance number where the way down is live |
| Derivation.DownDead | src/eg/invocation.cpp:244-255 | the way down is dead exactly when it has several instances |
| Derivation.RangeTheorem | src/eg/instruction.cpp:650-673 | the sub-range of an enumeration is exactly the target instances below the instance, within the total domain |
| Derivation.RangesTile | src/eg/instruction.cpp:650-673 | over all instances the ranges tile the target's domain without overlap |
| Derivation.SubRange | src/eg/instruction.cpp:654-672 | the loop and the two products give that range, and no product computed on the way exceeds the total domain |
| Evaluation.RuntimeEvaluator.SetVarValue | api/eg_compiler/instruction.hpp:61-66 | a variable is set only if it has no value |
| Evaluation.RuntimeEvaluator.BindOne | src/eg/instruction.cpp:543-578 | one instruction reads its variable and sets another, or stops |
| Evaluation.RuntimeEvaluator.Run | src/eg/instruction.cpp:725-809 | running a tree on the mutable variables is evaluating it |
| EvaluationSafety.EliminateScoped | src/eg/instruction.cpp:204-437 | the pass keeps every variable set before it is read, once on every path |
| EvaluationSafety.EvaluationTheorem | src/eg/instruction.cpp:519-809 | a scoped tree with one resolution, eliminated with success, is always evaluated to one of its operations, for every context and dereference of the resolved types |
| EvaluationSafety.SecondStageEvaluationTheorem | src/eg/instruction.cpp:316-437 | the same after the second stage, and the operation is a candidate |
| Builder.BuildScoped | src/eg/invocation.cpp:412-583 | the builder sets every variable before it is read and covers every type of a reference |
| Builder.KindExact | src/eg/invocation.cpp:280-410 | of an action Stop is made exactly for stopping, Pause exactly for pausing, and so on for every kind; of a dimension Read, Write, a write to a link exactly where it is linked, and so on; and each gets the action the source derives for it |
| BuiltOperations.BuildRefused | src/eg/invocation.cpp:360-408 | names are refused exactly where one of them, at any depth, has no such operation |
| BuiltOperations.OperationsDistinct | src/eg/invocation.cpp:280-410 | all operations of a built tree are different objects, and nothing hangs below one |
| BuiltShape.BuildShape | src/eg/invocation.cpp:525-580 | the pass may be run on what is built exactly when no alternative name comes to a further choice without a step, and no failure heads an alternative exactly when none is blocked from the start |
| Compilation.CompiledTheorem | src/eg/invocation.cpp:869-912 | built from names the pass can take and eliminated with success, the tree is settled; no failure is left where no alternative is blocked from the start; and where none is left, evaluation always reaches one operation and never gets stuck |
| Compilation.CompiledInTwoStages | src/eg/invocation.cpp:869-1011 | the same through the second stage |
| Correctness.ResolutionCorrect | src/eg/invocation.cpp:412-583 | any derivation the built tree can be resolved to has, evaluated, an effect that the names say, where final dereferences reach what they refer to |
| Correctness.CompilerTheorem | src/eg/invocation.cpp:869-1011 | what the first or the second stage leaves, with no failure in it, carries out, evaluated, the operation asked for as the names say: through the one matching instance at every derivation, the dereferenced instance at every reference, and one of the alternatives |
| Correctness.FinalReached | src/eg/invocation.cpp:444-477 | a final dereference that does not fail is carried out on the quotient that the way from the dimension up to the common root gives |
| Correctness.FinalExact | src/eg/invocation.cpp:444-477 | that quotient is the instance referred to exactly when it is the first one or the way is straight |
| Compilation.TerminalTheorem | src/eg/invocation.cpp:280-410 | a terminal name carries out exactly the operation asked for, on the one instance that belongs to the starting instance: of the target, of a dimension's action, or of the parent where something is called or started |
| Compilation.DeadTerminal | src/eg/invocation.cpp:244-255 | for a name whose way is blocked from the start the builder emits a failure first |
| Compilation.DeadAlternative | src/eg/invocation.cpp:541-552 | two names after another, one blocked from the start and one that fails otherwise: neither can be resolved, and the pass still returns eSuccess with the failure left in the tree |
| Compilation.DeadInvocation | src/eg/invocation.cpp:541-552 | so does a whole invocation of two terminal names, one blocked from the start and one blocked behind a step |
| ConcreteInvocations.BlockedInvocation | src/eg/invocation.cpp:541-552 | such names as resolution gives them for an actual tree, compiled with success and without any resolution |
| ConcreteInvocations.LinkedInvocation | src/eg/invocation.cpp:444-477 | `Done` of what a dimension refers to, resolved and compiled with success, is carried out on the instance referred to exactly if that is the first one |
| NameResolution.Resolution.Resolve | src/eg/name_resolution.cpp:156-182 | the loop over path elements leaves the specified tree, and is refused or endless exactly where the specification says |
| NameResolution.ResolutionTheorem | src/eg/name_resolution.cpp:156-182 | where nothing is refused, every way from the root is one context and one node for every path element, members preferred, with dereferences to all instances after dimensions that refer; children come after parents |
| Completeness.CompletenessTheorem | src/eg/name_resolution.cpp:156-182 | nothing else is missing: without pruning every way has, at every step, all members of the action that the path element names, or else all elements it names, and all instances referred to; pruning takes away children of the nodes there are when it first finds members, as it does from that tree, and nothing else |
| NameResolution.Resolution.ExpandReferences | src/eg/name_resolution.cpp:35-67 | comes to an end exactly when the rounds can, and then leaves no reference unexpanded |
| NameResolution.Resolution.AddType | src/eg/name_resolution.cpp:69-112 | refused exactly when a leaf is not an action; otherwise every leaf has grown by the path element |
| NameResolution.Resolution.PruneBranches | src/eg/name_resolution.cpp:114-154 | the recursion in place prunes exactly the nodes it visits, each as specified from the tree before |
| NameResolution.PruneExact | src/eg/name_resolution.cpp:114-154 | of a visited node that is no reference exactly the children marked members are left, where there are any, and else all; a reference keeps all; a node is marked a member exactly if it was one or a child is; other nodes are as they were |
| Pruning.PruneEffect | src/eg/name_resolution.cpp:114-154 | pruning from the root changes the tree exactly when the root is not marked yet and a member is found below it |
| Pruning.PruningTheorem | src/eg/name_resolution.cpp:156-182 | over a whole resolution exactly the first path element that names a member prunes the tree, and the final expansion does not |
| NameResolution.GrowShaped | src/eg/name_resolution.cpp:77-110 | growing appends the path element to every way down, with members only where there are any |
| Completeness.GrowWhole | src/eg/name_resolution.cpp:86-107 | growing a leaf leaves out no member of its action, and where it has none, no element |
| Completeness.ExtendRefused | src/eg/name_resolution.cpp:35-84 | an element of the path is refused exactly where the expansion before it goes on for ever or leaves a node that nothing can follow |
| NameResolution.ExpandShaped | src/eg/name_resolution.cpp:47-64 | expanding inserts a dereference after a referring dimension and nothing else |
| NameResolution.EmptyTypeNeverExpands | src/eg/name_resolution.cpp:37-66 | a dimension whose type has no instances is as unexpanded after any number of rounds as before |
| NameResolution.RoundExact | src/eg/name_resolution.cpp:42-65 | one round leaves nothing to expand exactly when every dimension left had an instance, and whether it has does not change |
| NameResolution.ExpansionEnds | src/eg/name_resolution.cpp:37-66 | the rounds come to an end exactly when every dimension left to expand has an instance |
| Names.ResolvedBuilds | src/eg/invocation.cpp:490-583 | the names of a resolved tree can be built; below each reference are names for all it may refer to, pruned or not |
| Names.InvocationTheorem | src/eg/invocation.cpp:869-912 | from a path of types to the operation, final dereferences included where they reach what they refer to: resolved, built, eliminated without a failure left, and evaluated, the invocation always ends and has an effect the names say |
| Enumerations.EnumerationTheorem | src/eg/invocation.cpp:587-815 | a range invocation that is built is never refused by the pass, and evaluated for any reference enumerates exactly the terminal names of its type, in order, all of them below it |
| EnumerationScopes.EnumerationRefused | src/eg/invocation.cpp:650-718 | a range invocation is refused exactly where a name in it, at any depth, is a reference, is no action, or is not below the name before it |
| EnumerationScopes.EnumerationScoped | src/eg/invocation.cpp:587-815 | in what is built every variable is set before it is read, derivations go from an action to one in it, and every operation is of the kind asked for on a variable of its target |
| Enumerations.EvaluateEnumeration | src/eg/instruction.cpp:624-676 | the loop over the operations gives for each target exactly its instances below the one enumerated |
| RangeInvocations.RangeInvocationTheorem | src/eg/invocation.cpp:587-815 | from a path of types to the instances: a resolved range invocation that is built is never refused, and enumerates for any reference only elements of the last path element, below the context |
| SerialiserSpec.RoundTripTheorem | src/eg/instruction.cpp:25-124 | storing throws exactly when an unstorable instruction is reachable; otherwise loading consumes exactly the tokens written and gives an isomorphic graph on the stored fields, sharing preserved, and fails exactly when a root instruction is inside |
| SerialiserSpec.StoredIsReachable | src/eg/instruction.cpp:99-124 | what is stored is exactly what is reachable |
| SerialiserLoads.LoadIsSafe | src/eg/instruction.cpp:25-97 | whatever the stream, loading fails or gives a root and a graph of elements it may create, in which every field is null or points to an element of its class and no child is null |
| SerialiserSpec.StoredFields | src/eg/instruction.cpp:132-1260 | how many pointers, and which data, an element of each class stores |
| SerialiserInPlace.ASTSerialiser.Store | src/eg/instruction.cpp:99-124 | writes the specified tokens and numbers elements on first visit |
| SerialiserInPlace.ASTSerialiser.Load | src/eg/instruction.cpp:25-97 | reads what the specification reads, with the same back references |
| SerialiserInPlace.ASTSerialiser.StoreAll | src/eg/instruction.cpp:194-202 | the loop over pointers stores them one after the other, sharing the numbering |
| SerialiserInPlace.ASTSerialiser.LoadAll | src/eg/instruction.cpp:181-192 | the loop loads them in the same order |
| SchedulerSpec.RunLocated | api/eg/basic_scheduler.cpp:363-632 | in every state legal commands reach, each action is registered and in at most one place, once |
| SchedulerSpec.RunPlaced | api/eg/basic_scheduler.cpp:363-632 | over every legal run, who is somewhere and was not merely allocated meanwhile is somewhere exactly as long as it is registered |
| SchedulerSpec.ExactlyOnePlace | api/eg/basic_scheduler.cpp:363-632 | from the start of the program, every registered action that was not merely allocated is in exactly one place |
| SchedulerSpec.ApplyLocated | api/eg/basic_scheduler.cpp:363-632 | every legal command keeps that; nobody who stays registered is dropped, and nobody turns up who is not called, paused or unpaused |
| SchedulerSpec.FiredExactly | api/eg/basic_scheduler.cpp:326-360 | an event activates exactly the actions it was the last outstanding event of, each once |
| SchedulerSpec.FiredInOrder | api/eg/basic_scheduler.cpp:326-360 | actions are fired in the order of the entries that were their last |
| SchedulerSpec.SignalPlaces | api/eg/basic_scheduler.cpp:416-420 | a signal moves exactly those actions and no other |
| SchedulerSpec.PauseExact | api/eg/basic_scheduler.cpp:482-498 | pausing keeps every action in one place exactly when the action is not timed out, paused, waiting in its sleep or running; of an action waiting in its sleep this is about the specification only, because what the program does then is not defined |
| SchedulerSpec.StopExact | api/eg/basic_scheduler.cpp:450-480 | stopping does, of an action that does not wait in its sleep, exactly when it is not timed out or paused |
| SchedulerSpec.UnpauseExact | api/eg/basic_scheduler.cpp:500-512 | unpausing does exactly when the action is paused or idle |
| SchedulerSpec.EmptyWaitLoses | api/eg/basic_scheduler.cpp:571-619 | an action that waits for events is placed exactly when it waits for at least one |
| SchedulerRuns.WaitAllTheorem | api/eg/basic_scheduler.cpp:326-360 | an action waiting or sleeping for several events stays so until the last of them, and is active with that command, whatever the order and whatever else happens |
| SchedulerRuns.RoundRobinTheorem | api/eg/basic_scheduler.cpp:547-619 | an action not active now is not resumed before all now active have been resumed or removed |
| SchedulerRuns.SleepTheorem | api/eg/basic_scheduler.cpp:541-619 | a sleeping action is not resumed before the next cycle begins |
| SchedulerRuns.TimeoutsInOrder | api/eg/basic_scheduler.cpp:295-300 | the timeout queue stays in order of time over every legal run |
| SchedulerPlaces.YieldPlaces | api/eg/basic_scheduler.cpp:571-619 | each reason for yielding has its own place: a wait the waiting list, a sleep the sleeping list, waits and sleeps for events their table with exactly those events, a timeout the queue at its time, and a terminated action is nowhere |
| SchedulerPlaces.CallPlaces | api/eg/basic_scheduler.cpp:363-448 | a call activates an action that is not registered, an allocation registers it, and no other action moves |
| SchedulerPlaces.PausePlaces | api/eg/basic_scheduler.cpp:482-512 | a pause moves one action to the pause list, and its end makes that action active |
| SchedulerPlaces.StopPlaces | api/eg/basic_scheduler.cpp:450-480 | a stopped action is nowhere, and every other action is where the event of its end puts it |
| SchedulerPlaces.TimeOutPlaces | api/eg/basic_scheduler.cpp:526-539 | a timeout moves its action to the active list |
| SchedulerPlaces.BeginCyclePlaces | api/eg/basic_scheduler.cpp:541-545 | sleepers become active when nobody is active or waiting, and else nothing changes |
| SchedulerPlaces.SignalBefore | api/eg/basic_scheduler.cpp:416-420 | those an event wakes from a wait come behind all who were active and before those it wakes from a sleep |
| SchedulerPlaces.InsertTimedExact | api/eg/basic_scheduler.cpp:295-300 | a timeout comes behind all that are not later and before all that are |
| SchedulerPlaces.ResumePlaces | api/eg/basic_scheduler.cpp:547-558 | a turn goes to an active action, or, where there is none, to a waiting one, and then all that wait become active |
| SchedulerPlaces.FirstInFirstOut | api/eg/basic_scheduler.cpp:541-619 | over every legal run, of two queued actions the first has its turn before the second, unless one is stopped or paused |
| SchedulerPlaces.YieldBefore | api/eg/basic_scheduler.cpp:571-619 | who yields to wait comes behind all who are active or wait and before all who sleep; who yields to sleep comes last |
| SchedulerPlaces.SleeperRests | api/eg/basic_scheduler.cpp:591-593 | an action that yields to sleep has no turn before the next cycle begins |
| SchedulerPlaces.WaiterRunsAgain | api/eg/basic_scheduler.cpp:578-580 | an action that yields to wait has another turn before the cycle ends |
| SchedulerPlaces.TurnExact | api/eg/basic_scheduler.cpp:547-619 | while anybody is active or waiting, a turn is a resumption, the calls of the coroutine and what its reason does; when nobody is, the turns are over |
| SchedulerPlaces.TimeOutsExact | api/eg/basic_scheduler.cpp:526-539 | exactly the timeouts at the head of the queue that are due fire, in order, and the one left at the head is not due |
| SchedulerPlaces.CycleWakes | api/eg/basic_scheduler.cpp:526-545 | a sleeper wakes at the start of a cycle exactly when nobody is active or waiting and no timeout is due |
| SchedulerCycles.CycleTheorem | api/eg/basic_scheduler.cpp:521-632 | a completed cycle is a legal run that ends with nobody waiting and no outstanding wait |
| SchedulerCycles.CleanUpShorter | api/eg/basic_scheduler.cpp:622-631 | every round of the clean-up shortens the wait table, so the loop ends |
| SchedulerCycles.CleanUpLegal | api/eg/basic_scheduler.cpp:622-631 | the action the clean-up stops may always be stopped |
| SchedulerCycles.CleanUpRuns | api/eg/basic_scheduler.cpp:622-631 | the clean-up is a run of legal stops, each of the action that waits for the least event and has waited first |
| SchedulerInPlace.Permutation | api/eg/basic_scheduler.cpp:120-231 | list and iterator accessors agree, the three roles are different lists, each swap exchanges two roles, keeps the third and undoes itself |
| SchedulerInPlace.BasicScheduler.Execute | api/eg/basic_scheduler.cpp:363-619 | over whole legal runs the stored scheduler behaves like the one with named lists, and every stored iterator denotes exactly its action's entry |
| SchedulerInPlace.BasicScheduler.Cycle | api/eg/basic_scheduler.cpp:521-632 | a whole cycle with its timeouts, turns and clean-up refines the specification |
| SchedulerInPlace.BasicScheduler.Happen | api/eg/basic_scheduler.cpp:416-420 | both tables are run through for one event |
| SchedulerInPlace.BasicScheduler.OnEvent | api/eg/basic_scheduler.cpp:326-360 | the loop over the entries of an event removes them and activates exactly those whose last wait it was, in order |
| SchedulerInPlace.BasicScheduler.FireEntry | api/eg/basic_scheduler.cpp:333-357 | one entry: its handle leaves the action's array, and an action without handles becomes active |
| SchedulerInPlace.BasicScheduler.EventRemove | api/eg/basic_scheduler.cpp:317-324 | every handle an action holds leaves the table, and no other entry does |
| SchedulerInPlace.BasicScheduler.EventsInsert | api/eg/basic_scheduler.cpp:310-315 | one entry for every event of a wait, each handle kept by the action |
| SchedulerInPlace.BasicScheduler.TimeoutInsert | api/eg/basic_scheduler.cpp:295-300 | inserted behind the timeouts that are not later |
| SchedulerInPlace.BasicScheduler.Allocated | api/eg/basic_scheduler.cpp:363-383 | registers an idle action unless it is there |
| SchedulerInPlace.BasicScheduler.Call | api/eg/basic_scheduler.cpp:422-448 | registers and activates an action unless it is there |
| SchedulerInPlace.BasicScheduler.Stop | api/eg/basic_scheduler.cpp:450-480 | signals the end of the action, removes it from everything and erases it |
| SchedulerInPlace.BasicScheduler.Pause | api/eg/basic_scheduler.cpp:482-498 | moves the action from wherever it is to the pause list |
| SchedulerInPlace.BasicScheduler.Unpause | api/eg/basic_scheduler.cpp:500-512 | moves a paused action to the end of the active list |
| SchedulerInPlace.BasicScheduler.Resume | api/eg/basic_scheduler.cpp:547-558 | takes the first active action, after exchanging active and waiting when nothing is active |
| SchedulerInPlace.BasicScheduler.Yield | api/eg/basic_scheduler.cpp:571-619 | puts the current action where its reason says |
| SchedulerInPlace.BasicScheduler.FireTimeouts | api/eg/basic_scheduler.cpp:526-539 | activates due timeouts from the head until one is not due, whatever the clock says |
| SchedulerInPlace.BasicScheduler.EndCycle | api/eg/basic_scheduler.cpp:622-631 | stops actions in the order of the events they wait for until none waits |
| EventCodec.EventTrip | src/eventlog/event.hpp:111-129 | an event written anywhere in a file reads back as itself |
| EventCodec.WordTrip | src/eventlog/event.hpp:37-43 | header words survive their byte encoding |
| EventCodec.HeaderLayout | src/eventlog/event.hpp:37-43 | the four header words, the type name and the value stand where the header says |
| EventCodec.ZeroIsNoEvent | src/eventlog/event.hpp:111-115 | a place that begins with a zero byte holds no event |
| EventLogSpec.PlaceFits | src/eventlog/iterator.cpp:74-83 | a claim smaller than a file lies strictly inside one file, where the last ended or the next file starts |
| EventLogSpec.WriteFitsExactly | src/eventlog/file.cpp:131-134 | the write after a claim finds room exactly when the event is smaller than a file |
| EventLogSpec.OutOfRangeExact | src/eventlog/iterator.hpp:46-52 | there is room for a claim exactly while its end lies in a file that a 32-bit number can name |
| EventLogSpec.ClaimSafety | src/eventlog/iterator.cpp:68-91 | granted ranges are disjoint and increasing, each in one file, gaps only to the next file start |
| EventLogSpec.WriteContains | src/eventlog/server.cpp:38-45 | a write adds its event to the files and leaves all others and all zeros |
| EventLogCopies.WriteIsCopies | src/eventlog/event.hpp:124-129 | header, type name and value, copied one after the other, are the event written at once |
| EventLogCopies.CopyShows | src/eventlog/event.hpp:124-129 | copying any bytes of one event adds exactly those to what the files show, whatever else is being copied |
| EventLogCopies.VisibleExact | src/eventlog/event.hpp:111-115 | a reader sees an event exactly when the four bytes of its delimiter that are not zero have been copied |
| EventLogCopies.SeenExact | src/eventlog/event.hpp:117-122 | what a reader reads of an event that is being copied is exactly what the bytes copied so far look like |
| EventLogCopies.CompleteExact | src/eventlog/event.hpp:117-122 | it reads the event as written exactly when all bytes that are not zero have been copied |
| EventLogCopies.DecodeExact | src/eventlog/event.hpp:111-129 | an event is read at a place exactly when the bytes there are its encoding |
| EventLogRuns.ReadTheorem | src/eventlog/log.cpp:82-105 | a read that does not wrap finds a written event, the next one if that is written, never an earlier one, and finds nothing only if the next is unwritten |
| EventLogRuns.ReadBackTheorem | src/eventlog/log.cpp:82-105 | when all claims are written, reads give exactly the events in claim order across files, and further reads nothing more exactly when the log ends before its last file |
| EventLogRuns.EndExact | src/eventlog/log.cpp:82-105 | behind a fully written log a read finds nothing exactly when the log ends before its last file, and otherwise the first event |
| EventLogRuns.RunReadsBack | src/eventlog/log.cpp:82-105 | the same at any moment of an interleaved run at which nobody is writing |
| EventLogRuns.AlwaysConsistent | src/eventlog/iterator.cpp:59-91 | under every interleaving of loads, exchanges and copies of any bytes the layout is safe, the files hold exactly the bytes copied so far, no two writers share a grant, and only events being written miss bytes |
| EventLogRuns.HeadTheorem | src/eventlog/iterator.cpp:59-66 | the head is always a value the claim counter has had, and never ahead of it |
| EventLogRuns.HeadExact | src/eventlog/iterator.cpp:59-66 | an update that nothing interrupts brings the head up to the claims; the head falls back exactly when an update exchanges it for a value seen before it had passed that |
| EventLogRuns.HeadFallsBack | src/eventlog/iterator.cpp:59-66 | a run in which two updates overlap and the head falls back to the start |
| EventLogRuns.WriteNeverRefused | src/eventlog/file.cpp:148-152 | a writer that has won a claim can always copy any part of its event |
| EventLogRuns.ReaderTheorem | src/eventlog/log.cpp:82-105 | a reader whose looks interleave with the copies of writers gets, at every moment of a run, events as they were written, each at most once, in claim order, exactly when it neither wraps nor takes an event that is copied only in part |
| EventLogRuns.StepExact | src/eventlog/log.cpp:82-105 | one step keeps a reader in order exactly when it does neither |
| EventLogRuns.UninterruptedRead | src/eventlog/log.cpp:82-105 | the steps of a reader, one after the other, are one read of the log |
| EventLogRuns.PublishedNeverTears | src/eventlog/event.hpp:124-129 | where events can be seen only once they are complete, none is taken in part |
| EventLogRuns.RoomyNeverWraps | src/eventlog/log.cpp:93-103 | no read wraps in a run that does not reach the last file and takes no event in part |
| EventLogRuns.PrefixTheorem | src/eventlog/log.cpp:82-105 | if events become visible in claim order, the reader has at every moment exactly the first claimed events, exactly when it never wraps, takes an event in part, or misses one that appears between its two looks |
| EventLogRuns.PrefixStepExact | src/eventlog/log.cpp:82-105 | the same for one step |
| EventLogRuns.PairedNeverMisses | src/eventlog/log.cpp:93-103 | a reader whose two looks are not interrupted misses none |
| EventLogRuns.LostEvent | src/eventlog/log.cpp:93-103 | a run in which two events are copied whole and in order, between the looks, and the reader loses the first |
| EventLogRuns.HeaderOnlyRun | src/eventlog/event.hpp:124-129 | a run in which a reader takes an event of zeros, between the copies of the header and of the rest |
| EventLogRuns.DelimOnlyRun | src/eventlog/event.hpp:111-122 | a run in which it takes an event of nothing and is left where no claim ends |
| EventLogRuns.FileSizedEventBlocksReaders | src/eventlog/server.cpp:38-45 | an event as large as a file is claimed, refused, and never passed by readers before it |
| EventLogRuns.LastFileWraps | src/eventlog/log.cpp:93-103 | from the last file a reader finds the first event again |
| EventLogInPlace.Generator.Claim | src/eventlog/iterator.cpp:68-91 | the retry loop claims as if it came after all interfering claims, losing none |
| EventLogInPlace.Generator.UpdateHead | src/eventlog/iterator.cpp:59-66 | the head becomes the loaded claim and reports whether it changed |
| EventLogInPlace.File.Write | src/eventlog/file.cpp:148-152 | writes exactly the encoded event where it fits, and nothing where it does not |
| EventLogInPlace.File.Clear | src/eventlog/file.cpp:154-157 | the whole buffer is zero |
| EventLogInPlace.Log.GetFile | src/eventlog/log.cpp:59-80 | opens or creates the file, changes no other bytes, and releases the files more than two before it |
| EventLogInPlace.Log.Read | src/eventlog/log.cpp:82-105 | reads as specified, changing no byte of the log |
| EventLogInPlace.Log.Clear | src/eventlog/log.cpp:107-130 | every file of the directory is zero, open or not |
| EventLogInPlace.ServerWrite | src/eventlog/server.cpp:38-45 | claims, finds the file and writes; each way to fail leaves the bytes as they were |
| Allocators.FirstFreeFirstIssued | api/eg/allocator.hpp:163-199 | over every legal run, what was free followed by what is freed is what is issued followed by what is left |
| Allocators.RingAllocator.NextFree | api/eg/allocator.hpp:163-176 | the front of the queue, or the size when full |
| Allocators.RingAllocator.Allocate | api/eg/allocator.hpp:178-186 | takes the front of the queue of free instances |
| Allocators.RingAllocator.Free | api/eg/allocator.hpp:188-199 | appends to the queue, which stays without duplicates |
| Allocators.RingAllocator.Empty | api/eg/allocator.hpp:201-204 | exactly when every instance is free |
| Allocators.RingAllocator.Full | api/eg/allocator.hpp:205-208 | exactly when none is free |
| Allocators.BitmaskAllocator.NextFree32 | api/eg/allocator.hpp:50-61 | the least free instance, or the size |
| Allocators.BitmaskAllocator.NextFree64 | api/eg/allocator.hpp:99-119 | the same from two scans of 32 bits |
| LinkSets.SetsDisjoint | src/eg/link.cpp:30-101 | for every input the sets stay pairwise disjoint |
| LinkSets.LinkSetsTheorem | src/eg/link.cpp:30-101 | the sets are, at every moment, the connected components of the base relation exactly when every context comes with its bases placed in different sets, or before it and all its bases |
| LinkSets.AddActionExact | src/eg/link.cpp:61-101 | adding one context keeps the sets the components exactly when its bases are placed in different sets, none its own, or neither it nor any base is placed |
| LinkSets.ComponentsExact | src/eg/link.cpp:61-65 | two placed contexts are in one set exactly when they are connected |
| LinkSets.SharedBasesAreLost | src/eg/link.cpp:76-81 | two bases in one set make the set vanish with all its contexts |
| LinkSets.LinkAnalysis.Add | src/eg/link.cpp:66-101 | the loop over the bases merges the sets as specified |
| LinkSets.LinkAnalysis.Calculate | src/eg/link.cpp:30-45 | all contexts one after the other |
| Compatibility.StaticTheorem | src/eg/derivation.cpp:30-52 | static compatibility is symmetric, and reflexive exactly on instantiated contexts |
| Compatibility.DynamicTheorem | src/eg/derivation.cpp:30-52 | dynamic compatibility, over ancestors and descendants, is the set of deriving instances |
| Compatibility.LinkTheorem | src/eg/derivation.cpp:54-112 | a symmetric and closed table has symmetric link compatibility after the analysis |
| Compatibility.CompatibilityTheorem | src/eg/derivation.cpp:30-112 | after both analyses link compatibility is symmetric, and reflexive on instantiated contexts, whatever the inheritance trees and the links |
| Compatibility.LinkTypesExact | src/eg/derivation.cpp:30-112 | what both analyses leave, said of the trees and links alone: contexts are link-compatible when they have nodes in one line or one is a link to such a context, and the actions a link reaches, and those a context is reached from, are those of its target and of the links to its line |
| Compatibility.GetStaticDerived | api/eg_compiler/concrete.hpp:61-68 | inserts exactly the contexts of a node and its descendants |
| Compatibility.GetDynamicDerived | api/eg_compiler/concrete.hpp:69-76 | inserts exactly the actions of a node and its descendants |
| Compatibility.ContextCompatibility | src/eg/derivation.cpp:36-49 | the loops over nodes, ancestors and descendants give exactly the related contexts and exactly the deriving actions |
| Compatibility.AnalyseCompatibility | src/eg/derivation.cpp:30-52 | one such entry for every context |
| Compatibility.LinkAnalysis.Analyse | src/eg/derivation.cpp:54-112 | the loops add exactly the link-compatible contexts and exactly the actions a link reaches or is reached by, and change nothing else |
| Iterators.ItemsExact | api/eg/iterators.hpp:113-122 | a sub-range gives its first instance and exactly the active later ones, each once, in order |
| Iterators.MultiIterator.Next | api/eg/iterators.hpp:169-179 | one item is done, empty sub-ranges are skipped |
| Iterators.MultiIterator.Traverse | api/eg/iterators.hpp:156-179 | stepping to the end visits the concatenation of the sub-ranges, and ends |

## Left out

- "Any" waits: `on_event` may then erase the entry its upper bound denotes, which is not defined behaviour.
- Legal calls of the scheduler: no stop or pause of an action that is timed out, paused or in the sleep table, no self-pause, unpause of paused or idle actions only, and waits for at least one event, because the indexes do not survive the rest (`SchedulerSpec.PauseExact` and the lemmas after it).
- The stopper functions and what they call back, and the coroutine objects: a resumed coroutine is an arbitrary list of legal calls and a reason.
- Time: the clock is an arbitrary function of how often it is read. That the main loop of a cycle ends depends on the coroutines and is not claimed.
- SchedulerInPlace.BasicScheduler.Cycle: takes the turns of the coroutines as a finite list, and stops early when the list is used up.
- The multimaps of the scheduler are sequences in order of insertion (events) or of time (timeouts); the five iterators of an action are a record, and an iterator never stored yet is end.
- EventLogRuns.ReaderTheorem: an event counts with the bytes that are there when its header is read. The program hands out pointers into the mapped file, so its type and value may be looked at later, when more of them is there.
- EventLogRuns.AlwaysConsistent: events exactly as large as a file, whose write is refused after the claim (`EventLogRuns.FileSizedEventBlocksReaders`).
- EventLogInPlace.ServerWrite: other writers act only through the claim counter while it runs; their writes are in `EventLogRuns`.
- File names, memory mapping and shared-memory segments; a file not opened yet reads as zeros, and so do bytes past the end of a file.
- Builder.BuildScoped: the recursion of the visitors is modelled on values; that they append to nodes in place is not modelled.
- NameResolution.Resolution.ExpandReferences: where the loop of the program goes on for ever, the method stops and says so.
- Correctness.CompilerTheorem: final dereferences that can reach another instance than the one referred to (`Correctness.FinalExact`), and starting a context itself, without a path of types; scoping and evaluation to the end hold for them (`Compilation.CompiledTheorem`).
- Operations are not carried out: evaluation ends at the one it arrives at. A write to a link throws there (`WriteLinkOperation::evaluate`).
- `getElementVector`, `chooseMostDerived`, the choice of candidate operations from return types, and the analysis of return types.
- NameResolution.Resolution.Resolve: the result set of members is kept in path order, not in the order of addresses.
- 32-bit overflow of domain sizes: sizes are unbounded, and `Derivation.RangeTheorem` bounds every product by the total domain of the target.
- EliminationSpec.EliminationTheorem: trees with an elimination node straight under another one, which the pass itself refuses.
- The contents of variables that are not stored (`unsaved` in the model) are not compared after loading.
- That a loaded tree evaluates like the stored one: `SerialiserSpec.RoundTripTheorem` gives an isomorphic graph, and evaluation is defined on trees.
- `calculateGroups`, sessions, code generators, the parser, the clang plugin and the unit-test tools.
