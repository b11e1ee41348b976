# YACS engine: a model of its algorithms and state machines

YACS runs workflows: nodes are tied by control links inside a *bloc*, some nodes are *ForEach* loops that
compute many samples on a few branches, and all of it shares the cores of a *playground*. This project models
five parts of `src/engine` in Dafny and proves what they are for.

1. **The control graph of a bloc** (`Graph`, `Gates`, `Redundancy`, `Blocs`). Links are added and removed in
   mirrored out gates and in gates, a link that would close a cycle is refused and undone, an incremental transitive
   closure finds the redundant links, and a coloured breadth-first visit splits the bloc into independent groups.
   The reference is reachability, `Reach`, defined by walks.
2. **The execution of a bloc** (`Execution`, `Runs`, `BlocRuns`, `Turns`). A state machine whose steps are the atomic
   sections of the executor: load, connect, launch, end, sleep, wake up. `BlocRuns` holds the objects updated in
   place; each of its methods is proved equal to a step of `Execution`. `Runs` is about every sequence of steps.
   `Turns` follows the main loop turn by turn, and is proved to make only such sequences.
3. **ForEach loops** (`Ranks`, `PassedData`, `Distribution`, `ForEachLoops`, `Relaunches`). `Distribution` is the
   scheduler: which branch holds which rank. `ForEachLoops` is the loop with its output sequences, tied to the scheduler
   field by field. `PassedData` saves the computed results and puts them back into a later run, and `Relaunches` follows
   a loop through such runs.
4. **Cores** (`Resources`, `Numbering`, `PlayGrounds`, `Placing`, `TakePlaces`, `CriticalPaths`, `Greedy`,
   `Allocations`, `Sharing`, `Splitting`, `Fitting`, `Partitions`). Chunks of cores are taken and given back, shots of
   cores are placed inside machines, cores are dealt to the longest branch first, and overlapping parts are made
   disjoint.
5. **Points and the base64 codec** (`Points`, `Regions`, `PointRegions`, `Contraction`, `Trees`, `Contractible`,
   `Narrow`, `BagPoints`, `TwoForks`, `Parallelism`, `Base64`). A control graph is contracted to a tree of links and
   forks; the tree is proved to tell exactly which node waits for which, so that the level computed on it is the width
   of the graph, and the contraction to succeed on exactly the graphs that have a tree of a class defined without it.
   The codec is a round trip over every byte string.

## What is not as one would expect

Six expectations turn out to be false of the code. Each comes with an input that shows it and with the exact condition
under which the code meets it.

- `PlayGround::release` never moves its offset (`src/engine/PlayGround.cxx:212-222`), so it frees the worker it is
  given if and only if no machine before the owner hosts a worker of that size: `PlayGrounds.ReleaseFreesItsWorkerIff`.
  `PlayGrounds.ReleaseMissesItsWorker` gives a playground of one and two cores where it frees another worker, or none.
- `FromBase64` does not notice an invalid character if and only if it is the last one of a text of length
  4k + 1, which is never read: `Base64.InvalidUnnoticedIff`, which has the text `!` as an example.
- `getPassedResults` takes the ranks from the first output only, and another output is given back if and only if it is
  set on the same ranks: `PassedData.OtherOutputRebuiltIff`; in `PassedData.OtherOutputMoves` it comes back at a wrong
  rank. Passed ids that do not increase are put back in another order: `PassedData.IdsKeptIffIncreasing`, and
  `PassedData.UnorderedIdsSwap` for the ids 1, 0.
- A loop started again from its own results gives them back if and only if there was no sample, or its outputs were all
  set at the same ranks and some rank was not set: `Relaunches.RelaunchKeepsIff`. At any moment of a run with branches,
  itself started from earlier results or not, this means: unless it is done (`Relaunches.RunIsGivenBackUnlessDone`; a
  loop without outputs has nothing to lose). A run that is not done can be saved and started again as often as one
  likes: `Relaunches.RelaunchRun`, `Relaunches.RelaunchOften`. `Relaunches.DoneLoopDropsItsResult` runs a loop on one
  sample to its end, starts it again, and finds an empty output; saved once more (`Relaunches.DroppedResultIsLost`),
  there is nothing.
- A loop without samples or branches runs a stand-in node, which no later initialisation removes: from then on, no
  branch is asked for its tasks. At any moment of an activated run the branches are asked if and only if no run of the
  loop, since it was made, was without samples or branches: `Relaunches.BranchesAsked`. After a run on no sample, the
  branch of a run on one sample waits for ever: `Relaunches.StaleNodeHidesBranches`; that of a first run does not:
  `Relaunches.FirstRunAsksBranches`.
- `PartDefinition::BuildFrom` accepts some lists with repeated or out-of-range cores, and then keeps other cores than
  those listed. It keeps the listed ones exactly when they increase strictly and are in range: `Partitions.BuildFrom`,
  which also tells which lists are accepted. `Partitions.RepeatedCoreIsAccepted` gets three cores from `[0, 2, 2]`.

The contraction of a bag of points is not promised to end with one point, and the code throws where it does not. It ends
with one point if and only if the nodes have a tree of chains, each point leading to the next one only, and of forks
whose branches have one link at most at each end, to the same nodes: `Parallelism.Simplify`, from
`Contractible.NeverStuck` and `Trees.ForkIsBuilt`. Where it stops it does so for one reason only, that no chain and no
fork is left (`Narrow.StuckIsPlain`), and never on the test of several links at one end of a branch. Some graphs have
the order of a wider kind of tree and are not contracted: two nodes that both lead to two others have the order of two
forks in a chain (`TwoForks.TwoByTwoHasTree`), but no tree of the narrower kind (`TwoForks.TwoByTwoIsNotBuilt`), and no
step applies to them (`TwoForks.TwoByTwoIsStuck`).

Cores can be split between branches whenever the first shares of the branches fit (`Fitting.SplitSucceeds`), and only if
there are as many cores as branches (`Fitting.SplitNeedsCores`). Neither condition is the other way round: one core is
split although the share of two cores does not fit (`Fitting.SharesNeedNotFit`), and two cores cannot be split between
two branches, of which the first takes both (`Fitting.CoresNeedNotDo`).

## Model

| member | source | states |
|---|---|---|
| Graph.ReachAfterNewLink | src/engine/Bloc.cxx:528-571 | a new link u to v joins exactly what reaches u with what v reaches |
| Graph.AcyclicAfterNewLink | src/engine/ComposedNode.cxx:401-413 | a link keeps the graph acyclic iff its end did not reach its start, iff its end does not reach itself afterwards: looking for a cycle through the end alone is enough |
| Gates.AddKeepsGates | src/engine/OutGate.cxx:98-110 | appending to both gates keeps them duplicate-free mirror images and adds exactly one link |
| Gates.RemoveKeepsGates | src/engine/OutGate.cxx:120-133 | erasing from both gates keeps them mirror images and removes exactly one link |
| Redundancy.LongReachAfterNewLink | src/engine/Bloc.cxx:522-564 | which pairs gain a path of two links or more when a link is processed: the incremental rule behind useless links |
| Redundancy.RemovingUselessKeepsReach | src/engine/Bloc.cxx:483-493 | removing every link that has another path leaves reachability of an acyclic graph unchanged |
| Redundancy.KeptLinksAreNeeded | src/engine/Bloc.cxx:483-493 | after that, removing any kept link would lose its own pair: nothing redundant is left |
| Blocs.Bloc.constructor | src/engine/Bloc.cxx:77-79 | a bloc without links: gates well formed, acyclic |
| Blocs.Bloc.AddInGate | src/engine/OutGate.cxx:98-110 | adds the link unless it is there, in both gates, and tells which |
| Blocs.Bloc.AppendPrecursor | src/engine/InGate.cxx:99-106 | a new precursor goes last with its flag down; a known one has its flag lowered where it is |
| Blocs.Bloc.RemoveLink | src/engine/ComposedNode.cxx:523-529 | removes exactly that link from both gates, or fails without effect when it is not there; the graph stays acyclic |
| Blocs.Bloc.InsertNodeChildren | src/engine/Bloc.cxx:321-331 | the recursive visit adds only nodes reached by at least one link, all successors, and the set is closed under links; it terminates on cyclic graphs |
| Blocs.Bloc.HasCycleThrough | src/engine/Bloc.cxx:338-348 | detects a cycle through the node iff there is one |
| Blocs.Bloc.AddLink | src/engine/ComposedNode.cxx:387-415 | which of the four outcomes occurs, told by the graph before the call; the graph stays acyclic with mirrored gates; a refused link leaves both gates exactly as they were |
| Blocs.RollBackRestores | src/engine/ComposedNode.cxx:407-413 | undoing an insertion gives back the same lists, flags and order included |
| Blocs.Bloc.AddForward | src/engine/Bloc.cxx:528-564 | inserts a set of targets below a node and reports exactly the direct links that were already covered |
| Blocs.Bloc.InsertBackward | src/engine/Bloc.cxx:565-571 | inserts a set of sources above a node and nothing else |
| Blocs.Bloc.ProcessLink | src/engine/Bloc.cxx:519-572 | one link adds the product of what is above its start and what is below its end to both closures, and reports exactly the known links inside that product that were already covered |
| Blocs.ProcessedLink | src/engine/Bloc.cxx:519-572 | if the closures were exact and the reports were the useless links, they still are after one more link, in whatever order links come |
| Blocs.Bloc.ProcessOutGate | src/engine/Bloc.cxx:514-573 | after the links of one more node, `_fwLinks` is the transitive closure of the processed links, `_bwLinks` its converse, and the reports are their useless links |
| Blocs.Bloc.PerformCFComputations | src/engine/Bloc.cxx:504-574 | both closures are exact and the reported links are exactly those with another path of two links or more |
| Blocs.Bloc.AreLinked | src/engine/Bloc.cxx:650-654 | answers reachability, forward or backward |
| Blocs.Bloc.ArePossiblyRunnableAtSameTime | src/engine/Bloc.cxx:664-669 | true iff neither node reaches the other |
| Blocs.Bloc.RemoveLinks | src/engine/Bloc.cxx:490-491 | removes exactly the reported links and keeps the gates mirrored |
| Blocs.Bloc.RemoveRedundantLinks | src/engine/Bloc.cxx:483-493 | removes the useless links, keeps reachability, and leaves no redundant link |
| Blocs.Bloc.QueueWhites | src/engine/Bloc.cxx:252-260 | greys and queues each white node of a list once |
| Blocs.Bloc.VisitNext | src/engine/Bloc.cxx:245-273 | queues exactly the white neighbours of the head, in both directions, each once |
| Blocs.Bloc.VisitComponent | src/engine/Bloc.cxx:241-273 | the list is exactly the nodes joined to the start by links in either direction, each once, and the visit terminates |
| Blocs.Bloc.SplitIntoIndependentGraphs | src/engine/Bloc.cxx:231-277 | the lists partition the children; two nodes share a list iff links join them in either direction |
| Execution.StartedInvariant | src/engine/Bloc.cxx:153-164 | the invariant of runs holds at the start |
| Execution.StepKeepsInvariant | src/engine/Executor.cxx:1240-1257 | every step keeps it: live nodes have all precursors done, raised flags are truthful and complete, a node is failed iff below an error, a ready node waits for something, running tasks are the activated nodes, the state of the bloc is the verdict on its children |
| Execution.ForwardKeepsInvariant | src/engine/InGate.cxx:68-77 | raising the flags of a finished node and updating its followers keeps the invariant and starts nothing twice |
| Execution.FailKeepsNodes | src/engine/Node.cxx:219-224 | failing everything below an error keeps it, and nothing below the error had started |
| Execution.GateOfLoading | src/engine/ElementaryNode.cxx:784-793 | a task being loaded has all its precursor flags raised, so connecting it makes it ready to run |
| Runs.ReachableInvariant | src/engine/Executor.cxx:288-348 | the invariant holds after any sequence of steps, whatever the order of the ends |
| Runs.ReachableOrder | src/engine/Bloc.cxx:370-421 | in every reachable state: all ancestors of a live node are done, a raised flag means that precursor is done, a node is failed iff some ancestor is in error |
| Runs.NoDeadlock | src/engine/Executor.cxx:325-337 | an unfinished bloc has a running or collectable child: the situation the executor reports as a problem does not occur; a waiting main loop has a running task to wait for |
| Runs.QuietMeansFinished | src/engine/Bloc.cxx:408-421 | nothing runs and nothing is collectable iff the bloc is finished; it is then done if all children are, else failed |
| Runs.WorkIsSpent | src/engine/Executor.cxx:288-348 | each load failure, connection, launch or end spends one unit of a work that starts at three per node |
| Runs.RunsEnd | src/engine/Executor.cxx:288-348 | no run has more than three such events per node, the pauses of the main loop not counted (`Turns.EveryRunEnds` counts them) |
| Runs.StatesTellThePast | src/engine/ElementaryNode.cxx:759-766 | a node is done iff its task ended well, in error iff it failed to load or ended badly, and a launched one never goes back |
| Runs.ConnectedBefore | src/engine/Executor.cxx:288-348 | a task that is ready to be launched, runs or is done was connected before |
| Runs.LaunchOrder | src/engine/Bloc.cxx:370-401 | when a task is launched all tasks above it have ended well before, it was connected before, and not launched before |
| Runs.VerdictTellsFailures | src/engine/Bloc.cxx:373-383 | a finished bloc is failed iff some task failed, done iff every task ended well |
| BlocRuns.BlocRun.constructor | src/engine/Bloc.cxx:95-100 | initialising and starting gives the first state of the state machine |
| BlocRuns.BlocRun.UpdateReadyNodes | src/engine/Bloc.cxx:153-164 | exactly the children without precursor become to load |
| BlocRuns.BlocRun.UpdateNode | src/engine/ElementaryNode.cxx:136-156 | a node moves on only when its gate is ready |
| BlocRuns.BlocRun.NotifyFromPrecursor | src/engine/InGate.cxx:68-77 | raises that one flag and updates the node iff all its flags are up |
| BlocRuns.BlocRun.NotifyDone | src/engine/OutGate.cxx:55-60 | the loop over the out gate is the simultaneous update of all followers, in whatever order they are listed |
| BlocRuns.BlocRun.FailNode | src/engine/Node.cxx:219-224 | the recursion fails the node and exactly what it reaches, and terminates |
| BlocRuns.BlocRun.ForwardFailed | src/engine/OutGate.cxx:66-70 | exactly the nodes below become failed |
| BlocRuns.BlocRun.AreAllSubNodesFinished | src/engine/Bloc.cxx:299-311 | true iff every child is done, failed or in error |
| BlocRuns.BlocRun.AreAllSubNodesDone | src/engine/Bloc.cxx:288-297 | true iff every child is done |
| BlocRuns.BlocRun.Conclude | src/engine/Bloc.cxx:376-382 | done and finish iff all children are done, else failed and abort |
| BlocRuns.BlocRun.UpdateOnFinished | src/engine/Bloc.cxx:370-401 | the effect of a child that ended well on gates, nodes and bloc, and the event sent up |
| BlocRuns.BlocRun.UpdateOnFailed | src/engine/Bloc.cxx:408-421 | the effect of a failed child on everything below it and on the bloc, and the event sent up |
| BlocRuns.BlocRun.WakeUpMain | src/engine/Executor.cxx:1099-1109 | a sleeping main loop is woken up, else the end is counted: no end is missed |
| BlocRuns.BlocRun.TaskEnded | src/engine/Executor.cxx:1240-1295 | the critical section is one End step of the state machine and keeps the invariant |
| BlocRuns.BlocRun.TaskNotLoaded | src/engine/Executor.cxx:853-890 | a loading error is one LoadFail step |
| BlocRuns.BlocRun.TaskStarted | src/engine/Executor.cxx:853-890 | the start event changes nothing, since the bloc is activated already |
| BlocRuns.BlocRun.TaskConnected | src/engine/ElementaryNode.cxx:784-793 | a connected task is ready to run, never left merely loaded |
| BlocRuns.BlocRun.LaunchTask | src/engine/Executor.cxx:1022-1078 | one Launch step: counted as running and activated together |
| BlocRuns.BlocRun.SleepWhileNoEvents | src/engine/Executor.cxx:1082-1094 | the main loop sleeps only while a launched task has not ended |
| BlocRuns.BlocRun.Resume | src/engine/Executor.cxx:1082-1094 | one WakeUp step: the counted ends are cleared |
| BlocRuns.BlocRun.GetNextTasks | src/engine/ComposedNode.cxx:217-224 | each collectable child once, and an unfinished bloc has one of those or a running task |
| BlocRuns.BlocRun.GetReadyTasks | src/engine/Bloc.cxx:133-144 | each child to load or to activate, once, and no other |
| Turns.StepKeeps | src/engine/Executor.cxx:288-348 | every step of a turn keeps: what became collectable since the last look is announced by an ended task, and each turn but the first is paid for by an ended task of its own |
| Turns.TurnsAreRuns | src/engine/Executor.cxx:288-348 | the turns of the main loop, with tasks ending at any point, make runs of the state machine, so every result about runs holds |
| Turns.NoLostWakeUp | src/engine/Executor.cxx:1082-1109 | while the main loop waits there is nothing to collect, and some task runs that will wake it up |
| Turns.NoProblemToReport | src/engine/Executor.cxx:319-337 | a turn without task to launch or running is the last one: the problem is never reported |
| Turns.TurnsAreBounded | src/engine/Executor.cxx:288-348 | at most one turn more than there are ended tasks, and no more of these than nodes |
| Turns.EveryRunEnds | src/engine/Executor.cxx:288-348 | no run has more than 7n + 6 steps, pauses and looks included |
| Turns.EndsFinished | src/engine/Executor.cxx:319-348 | a run can go no further iff the main loop has stopped, and then every node is finished and the bloc has its verdict |
| Ranks.PositionsAreRanks | src/engine/ForEachLoop.cxx:404-439 | the ranks that toAbsId and toAbsIdNot go through increase, and are exactly those of their flag |
| Ranks.PositionsComplement | src/engine/ForEachLoop.cxx:404-439 | the two sets of ranks are complementary |
| PassedData.SequenceAny.constructor | src/engine/Any.cxx:807-811 | a new sequence has every cell unset |
| PassedData.SequenceAny.SetEltAtRank | src/engine/Any.cxx:696-701 | one cell changes |
| PassedData.SequenceAny.GetSetItems | src/engine/Any.cxx:643-655 | the ranks of the cells that are not the unset byte pattern, increasing |
| PassedData.SequenceAny.RemoveUnsetItems | src/engine/Any.cxx:757-768 | a new sequence of the set cells, in order |
| PassedData.ForEachLoopPassedData.New | src/engine/ForEachLoop.cxx:306-324 | succeeds iff there is one name per output and each output has one value per id |
| PassedData.ForEachLoopPassedData.Init | src/engine/ForEachLoop.cxx:344-347 | the flags of the last run are forgotten |
| PassedData.ForEachLoopPassedData.CheckCompatibilityWithNb | src/engine/ForEachLoop.cxx:349-381 | succeeds iff the passed ids are distinct and in range, and then the flags mark exactly those |
| PassedData.FlaggedCount | src/engine/ForEachLoop.cxx:349-381 | compatible flags mark as many ranks as there are passed ids, so local ids and ranks match one to one |
| PassedData.ForEachLoopPassedData.ToAbsId | src/engine/ForEachLoop.cxx:404-419 | the rank of the n-th sample still to do, an error iff there are not so many |
| PassedData.ForEachLoopPassedData.ToAbsIdNot | src/engine/ForEachLoop.cxx:424-439 | the rank of the n-th passed sample, an error iff there are not so many |
| PassedData.ForEachLoopPassedData.GetNumberOfElementsToDo | src/engine/ForEachLoop.cxx:441-446 | the number of ranks that toAbsId can give |
| PassedData.ForEachLoopPassedData.CheckLevel2 | src/engine/ForEachLoop.cxx:383-399 | succeeds iff the names of the outputs are those of the ports, in order |
| PassedData.ForEachLoopPassedData.AssignOne | src/engine/ForEachLoop.cxx:448-467 | the passed values land in order on the passed ranks of one output |
| PassedData.ForEachLoopPassedData.AssignAlreadyDone | src/engine/ForEachLoop.cxx:448-467 | every output receives its own passed values, or the sizes differ and it fails |
| PassedData.InjectedAt | src/engine/ForEachLoop.cxx:448-467 | the i-th passed value is found at the i-th passed rank |
| PassedData.NotInjected | src/engine/ForEachLoop.cxx:448-467 | other ranks keep what they had |
| PassedData.CompactIsSet | src/engine/Any.cxx:757-768 | no unset cell is saved |
| PassedData.IsSetIff | src/engine/Any.cxx:643-655 | an element is set iff one of its bytes is not 239 |
| PassedData.SaveZero | src/engine/Any.cxx:39 | an element of zero bytes is saved, and given back at its rank |
| PassedData.ExtractThenInject | src/engine/ForEachLoop.cxx:1186-1203 | saving a partly filled output and injecting it into fresh cells gives it back exactly, unset ranks included |
| PassedData.RestoredIff | src/engine/ForEachLoop.cxx:311-317 | saved values can be given back at some ranks iff they are as many |
| PassedData.OtherOutputRebuiltIff | src/engine/ForEachLoop.cxx:1186-1203 | another output, saved with the ranks of the first, is accepted and given back iff both are set on the same ranks, whatever they hold |
| PassedData.OtherOutputMoves | src/engine/ForEachLoop.cxx:1186-1203 | two outputs set at ranks 0 and 1: the value of the second comes back at rank 0 |
| PassedData.IdsKeptIffIncreasing | src/engine/ForEachLoop.cxx:424-467 | values go back to the ids they came with iff the ids increase |
| PassedData.UnorderedIdsSwap | src/engine/ForEachLoop.cxx:424-467 | the values of the ids 1, 0 land at the ranks 0, 1 |
| Distribution.BeginInvariant | src/engine/ForEachLoop.cxx:590-600 | after the first deal each rank below the current one is held by exactly one branch |
| Distribution.StepKeepsInvariant | src/engine/ForEachLoop.cxx:775-879 | every end of a branch keeps the dealt ranks shared out between stored, lost and in work, each with one owner |
| Distribution.EachRankOnce | src/engine/ForEachLoop.cxx:775-879 | in every run a rank is below the current one iff it is stored, lost or held; never two of these; never by two branches; none is lost without a failure |
| Distribution.DoneStoresAll | src/engine/ForEachLoop.cxx:795-834 | a done loop has stored every rank, lost none, and took exactly one event per rank |
| Distribution.AllStoredIsDone | src/engine/ForEachLoop.cxx:795-834 | and conversely: once every rank is stored the loop is done |
| Distribution.EndIsTold | src/engine/ForEachLoop.cxx:795-834 | after an event all branches are idle only if the last rank had been dealt before and the loop has ended; a done loop has no branch in work |
| Distribution.NoDeadlock | src/engine/ForEachLoop.cxx:860-873 | an active loop has a branch in work |
| Distribution.RunsEnd | src/engine/ForEachLoop.cxx:775-879 | no run has more events than elements |
| Distribution.AbortDealsNothing | src/engine/ForEachLoop.cxx:898-910 | from a failure without keep-going on, no rank is dealt and the loop stays failed |
| Distribution.AbortedIsFailed | src/engine/DynParaLoop.cxx:714-735 | a run with such a failure is never done |
| Distribution.KeepGoingDealsAll | src/engine/ForEachLoop.cxx:795-877 | with keep-going, a loop that ends has dealt every rank, and is failed iff some branch failed |
| ForEachLoops.ForEachLoop.constructor | src/engine/ForEachLoop.cxx:469-474 | a new loop is ready to start, without passed data or stand-in node |
| ForEachLoops.ForEachLoop.Init | src/engine/ForEachLoop.cxx:503-513 | the loop is ready to start again, the results of its last run dropped, its stand-in node kept |
| ForEachLoops.ForEachLoop.AssignPassedResults | src/engine/ForEachLoop.cxx:1209-1214 | the loop has these results for its next run, an error iff their sizes differ |
| ForEachLoops.ForEachLoop.PrepareSequenceValues | src/engine/ForEachLoop.cxx:1046-1052 | one new sequence per port, all unset |
| ForEachLoops.ForEachLoop.CountElements | src/engine/ForEachLoop.cxx:526-533 | the number of samples to do, an error iff the passed ids do not fit |
| ForEachLoops.ForEachLoop.DealFirst | src/engine/ForEachLoop.cxx:590-600 | branch i starts on the i-th sample still to do |
| ForEachLoops.ForEachLoop.InjectPassed | src/engine/ForEachLoop.cxx:601-605 | the outputs start with the passed results at their ranks and nothing elsewhere, an error iff the names differ |
| ForEachLoops.ForEachLoop.ExUpdateState | src/engine/ForEachLoop.cxx:515-642 | which of the cases applies: nothing to do, no branch, or min(branches, samples) branches dealing; and when it fails |
| ForEachLoops.ForEachLoop.AskedForTasks | src/engine/ForEachLoop.cxx:650-670 | all branches are asked for tasks iff the loop runs and has no stand-in node; else only that node, if it was not launched |
| ForEachLoops.ForEachLoop.SpecialNodeEnds | src/engine/ForEachLoop.cxx:288-304 | the stand-in node ends the loop well, with its outputs pushed, or in error |
| ForEachLoops.ForEachLoop.GetFinishedId | src/engine/ForEachLoop.cxx:1038-1044 | the number of samples to do |
| ForEachLoops.ForEachLoop.AbsoluteRank | src/engine/ForEachLoop.cxx:781-783 | the absolute rank of a local one |
| ForEachLoops.ForEachLoop.StoreOutVals | src/engine/ForEachLoop.cxx:1027-1036 | every output receives its value at that rank and nowhere else |
| ForEachLoops.ForEachLoop.PushAllSequenceValues | src/engine/ForEachLoop.cxx:1054-1060 | the outputs are published as they are |
| ForEachLoops.ForEachLoop.AreAllIdle | src/engine/ForEachLoop.cxx:799-801 | true iff no branch works any more |
| ForEachLoops.ForEachLoop.RetireBranch | src/engine/ForEachLoop.cxx:795-834 | a branch without further rank goes idle; the last one ends the loop, failed iff failures were counted |
| ForEachLoops.ForEachLoop.DealNext | src/engine/ForEachLoop.cxx:860-873 | the branch gets the next sample still to do |
| ForEachLoops.ForEachLoop.WorkNodeFinished | src/engine/ForEachLoop.cxx:775-879 | the fields follow the scheduler; the results of the branch land at the rank of the sample it was given, and none on failure |
| ForEachLoops.ForEachLoop.UpdateOnFinished | src/engine/ForEachLoop.cxx:743-759 | one Finished event of the scheduler; every stored result stays where its sample was; a done loop has produced all ranks and pushed them; Finish is sent up iff the loop is done, Abort iff it has failed with every branch idle; passed results and stand-in node stay |
| ForEachLoops.ForEachLoop.UpdateOnFailed | src/engine/ForEachLoop.cxx:898-910 | one Broken event of the scheduler; no output changes; without keep-going the loop fails, deals nothing and sends Abort; with it, Finish is sent up iff the loop is done, Abort iff it has failed with every branch idle; passed results and stand-in node stay |
| ForEachLoops.ForEachLoop.GetPassedResults | src/engine/ForEachLoop.cxx:1186-1203 | the set ranks of the first output, the set cells of each output and its name; nothing in any state without outputs or branches: a new loop, one without samples, one whose samples were all passed |
| Relaunches.GiveBack | src/engine/ForEachLoop.cxx:1205-1214 | a loop can be given its own results iff each output has as many of them as the first |
| Relaunches.Relaunch | src/engine/ForEachLoop.cxx:1205-1214 | saving the results, giving them back, initialising and starting: what every output then holds, told by what it held before |
| Relaunches.RelaunchKeepsIff | src/engine/ForEachLoop.cxx:539-546 | every output is given back iff there was none, or no sample, or they were set at the same ranks and some rank was not set |
| Relaunches.OneResultIsDropped | src/engine/ForEachLoop.cxx:539-546 | one output, one sample, one byte: it can only be dropped |
| Relaunches.DoneLoopDropsItsResult | src/engine/ForEachLoop.cxx:539-546 | the same as a run of the loop from its construction on |
| Relaunches.SetRanks | src/engine/ForEachLoop.cxx:775-793 | at any moment of a run a rank is set iff its sample was produced or it was set from the start |
| Relaunches.RunBegins | src/engine/ForEachLoop.cxx:590-605 | when a run begins all outputs are set at the ranks of the passed results, none when there are no such results |
| Relaunches.BranchFinishes | src/engine/ForEachLoop.cxx:743-759 | the end of a branch leads from one moment of a run to another, whatever earlier results the run began with, and the father is told of the end of the loop and of nothing else |
| Relaunches.BranchFails | src/engine/ForEachLoop.cxx:898-910 | so does the failure of a branch, with or without keep-going |
| Relaunches.RunKeepsSameMasks | src/engine/ForEachLoop.cxx:775-793 | outputs set at the same ranks at the start of a run are set at the same ranks at any moment of it |
| Relaunches.CompleteIffDone | src/engine/ForEachLoop.cxx:795-834 | at any moment of any run with branches, passed results counted, every rank is set iff the loop is done |
| Relaunches.RunIsGivenBackUnlessDone | src/engine/ForEachLoop.cxx:1186-1214 | at any moment of any run with branches, starting again gives back all that the loop holds iff it is not done, or has no outputs |
| Relaunches.RelaunchRun | src/engine/ForEachLoop.cxx:1186-1214 | saving, giving back, initialising and starting a run that is not done leads to a run with the same outputs |
| Relaunches.RelaunchOften | src/engine/ForEachLoop.cxx:1186-1214 | and so it does any number of times: a run relaunched from a relaunched run holds what the first one held |
| Relaunches.DroppedResultIsLost | src/engine/ForEachLoop.cxx:1189-1192 | a done loop that was started again and is saved once more gives nothing |
| Relaunches.NothingToSave | src/engine/ForEachLoop.cxx:1189-1192 | a new loop gives nothing, nor does one started on samples without branches |
| Relaunches.BranchesAsked | src/engine/ForEachLoop.cxx:650-670 | at any moment of an activated run all branches are asked for tasks if no run of the loop since it was made was without branches or samples, else none is |
| Relaunches.StaleNodeHidesBranches | src/engine/ForEachLoop.cxx:650-670 | a loop that has a branch in work, and asks nobody for a task |
| Relaunches.FirstRunAsksBranches | src/engine/ForEachLoop.cxx:650-670 | a loop that starts for the first time, on one sample, asks its branch |
| Resources.Resource.constructor | src/engine/PlayGround.cxx:124-128 | all cores of a new machine are free |
| Resources.Resource.GetNumberOfFreePlace | src/engine/PlayGround.cxx:33-47 | the number of chunks all of whose cores are free; a shorter rest at the end counts for none |
| Resources.Resource.AllocateFor | src/engine/PlayGround.cxx:49-70 | takes the first min(asked, free) free chunks, lowers what is left to take by as many, and occupies exactly their cores |
| Resources.Resource.Release | src/engine/PlayGround.cxx:72-83 | frees the chunk of the worker, an error iff the worker does not exist or one of its cores was free |
| Resources.ReleasedUpTo | src/engine/PlayGround.cxx:77-82 | a failing release has freed the cores of the chunk up to the first one that was free |
| Resources.MaskAt | src/engine/PlayGround.cxx:33-47 | the listed chunks increase and are exactly the whole ones in that state |
| Resources.AllocationLowersFree | src/engine/PlayGround.cxx:49-70 | after an allocation the free chunks are those that were not taken |
| Resources.ReleaseRestores | src/engine/PlayGround.cxx:72-83 | releasing what was taken gives back the occupancy; each was releasable |
| Numbering.OwnsIsOwner | src/engine/PlayGround.cxx:553-565 | a worker below the total belongs to exactly one machine |
| PlayGrounds.PlayGround.GetNumberOfFreePlace | src/engine/PlayGround.cxx:184-192 | the number of free workers over all machines |
| PlayGrounds.PlayGround.AllocateFor | src/engine/PlayGround.cxx:194-208 | gives the first free workers by their global ids and occupies exactly their cores, or takes all there are and fails when there are too few |
| PlayGrounds.PlayGround.Release | src/engine/PlayGround.cxx:210-223 | what it does: the first machine with more workers than the id frees its chunk of that number |
| PlayGrounds.PlayGround.FromWorkerIdToResId | src/engine/PlayGround.cxx:553-565 | the machine of the worker; for an id beyond the last, the remainder by the number of machines |
| PlayGrounds.PlayGround.GetWorkerIdsFullyFetchedBy | src/engine/PlayGround.cxx:280-296 | the workers all of whose cores are flagged, with the ids that allocation gives |
| PlayGrounds.AllWorkersAt | src/engine/PlayGround.cxx:194-208 | the global ids increase and name exactly the workers in that state |
| PlayGrounds.TakingLowersFree | src/engine/PlayGround.cxx:194-208 | after an allocation the free workers are those that were not taken |
| PlayGrounds.TakenAreFetched | src/engine/PlayGround.cxx:280-296 | the workers taken are among those fully fetched by the occupied cores, and no other is new |
| PlayGrounds.CoreOfWorker | src/engine/PlayGround.cxx:280-296 | the cores of a worker are on its machine and share its state |
| PlayGrounds.GivingBackRestores | src/engine/PlayGround.cxx:210-223 | freeing the workers that were taken gives back the occupancy of every machine |
| PlayGrounds.ReleaseFreesItsWorkerIff | src/engine/PlayGround.cxx:212-222 | release frees the cores of its worker iff no machine before the owner hosts a worker |
| PlayGrounds.ReleaseMissesItsWorker | src/engine/PlayGround.cxx:212-222 | machines of one and two cores: worker 1 is freed in place of another, worker 2 not at all |
| Placing.StartsAreShots | src/engine/PlayGround.cxx:498-519 | the scanned shots are disjoint, free, each inside a machine, and within the budget |
| Placing.StartsAreMost | src/engine/PlayGround.cxx:498-519 | no other placement of shots within the budget has more of them: scanning greedily is optimal |
| Placing.StartsAreFirst | src/engine/PlayGround.cxx:498-519 | each shot starts at the first place that fits behind the shot before |
| Placing.NoShotIsLeft | src/engine/PlayGround.cxx:498-519 | it stops only when the budget or the free runs are exhausted |
| Placing.WidestRunIsWidest | src/engine/PlayGround.cxx:525-549 | the fallback is the first run of the greatest width, and there is none only when nothing fits |
| Placing.PlaceIsRight | src/engine/PlayGround.cxx:487-551 | fails iff nothing may be taken or no core is free; else distinct free cores: the first whole shots, as many as the number asked for allows, or the first widest run; the last one to be served is not bound by that number and leaves no whole shot free |
| TakePlaces.TakePlace | src/engine/PlayGround.cxx:487-551 | the loops give that placement and clear exactly its cores; a failure clears none |
| TakePlaces.PlaceShots | src/engine/PlayGround.cxx:498-519 | the loops over machines and cores find the scanned shots and clear them |
| TakePlaces.ScanMachine | src/engine/PlayGround.cxx:504-518 | scanning one machine extends the placement to the end of that machine, or exhausts the budget |
| TakePlaces.TakeWindow | src/engine/PlayGround.cxx:506-517 | a window is taken iff it is all free, and then cleared |
| TakePlaces.FindRun | src/engine/PlayGround.cxx:527-548 | the first run of that width inside a machine, none iff there is none |
| TakePlaces.PlaceWidest | src/engine/PlayGround.cxx:525-549 | the widest run is found and cleared |
| CriticalPaths.CalculateTotalLength | src/engine/ComplexWeight.cxx:48-61 | the loop computes the length of a branch on n cores |
| CriticalPaths.LengthOfOneLoop | src/engine/ComplexWeight.cxx:48-61 | a branch with one loop takes its elementary weight and the work of the loop divided by the cores |
| CriticalPaths.LoopLengthens | src/engine/ComplexWeight.cxx:55-59 | one loop more, wherever it stands, lengthens the branch by its own work divided by the cores; a loop without cores by nothing |
| CriticalPaths.ElementaryLengthens | src/engine/ComplexWeight.cxx:53-54 | a longer elementary part lengthens the branch by exactly as much, on any number of cores |
| CriticalPaths.UnsetElementary | src/engine/ComplexWeight.cxx:50-54 | a negative elementary weight counts for nothing, and the branch for nothing when its first loop weight is not set either |
| CriticalPaths.LoopsShareWork | src/engine/ComplexWeight.cxx:48-61 | the loops of a branch take their whole work divided by its cores |
| CriticalPaths.LengthShrinks | src/engine/ComplexWeight.cxx:48-61 | more cores never make a branch longer, when loop weights are not negative |
| CriticalPaths.StaysPositive | src/engine/ComplexWeight.cxx:48-61 | more cores never make a positive length vanish, whatever the weights |
| Greedy.CriticalIsLongest | src/engine/PlayGround.cxx:462-485 | the critical path is the first longest branch, and there is none iff no branch has a positive length |
| Greedy.GrowConserves | src/engine/PlayGround.cxx:398-406 | cores given and cores left add up; no branch loses cores |
| Greedy.FeedingIsFair | src/engine/PlayGround.cxx:401-406 | feeding the longest branch keeps the allocation fair, whatever the shot sizes: no branch got a shot that it did not need to be as short as the longest one |
| Greedy.GrowStops | src/engine/PlayGround.cxx:401-406 | whatever the weights and shot sizes, the loop feeds by whole shots and ends with less left than one shot of the longest branch, or nothing to shorten |
| Greedy.GrowStaysFair | src/engine/PlayGround.cxx:401-406 | the loop ends with every branch fed for a reason |
| Greedy.BetterCostsMore | src/engine/PlayGround.cxx:398-406 | any allocation with a shorter longest branch costs one more shot of the longest branch than a fair one |
| Greedy.GrowIsOptimal | src/engine/PlayGround.cxx:398-406 | whatever the shot sizes, no allocation of whole shots in the same cores has a shorter longest branch |
| Allocations.GetCriticalPath | src/engine/PlayGround.cxx:462-485 | when each error occurs, and else the rank of the critical path |
| Allocations.CriticalStays | src/engine/PlayGround.cxx:401-406 | once there is a critical path there is one after each shot, so the loop never indexes with -1 |
| Allocations.GrowCriticalPath | src/engine/PlayGround.cxx:398-406 | the loop computes the greedy growth, and terminates |
| Allocations.Allocate | src/engine/PlayGround.cxx:374-417 | the whole core count of splitIntoParts: first shares, growth, filling |
| Allocations.FillConserves | src/engine/PlayGround.cxx:407-416 | filling gives cores and conserves their number |
| Allocations.ShotsByDivision | src/engine/PlayGround.cxx:413-415 | the division, which rounds towards zero, gives the cores of the whole shots that are left, or missing |
| Allocations.FillGivesShots | src/engine/PlayGround.cxx:407-416 | filling gives every branch whole shots of its own size |
| Allocations.AllocationFits | src/engine/PlayGround.cxx:374-417 | when the first shares fit, the allocation fits and no branch is below its first share |
| Allocations.GrowKeepsCritical | src/engine/PlayGround.cxx:396-406 | growth starts iff there is a critical path, and changes nothing when there is none |
| Allocations.AllocationIsOptimal | src/engine/PlayGround.cxx:360-417 | with weights that are not negative and first shares that fit, the core counts minimise the longest branch among all allocations of whole shots in the available cores, whatever the shot sizes |
| Allocations.FromStartIsOptimal | src/engine/PlayGround.cxx:395-417 | the same from any positive start |
| Sharing.FirstSharesAre | src/engine/PlayGround.cxx:379-394 | the first share is the shot when the first loop weight is unset or valid, else the larger of the shot and the part in proportion |
| Sharing.GrowIsGrown | src/engine/PlayGround.cxx:398-406 | growth gives whole shots within the space until the longest branch cannot be given one; with weights that are not negative no branch gets a shot without which it would be shorter than the longest one |
| Sharing.FillIsFilled | src/engine/PlayGround.cxx:407-416 | filling gives each branch in turn as many whole shots as the rest allows, and takes back a rest below zero in the same way |
| Sharing.LeftIsShort | src/engine/PlayGround.cxx:407-416 | after filling less is left than any branch takes for one shot |
| Sharing.AllocationIs | src/engine/PlayGround.cxx:360-417 | the core counts of all branches, for all weights and shots, told by these three without the steps that compute them; the first shares alone when no branch takes time |
| Sharing.UndefinedShareAlike | src/engine/PlayGround.cxx:386-389 | two branches of undefined weight on ten cores get five each |
| Sharing.LongestGetsTheRest | src/engine/PlayGround.cxx:396-406 | the branch with the long elementary part gets five of six cores, the one with the short loop one |
| Splitting.NextRankIsLargest | src/engine/PlayGround.cxx:435-442 | the next branch picked has the largest shot of the remaining ones, the first of those |
| Splitting.OrderIsSorted | src/engine/PlayGround.cxx:427-449 | the order is a permutation of the branches by decreasing shot, stable |
| Splitting.FindBiggest | src/engine/PlayGround.cxx:435-442 | the scan finds that branch |
| Splitting.BigToTiny | src/engine/PlayGround.cxx:427-449 | the branches in that order, and where each went |
| Splitting.BackToOriginalOrder | src/engine/PlayGround.cxx:451-460 | each branch gets back what was computed for it: the inverse permutation |
| Splitting.TakenAreApart | src/engine/PlayGround.cxx:419-422 | the parts are disjoint non-empty lists of distinct free cores; what is left free is the rest |
| Splitting.TakenInTurn | src/engine/PlayGround.cxx:418-422 | each part is placed on the free cores but those of the parts before |
| Splitting.SplitIsApart | src/engine/PlayGround.cxx:360-425 | the parts, in the order of the branches, are disjoint, non-empty and among the given cores |
| Splitting.PartServesItsBranch | src/engine/PlayGround.cxx:418-424 | each branch, in the order of the shots, was placed on what the branches before it had left of the given cores, for its own shot and its own core count; the last one may take all that is left |
| Splitting.TakeAll | src/engine/PlayGround.cxx:418-422 | the loop places the branches one after the other |
| Splitting.SplitIntoParts | src/engine/PlayGround.cxx:360-425 | the whole operation gives that split, failing exactly when a placement fails |
| Fitting.CountOfCleared | src/engine/PlayGround.cxx:511-513 | taking distinct free cores lowers the number of free ones by as many |
| Fitting.EveryBranchIsServed | src/engine/PlayGround.cxx:418-422 | when the core counts fit into the free cores every branch is placed: one that is not the last leaves a core for the next |
| Fitting.SplitSucceeds | src/engine/PlayGround.cxx:360-425 | distinct cores are split whenever the first shares of the branches fit into them, in whatever order the branches come |
| Fitting.SplitNeedsCores | src/engine/PlayGround.cxx:360-425 | cores that are split are at least as many as the branches |
| Fitting.OneBranchIsServedIff | src/engine/PlayGround.cxx:360-425 | a branch alone is served iff there is a core, whether its first share fits or not |
| Fitting.SharesNeedNotFit | src/engine/PlayGround.cxx:374-384 | one core for a branch with shots of two cores: the first share does not fit, and the core is given |
| Fitting.CoresNeedNotDo | src/engine/PlayGround.cxx:418-422 | two cores for two branches with shots of two cores: the first takes both, and the split fails |
| Partitions.CheckOKIds | src/engine/PlayGround.cxx:758-774 | true iff the ids increase strictly and are cores of the playground |
| Partitions.BuildSpan | src/engine/PlayGround.cxx:630-636 | accepts a span iff it is as long as the playground or ends inside it, and keeps all cores from its first to its last |
| Partitions.BuildFrom | src/engine/PlayGround.cxx:612-637 | which lists are accepted; the listed cores are kept iff the list increases strictly inside the playground; an empty list fails |
| Partitions.RepeatedCoreIsAccepted | src/engine/PlayGround.cxx:612-637 | on three cores the list 0, 2, 2 is accepted and gives all three |
| Partitions.GetIdsMatching | src/engine/PlayGround.cxx:170-182 | the cores whose pattern is the given one, increasing |
| Partitions.BuildVectOfIdsFromVecBool | src/engine/PlayGround.cxx:234-246 | the positions of the true flags, increasing |
| Partitions.GivenOnce | src/engine/PlayGround.cxx:330-348 | a core is never given to two parts, although each pattern is split once for every core having it |
| Partitions.Distribute | src/engine/PlayGround.cxx:343-347 | each user of a pattern gets its own share appended, others nothing |
| Partitions.SplitPattern | src/engine/PlayGround.cxx:332-347 | the cores of a pattern go to the parts that have them; it fails iff they cannot be split |
| Partitions.CollectIds | src/engine/PlayGround.cxx:329-348 | after the loop each part holds exactly what the splits of all patterns gave it |
| Partitions.CollectedAreSeparate | src/engine/PlayGround.cxx:329-348 | the collected lists are disjoint and each inside its input part |
| Partitions.PatternIsServed | src/engine/PlayGround.cxx:336-347 | the parts with a pattern, by decreasing shot, have got what their own weights and shots place on its cores |
| Partitions.GivenAreServed | src/engine/PlayGround.cxx:329-348 | so it is for the patterns of all cores |
| Partitions.BuildParts | src/engine/PlayGround.cxx:350-357 | one part per list with exactly its cores; fails iff a list is empty |
| Partitions.Partition | src/engine/PlayGround.cxx:298-358 | when each error occurs; it returns iff every pattern can be split and every part receives a core; the parts are then disjoint, non-empty, each inside its input part, and hold exactly the cores that the splits give them; the cores of a pattern that part i has in the end were placed for the shot and the weight of part i |
| Partitions.FittingPartsCanBeCut | src/engine/PlayGround.cxx:329-357 | partition returns whenever the first shares fit into the cores of each pattern and each part has a core |
| Points.GetMaxLevelOfParallelism | src/engine/LinkedBlocPoint.cxx:60-66 | the loops over links and forks compute the level of the tree |
| Points.LevelIsBound | src/engine/ForkBlocPoint.cxx:58-64 | no set of nodes unordered by the tree weighs more than the level |
| Points.LevelIsAttained | src/engine/ForkBlocPoint.cxx:58-64 | some such set weighs exactly the level |
| Points.LevelIsWidth | src/engine/ElementaryPoint.cxx:72-75 | the level is the greatest weight of an unordered set |
| Regions.ChainIsModule | src/engine/AbstractPoint.cxx:87-140 | two regions, one leading to the other only, make a region entered at its first nodes and left at its last ones |
| Regions.UnionIsModule | src/engine/AbstractPoint.cxx:145-172 | so do two regions with the same surroundings |
| PointRegions.NodeIsFaithful | src/engine/SetOfPoints.cxx:31-39 | a single node is a faithful point |
| PointRegions.ChainIsFaithful | src/engine/AbstractPoint.cxx:87-140 | a chain of faithful points, each joined to the next, orders its nodes exactly as reachability does |
| PointRegions.ForkIsFaithful | src/engine/AbstractPoint.cxx:145-259 | a fork of faithful points with the same surroundings does too: no link joins two branches |
| PointRegions.EndsOfPoint | src/engine/ForkBlocPoint.cxx:44-56 | the first and last node of a point are among its entries and its exits |
| PointRegions.SameLinksAreTwins | src/engine/AbstractPoint.cxx:158-164 | points with one link at most at each end, to the same nodes, have the same surroundings |
| Contraction.PointIsUnique | src/engine/BlocPoint.cxx:52-61 | a node is in one point of the bag only |
| Contraction.PointWith | src/engine/BlocPoint.cxx:52-61 | a point found holds the node |
| Contraction.PointIsFound | src/engine/BlocPoint.cxx:52-61 | a point is found for every node of the bag |
| Contraction.CommonSon | src/engine/AbstractPoint.cxx:533-563 | the point holding all the given nodes, none for no node |
| Contraction.JoinedBackward | src/engine/BlocPoint.cxx:77-89 | what the tests of the walk back see at the ends of two points makes every exit of one linked to every entry of the other, and to nothing else |
| Contraction.JoinedForward | src/engine/BlocPoint.cxx:63-75 | the same for the walk on |
| Contraction.ExtendBackward | src/engine/AbstractPoint.cxx:93-112 | a step back makes a longer chain of distinct points |
| Contraction.ExtendForward | src/engine/AbstractPoint.cxx:114-133 | a step on makes a longer chain of distinct points |
| Contraction.ChainIsModuleOf | src/engine/AbstractPoint.cxx:134-137 | the chain found in the bag is a faithful point |
| Contraction.BetweenIsForkOf | src/engine/AbstractPoint.cxx:166-169 | the branches found in the bag are a faithful fork |
| Contraction.ElementariesAreOk | src/engine/SetOfPoints.cxx:31-39 | the first bag is well formed and holds the nodes in order |
| Trees.BuiltIsFaithful | src/engine/AbstractPoint.cxx:87-172 | a tree of chains joined point to point and of forks with single links at the ends of the branches orders its nodes as reachability does |
| Trees.ChainIsBuilt | src/engine/AbstractPoint.cxx:87-140 | the chain found in a bag of such trees is such a tree |
| Trees.ForkIsBuilt | src/engine/AbstractPoint.cxx:145-259 | so is the fork found in it |
| Contractible.ForkIsLeft | src/engine/AbstractPoint.cxx:145-172 | two points of the bag that hold different branches of a fork are themselves branches of a fork: the search finds one |
| Contractible.ChainIsLeft | src/engine/AbstractPoint.cxx:114-133 | when two points of the bag hold neighbours in a chain, the one leads to the other only |
| Contractible.FindBefore | src/engine/AbstractPoint.cxx:93-112 | for every link inside a tree some part of the tree has all the nodes that lead to its end, and all nodes of that part come before that end |
| Contractible.StepIsLeft | src/engine/SetOfPoints.cxx:46-67 | while a part of a tree is not in one point a step is left, in that part or in one before it |
| Contractible.NeverStuck | src/engine/SetOfPoints.cxx:46-67 | whatever steps were made, a chain or a fork is left as long as there are several points, if the nodes have a tree |
| Contractible.StuckHasNoTree | src/engine/SetOfPoints.cxx:46-67 | nodes that the steps leave in several points have no tree |
| BagPoints.ReplaceKeepsBag | src/engine/BagPoint.cxx:96-107 | replacing two points or more by their block keeps the bag well formed, keeps the multiset of nodes, and makes it shorter by their number less one |
| BagPoints.BagPoint.constructor | src/engine/SetOfPoints.cxx:31-39 | one elementary point per node |
| BagPoints.BagPoint.ReplaceInMe | src/engine/BagPoint.cxx:96-107 | succeeds iff all points of the block are in the bag; on failure the points before the missing one are gone |
| BagPoints.BagPoint.TryAsLink | src/engine/AbstractPoint.cxx:87-140 | finds a chain iff a step back or a step on is possible; the chain is made of distinct joined points, and both walks terminate |
| BagPoints.BagPoint.WalkBack | src/engine/AbstractPoint.cxx:93-112 | the walk back ends with a chain, longer than one point iff the first step is possible |
| BagPoints.BagPoint.WalkOn | src/engine/AbstractPoint.cxx:114-133 | the walk on only extends the chain, and does iff its first step is possible |
| BagPoints.BagPoint.Siblings | src/engine/AbstractPoint.cxx:150-165 | distinct points between the same nodes, more than one iff some other point is beside |
| BagPoints.BagPoint.TryAsFork | src/engine/AbstractPoint.cxx:145-259 | fails iff the point has several links at one end; a fork iff it has a sibling; the fork is faithful |
| BagPoints.BagPoint.Deal1 | src/engine/BagPoint.cxx:109-125 | contracts one chain iff there is one; the bag stays well formed with the same nodes |
| BagPoints.BagPoint.Deal2 | src/engine/BagPoint.cxx:127-193 | contracts one fork, or does nothing iff no fork applies and nothing blocks the search; fails only when some point passes for a branch but has several links |
| BagPoints.BagPoint.DealForks | src/engine/SetOfPoints.cxx:54-65 | contracts the first of the four kinds of forks that there is; does nothing iff none of the four is there |
| BagPoints.BagPoint.BasicSimplify | src/engine/SetOfPoints.cxx:46-67 | terminates in at most n - 1 contractions, keeps the nodes and the well-formed bag at every step, ends with one point, or fails with no chain left, and either no fork left or a point that passes for a branch and has several links |
| Narrow.ChainIsNarrow | src/engine/AbstractPoint.cxx:134-137 | a chain of points that have one link at most at an end of several nodes is such a point |
| Narrow.ForkIsNarrow | src/engine/AbstractPoint.cxx:145-172 | so is a fork of branches with one link at most at each end |
| Narrow.BlockingIsLinkable | src/engine/AbstractPoint.cxx:496-516 | a point whose several links would make the search for a fork throw is in a chain, which is contracted before |
| Narrow.StuckIsPlain | src/engine/SetOfPoints.cxx:46-67 | the contraction fails only where neither a chain nor any of the four forks is left: the exceptions of GetNodeB4 and GetNodeAfter are never thrown |
| TwoForks.SpreadIsStuck | src/engine/AbstractPoint.cxx:442-476 | no step applies to points that all have several links at some end, to several points |
| TwoForks.TwoByTwoIsStuck | src/engine/SetOfPoints.cxx:46-67 | no step applies to two nodes that both lead to two others |
| TwoForks.TwoByTwoHasTree | src/engine/SetOfPoints.cxx:46-67 | although their order is that of a fork followed by a fork |
| TwoForks.TwoByTwoIsNotBuilt | src/engine/SetOfPoints.cxx:46-67 | but no tree of forks with single links at the ends of the branches has these nodes |
| Parallelism.IndependentIsAntichain | src/engine/LinkedBlocPoint.cxx:60-66 | for a faithful tree, unordered by the tree is the same as independent in the graph |
| Parallelism.LevelIsGraphWidth | src/engine/ForkBlocPoint.cxx:58-64 | the level of a faithful tree is the width of the control graph |
| Parallelism.Simplify | src/engine/Bloc.cxx:467-472 | gives a tree iff the group has a tree of chains and of forks with single links at the ends of the branches; the tree orders the nodes exactly as the control graph does; a failure has a bag of these nodes with neither chain nor fork |
| Parallelism.GroupsAreFork | src/engine/Bloc.cxx:459-460 | the trees of independent groups make a faithful fork |
| Parallelism.GroupsOf | src/engine/Bloc.cxx:465 | the lists are groups of children joined by links in either direction, all of them, and share no child |
| Parallelism.TreesOf | src/engine/Bloc.cxx:467-472 | one tree per group, holding its nodes and no other, or a group without tree |
| Parallelism.AnalyzeParallelism | src/engine/Bloc.cxx:463-474 | gives faithful trees of the independent groups, holding every child, iff every group of children joined by links has such a tree; a failure names a group that the steps lead to several points with neither chain nor fork |
| Parallelism.GetMaxLevelOfParallelism | src/engine/Bloc.cxx:456-461 | the result is the greatest total level of children none of which waits for another, and there is one iff every group has a tree |
| Base64.TablesAreInverse | src/engine/Any.cxx:43-104 | the two tables are inverse on the 64 symbols, and every other octet is refused |
| Base64.SymbolIsLetter | src/engine/Any.cxx:43 | the symbol of each value is its letter in the alphabet, written out |
| Base64.LetterHasValue | src/engine/Any.cxx:104 | and a letter has that value only |
| Base64.CheckEntry | src/engine/Any.cxx:119-129 | succeeds iff the octet is a symbol, with a value below 64 |
| Base64.ChunkInternal | src/engine/Any.cxx:58-68 | the loop gathers six bits, the first one highest |
| Base64.ChunkHasBits | src/engine/Any.cxx:58-68 | a chunk is below 64 and its bits are those gathered |
| Base64.LoadedIsByte | src/engine/Any.cxx:131-142 | eight bits loaded from the last to the first make the byte they come from |
| Base64.ByteInternal | src/engine/Any.cxx:131-142 | succeeds iff both characters are symbols, and gives the eight bits found across them |
| Base64.NbChunks | src/engine/Any.cxx:85-98 | the encoded length is 8n/6 rounded up |
| Base64.ChunkStarts | src/engine/Any.cxx:70-76 | no chunk starts beyond the bytes |
| Base64.ToBase64 | src/engine/Any.cxx:85-98 | each character is the letter of the alphabet for six successive bits of the bytes, lowest bit of a byte first, first bit of a letter highest; behind the end those of the last byte follow again |
| Base64.BitIs | src/engine/Any.cxx:45-48 | a bit is looked up where it stands in the byte |
| Base64.ChunkBitIs | src/engine/Any.cxx:70-76 | the six bits of a chunk follow one another in the bytes, and behind the end in the last byte again |
| Base64.EncodedCharacter | src/engine/Any.cxx:85-98 | every character of an encoded text is the letter of its six bits |
| Base64.ReadPositions | src/engine/Any.cxx:144-149 | decoding reads two neighbouring characters, both inside the text |
| Base64.EveryReadPosition | src/engine/Any.cxx:151-162 | every character up to the last read one is read |
| Base64.ByteAtPos | src/engine/Any.cxx:144-149 | succeeds iff the two characters are symbols |
| Base64.FromBase64 | src/engine/Any.cxx:151-162 | succeeds iff all characters read are symbols, with one byte per eight bits |
| Base64.FromBase64Safe | src/engine/Any.cxx:167-177 | the decoded bytes, or the text itself when it cannot be decoded |
| Base64.DecodedBitIs | src/engine/Any.cxx:131-162 | every bit of every byte decoded from any text is that bit of the value of one letter |
| Base64.InvalidUnnoticedIff | src/engine/Any.cxx:151-162 | an invalid character goes unnoticed iff it is the last of a text of length 4k + 1 |
| Base64.ChunkBitIsByteBit | src/engine/Any.cxx:70-76 | bit i of the bytes is bit i of the chunks |
| Base64.SizesMatch | src/engine/Any.cxx:151-162 | decoding an encoded text gives as many bytes as were encoded |
| Base64.DecodeEncodedByte | src/engine/Any.cxx:131-149 | each byte comes back from the two symbols it is spread over |
| Base64.RoundTrip | src/engine/Any.cxx:85-177 | decoding an encoded byte string gives it back, with both decoders |

## Left out

- Execution: one non-empty bloc of elementary nodes in CONTINUE mode; DISABLED nodes, data streams, nested blocs and
  events sent up to a father, the `multi` property and invalid input ports (which would set INTERNALERR) do not occur.
- The end of a task is one atomic step, as its critical section makes it; threads, semaphores, condition variables and
  exceptions inside a notification are not modelled, nor are breakpoints, step by step, pilot control and the workload
  manager.
- Turns.StepKeeps: in a turn the tasks are handled in any order; the source loads all, then connects, then launches.
  The start event of a task is no step of a turn, since it changes nothing (`BlocRuns.BlocRun.TaskStarted`).
- Runs.RunsEnd: counts the moves of nodes only; the pauses of the main loop are counted in `Turns.EveryRunEnds`.
- BlocRuns.BlocRun.UpdateNode: without the check of input ports, INTERNALERR and DISABLED.
- BlocRuns.BlocRun.AreAllSubNodesFinished: without INTERNALERR and DISABLED children.
- BlocRuns.BlocRun.AreAllSubNodesDone: without DISABLED children.
- BlocRuns.BlocRun.UpdateOnFinished: without the exception of a conversion, which would fail the bloc.
- BlocRuns.BlocRun.TaskConnected: without the check of input ports.
- Blocs.Bloc.AddLink: for two children of the bloc; orphan nodes and links handed over to a nested father are left out.
- Gates are entries of two maps of the bloc rather than objects of their own; the flag that an out gate keeps for each
  of its links is left out.
- The empty entries that reading `_fwLinks` and `_bwLinks` creates are not modelled: a missing entry reads as an empty
  set. The result of `insertNodeChildrenInSet`, which nobody uses, is left out.
- `edAddChild`, `edRemoveChild`, orphan nodes and links across several levels of nesting.
- ForEachLoops.ForEachLoop.ExUpdateState: without init and finalize nodes and without the exceptions of cloning.
- ForEachLoops.ForEachLoop.RetireBranch: without finalize nodes and exceptions while the outputs are pushed.
- ForEachLoops.ForEachLoop.WorkNodeFinished: without finalize nodes.
- ForEachLoops.ForEachLoop.UpdateOnFinished: for work nodes only.
- ForEachLoops.ForEachLoop.UpdateOnFailed: for work nodes only.
- ForEachLoops.ForEachLoop.AssignPassedResults: when the results are refused the code keeps the address of the data that
  it has just deleted; the model then has no passed data.
- ForEachLoops.ForEachLoop.AskedForTasks: tells who is asked; what a branch answers is up to its own nodes.
- PassedData.ForEachLoopPassedData.New: null outputs are left out.
- ForEach loops without init and finalize nodes; type checks of values, memory layout and reference counts; progress
  events. A value is a list of bytes as wide as the element type.
- The passed data of a value that happens to be the unset byte pattern: it reads as unset, as in the code.
- `_nbOfBranches` is a parameter of the first update, as is whether output ports leave the scope of the loop.
- Chunk sizes and shot sizes are at least one; the code divides by them, or loops for ever, when they are zero.
- Weights are real numbers: rounding of doubles is not modelled. `max`, `addWeight` and the other updates of
  `ComplexWeight` are left out.
- Allocations.AllocationIsOptimal: for loop weights that are not negative. For other weights more cores can make a
  branch longer; `Sharing.AllocationIs` tells what the branches then get, not that it is best.
- Partitions.Partition: the flat table of flags is one pattern per core, and null or foreign part definitions are left
  out. `std::set` is modelled by what it does: it sorts and removes duplicates.
- Placing.PlaceIsRight: the two messages of the final failure are one error.
- `stashPart`, `setData`, `checkCoherentInfo` and what prints or names machines.
- Parallelism.Simplify: no result where `simplify` goes on with `dealNotSimpleCase`.
- Parallelism.AnalyzeParallelism: no result where `simplify` goes on with `dealNotSimpleCase`.
- Fitting.SplitSucceeds: a condition that is enough, not one that is needed; `Fitting.SplitNeedsCores` is needed and
  not enough. What lies between depends on where the shots of the earlier branches fall on the machines.
- BagPoints.BagPoint.BasicSimplify: `simplify` goes on with a heuristic, `dealNotSimpleCase`, where `basicSimplify`
  throws; the model stops with the failure of `basicSimplify`, and points of that heuristic never occur.
- BagPoints.BagPoint.Deal2: the four methods `deal2`, `deal2Bis`, `deal2Ter` and `deal2Quatro` are one with two flags,
  and so are the four `tryAsFork` methods.
- Points are trees of values without father pointers. Two points of a bag have different nodes, so that equality of
  trees stands for identity of objects. A bag is about nodes whose links stay among them, as those of a group do.
- Parallelism.GetMaxLevelOfParallelism: no result where `simplify` goes on with `dealNotSimpleCase`; the level of each
  child is a parameter, since children may be composed.
- Base64.TablesAreInverse: the tables are given by their ranges rather than by their entries. `char` is an octet; the
  sign of a plain `char` does not matter for the eight bits read.
